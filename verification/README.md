# Zombie-Crisis engine in Dafny

A model of the simulation core of Zombie-Crisis, a browser game in which a
crowd of civilians, zombies and soldiers moves over a city map. The game
runs in ticks. Each tick:

- every entity steers and moves;
- the zombies of the tick-start snapshot drain the health of nearby humans,
  and a human drained to zero becomes a zombie;
- armed humans and soldiers fire at zombies in range;
- dead zombies are removed;
- the engine publishes counts and decides victory or defeat.

The player spends resources on airstrikes, supply drops and special-forces
squads by clicking on the map. A thin application shell holds the published
state, a six-line radio log, the pause flag and a reset.

The model is functional. Entities are immutable records in a `seq`. Each
phase of a tick is a pure function whose fold order follows the engine's
`forEach` order. The engine's in-place mutation through shared references is
read as follows:

- movement is sequential, so entity `k` steers against a list in which
  entities `0 .. k-1` have already moved;
- the `zombies`/`humans` snapshots are taken at the start of a tick, so
  their membership is fixed by the tick-start kinds. They share their
  records with the list, so a snapshot entry sees the moved position, and
  a snapshot human that turns during infection has a zombie's record while
  it is still in the humans snapshot. The model keeps the tick-start list
  to decide membership and reads every other field from the current list.

Every `Math.random()` call becomes an explicit `Roll` argument (a real in
`[0, 1)`). `Math.sqrt` and `cos`/`sin` come in through the oracle `Maths`.
Lemmas that need them assume `IsSqrt` (a true square root) and `IsCosSin`
(points on the unit circle). The engine's distance tests are of two kinds.
Range tests compare a distance with a constant; `DistanceTestOnSquares`
shows that comparing the squared distance with the squared constant decides
the same. The nearest-target scans compare a distance with a running
minimum; `ScanOnSquares` shows that scanning on squared distances picks the
same entity. So the model compares squared distances throughout.

Modules, in dependency order:

- `Types` — the records;
- `Constants` — the tuning values the engine reads;
- `VectorMath` — `normalize`, `limitVec` and distances;
- `Chance` — index picks and the weapon roll;
- `Steering` — the forces, the three kind policies and the movement phase;
- `Census` — counting by kind;
- `Infection`;
- `Combat` — including removal;
- `Simulation` — the whole tick and its bookkeeping;
- `Population` — `initPopulation`;
- `Interventions` — `handleMapClick`;
- `AppState` — the shell's reducers.

Two quirks of the code are modelled as written:

- **Civilians never panic-sprint.** The civilian panic test (components/GameMap.tsx:339-340) compares the distance to the nearest zombie with a threshold made from that same distance. So the sprint-flee branch never fires, and a civilian's speed cap is always MAX_SPEED_CIVILIAN (`Steering.CivilianPlan`).
- **Converted soldiers get 20 health, not 50.** On conversion, the health reset (components/GameMap.tsx:375) reads the kind after it has been set to zombie. So every converted human gets 20 (`Infection.Bite`).

Three behaviours of the code that a reader may not expect:

- **The infected count starts at 2.** The shell's initial snapshot and its reset state say 2 infected. The population actually starts with one to three zombies, because the three patient-zero picks may repeat. The first tick publishes the true count.
- **A game result does not stop the loop.** The main loop only checks for a result when it starts. Once a result is set, ticks keep running, but bookkeeping never clears the result (`Simulation.Tick`).
- **Turned humans keep being bitten.** A human that turned earlier in the same infection phase is still in the humans snapshot, so later zombies keep biting it. Each bite drains it by 2, from 20 to 18 and so on, and it stays a zombie. Only a bite that leaves it at zero or below converts it again, which sets its health back to 20.

## Model

| member | source | states |
|---|---|---|
| VectorMath.DistanceTestOnSquares | components/GameMap.tsx:10-12 | With a true square root, the engine's tests `dist < c`, `dist <= c`, `dist > c` and `dist > 0` decide the same as comparing the squared distance with `c*c`. |
| VectorMath.Normalize | components/GameMap.tsx:14-18 | The zero vector, and any vector whose computed magnitude is zero, normalizes to the zero vector. |
| VectorMath.NormalizeIsUnit | components/GameMap.tsx:14-18 | With a true square root, a vector of positive length normalizes to unit length. |
| VectorMath.Limit | components/GameMap.tsx:23-30 | A vector whose squared magnitude is within `max²` is returned unchanged; a longer one is replaced by its direction scaled to `max`. |
| VectorMath.LimitCaps | components/GameMap.tsx:23-30 | With a true square root, the limited vector's squared magnitude is at most `max²`, and exactly `max²` when the input was longer. |
| Chance.PickIndex | components/GameMap.tsx:397 | `floor(roll * n)` is a valid index into a non-empty list of length `n`. |
| Chance.RandomWeaponBands | components/GameMap.tsx:40-46 | Pistol exactly on rolls below 0.4, shotgun on [0.4, 0.7), sniper on [0.7, 0.9), rocket from 0.9 up. |
| Steering.Repulsion | components/GameMap.tsx:235-244 | The neighbour count is zero exactly when no entity lies strictly between distance 0 and SEPARATION_RADIUS. The summed push is then the zero vector. |
| Steering.Separation | components/GameMap.tsx:235-248 | The separation force is exactly zero when no neighbour qualifies, including a neighbour exactly at the radius and the entity itself. |
| Steering.SeparationMagnitude | components/GameMap.tsx:246 | With a true square root and a non-zero summed push, the separation force has magnitude FORCE_SEPARATION. |
| Steering.SeekMagnitude | components/GameMap.tsx:250-253 | With a true square root and a target at positive distance, the seek force has magnitude FORCE_SEEK. |
| Steering.FleeMagnitude | components/GameMap.tsx:255-258 | With a true square root and a threat at positive distance, the flee force has magnitude FORCE_FLEE. |
| Steering.Wander | components/GameMap.tsx:260-263 | The wander angle turns by at least -0.25 and less than +0.25 radians per tick. |
| Steering.Scan | components/GameMap.tsx:292-298 | The nearest-target scan finds nothing exactly when no entity of the wanted side is strictly inside the limit. Otherwise it returns one within the limit, no farther than any other, and strictly nearer than every earlier one. |
| Steering.ScanOnSquares | components/GameMap.tsx:295-297 | Scanning on squared distances picks the same entity as scanning on square-rooted distances, and its minimum is the square of theirs. |
| Steering.ZombiePlan | components/GameMap.tsx:290-306 | A zombie takes the sprint cap exactly when some civilian or soldier is strictly within VISION_RANGE_ZOMBIE, and then seeks the first of the nearest such ones, as the strict scan picks on ties. Otherwise it wanders at the slow wander cap. |
| Steering.SoldierPlan | components/GameMap.tsx:307-328 | A soldier's cap is always MAX_SPEED_SOLDIER. With no zombie strictly within twice VISION_RANGE_HUMAN it wanders. Otherwise it steers by the first of the nearest such zombies (ties go to the earlier one): it seeks beyond 0.8 of its weapon range, flees inside 0.4 of that, and drifts at half the wander force in between. |
| Steering.CivilianPlan | components/GameMap.tsx:329-353 | A civilian's cap is always MAX_SPEED_CIVILIAN: the panic sprint never fires. With a zombie strictly within VISION_RANGE_HUMAN, an armed civilian backs away from the first of the nearest ones at a fifth of the flee force and an unarmed one gets no steering force. Without one, it wanders, pulled home at half the seek force when beyond 1.2 spawn radii. |
| Steering.PlanFor | components/GameMap.tsx:283-353 | An entity's chosen cap is non-negative and at most its kind's largest cap, and equal to it for civilians and soldiers. |
| Steering.Step | components/GameMap.tsx:360-363 | Moving an entity changes only its position, velocity and wander angle. The new position is the old one plus the new velocity. |
| Steering.StepSpeedBound | components/GameMap.tsx:360-361 | With a true square root, a moved entity's squared speed is within the square of the cap its kind's policy chose, and so within its kind's largest cap squared. |
| Steering.MoveFrom | components/GameMap.tsx:281-364 | The sequential movement pass keeps the list length, leaves already-passed entities alone, and changes only position, velocity and wander angle. |
| Steering.Move | components/GameMap.tsx:281-364 | The movement phase keeps the list length, and changes each entity's position, velocity and wander angle only. |
| Steering.MoveSpeedBound | components/GameMap.tsx:281-364 | After the movement phase every entity is within its kind's speed cap. |
| Census.CountKind | components/GameMap.tsx:470-471 | The count of a kind is zero exactly when no entity has it, and equals the list length exactly when all have it. |
| Census.KindsPartition | components/GameMap.tsx:470-472 | The civilian, zombie and soldier counts add up to the list length. |
| Infection.Bite | components/GameMap.tsx:370-378 | A bite drains 1 from a soldier and 2 from anyone else. A human left above zero only loses health. One at zero or below becomes an infected, unarmed zombie with 20 health. Health stays positive. |
| Infection.Bites | components/GameMap.tsx:367-379 | After `n` bites a human either keeps its kind, arming and infection with health lowered by `n` (soldier) or `2n` (others), or has turned into an infected, unarmed zombie with at most 20 health. A human whose health stays above zero after those bites keeps its kind. |
| Infection.BitePass | components/GameMap.tsx:368-380 | One zombie's pass bites exactly the tick-start humans strictly within INFECTION_RANGE and leaves everyone else as they were. |
| Infection.Infect | components/GameMap.tsx:367-381 | After the infection phase a tick-start zombie is unchanged. A tick-start human has taken one bite from each tick-start zombie strictly within INFECTION_RANGE of it, including bites after it turned. |
| Combat.Shooters | components/GameMap.tsx:383 | The shooters are exactly the tick-start humans that, after infection, are armed or soldiers, in list order. |
| Combat.Targets | components/GameMap.tsx:387 | The targets are exactly the tick-start zombies not yet dead and strictly within weapon range, in list order. |
| Combat.Splash | components/GameMap.tsx:419-424 | A rocket hits only tick-start zombies within the splash radius of the main target, and every one of them, dead or not. |
| Combat.Strike | components/GameMap.tsx:419-454 | Every hit index loses the damage once, nothing else changes, and the dead set grows by exactly the hit entities left at zero or below. |
| Combat.Shoot | components/GameMap.tsx:384-457 | One shooter's turn: without a target in range or when the fire roll fails nothing changes. Otherwise only zombies lose health, nothing else changes, and the dead set only grows. |
| Combat.HitsAreZombies | components/GameMap.tsx:395-455 | Whatever the weapon, every entity a shot hits is a tick-start zombie. |
| Combat.SingleShot | components/GameMap.tsx:442-455 | When a pistol or sniper fires, one target in range loses the weapon's damage and nothing else changes. It joins the dead exactly when that leaves it at zero or below. |
| Combat.ShotgunSpread | components/GameMap.tsx:426-440 | When the shotgun fires, the entities it changes are exactly the first three targets in list order, or all of them when there are fewer. Each loses the shotgun's damage. |
| Combat.ShotgunHitsFirst | components/GameMap.tsx:428 | Every target the shotgun hits comes before, in list order, every target in range it leaves alone. |
| Combat.RocketSplash | components/GameMap.tsx:395-424 | When the rocket fires, there is a main target in range that loses health. The entities it changes are exactly the splash zombies around it, each by the rocket's damage. |
| Combat.Fight | components/GameMap.tsx:383-458 | Combat leaves humans untouched and only lowers zombies' health. Every dead id belongs to a tick-start zombie at zero or below. Every zombie a hit took to zero or below is dead. |
| Combat.Survivors | components/GameMap.tsx:460 | An entity survives exactly when it was in the list and its id is not dead. |
| Combat.SurvivorsAppend | components/GameMap.tsx:460 | Removal keeps the original order: it distributes over concatenation. |
| Combat.SurvivorsDistinct | components/GameMap.tsx:460 | Removal keeps ids distinct. |
| Simulation.Find | components/GameMap.tsx:475-477 | The selection lookup finds nothing exactly when no entity has the id. Otherwise it returns the first entity with that id. |
| Simulation.Bookkeep | components/GameMap.tsx:468-480 | Infected, soldier and healthy counts are the zombie, soldier and civilian counts and sum to the list length. The selection is looked up by id. Only those fields and the result change. |
| Simulation.OutcomeRule | components/GameMap.tsx:479-480 | From no result: victory exactly when no zombie and some civilian is left. Defeat exactly when that fails and no civilian or soldier is left. |
| Simulation.Tick | components/GameMap.tsx:271-480 | While paused the entities are unchanged and no income is paid; otherwise PASSIVE_INCOME is added. The list never grows and keeps only tick-start ids. Counts and outcome come from the resulting list, a set result stays set, and the flags are kept. The selection is looked up by id in the resulting list, and stays empty when nothing is selected. |
| Simulation.Simulate | components/GameMap.tsx:274-460 | A tick's simulation never grows the list, and every entity it leaves carries a tick-start id. |
| Simulation.TickKeepsAlive | components/GameMap.tsx:367-460 | If every entity has positive health before a tick, every entity still in the list afterwards has positive health. |
| Simulation.TickSpeedBound | components/GameMap.tsx:360-381 | After a tick every entity is within its kind's speed cap, including humans that turned this tick. |
| Simulation.TickKeepsIdsDistinct | components/GameMap.tsx:281-460 | A tick keeps ids distinct. |
| Simulation.TickKeepsHumans | components/GameMap.tsx:422-460 | With distinct ids, every tick-start civilian or soldier still has its id in the list after the tick: no human is removed. |
| Simulation.VictoryIsFinal | components/GameMap.tsx:367-478 | With no zombie and some civilian, a tick leaves no zombie and some civilian, so victory stands. |
| Simulation.ConvertedNeverShoot | components/GameMap.tsx:376-383 | A human that turned this tick is not a shooter this tick. |
| Population.Newcomer | components/GameMap.tsx:190-218 | Civilian `i` has id `civ-i` and 10 health. It is unarmed, uninfected, weaponless and at rest at its spawn point. |
| Population.PatientZero | components/GameMap.tsx:221-227 | A patient-zero pick changes at most one entry, and only its kind, infection and health: it becomes an infected zombie with 20 health, keeping its id, position, motion, arming and weapon. The zombie count afterwards is positive and at most one higher. |
| Population.InitPopulation | components/GameMap.tsx:187-228 | The initial population has exactly 120 entities with distinct ids `civ-0 .. civ-119`, none armed and no soldiers. Between one and three are infected zombies with 20 health; every other is an uninfected civilian with 10 health. |
| Population.SpawnWithinRadius | components/GameMap.tsx:191-210 | With true square root and trigonometry, every civilian spawns strictly within SPAWN_RADIUS of the centre. |
| Interventions.UseResource | components/GameMap.tsx:498-505 | The cost is paid exactly when the balance covers it. Otherwise the balance is unchanged and an insufficient-funds line is logged. |
| Interventions.HandleMapClick | components/GameMap.tsx:490-556 | A click with a result set or while paused changes nothing and does not deselect; otherwise it deselects. A tool is paid for exactly when affordable; otherwise nothing changes but the insufficient-funds line. A paid tool logs one line, and a non-negative balance stays non-negative. |
| Interventions.Bombard | components/GameMap.tsx:507-514 | The airstrike keeps exactly the entities that are not zombies strictly within AIRSTRIKE_RADIUS. |
| Interventions.BombardAppend | components/GameMap.tsx:507-514 | The airstrike's filter keeps list order and multiplicity: filtering a concatenation is the concatenation of the filtered parts. |
| Interventions.StrikeSparesHumans | components/GameMap.tsx:508-513 | The airstrike leaves the civilian and soldier counts unchanged. |
| Interventions.AirstrikeRemovesExactly | components/GameMap.tsx:507-514 | A paid airstrike removes exactly the zombies in the blast, spares every human, and logs the strike. |
| Interventions.SupplyDropArms | components/GameMap.tsx:515-533 | A paid supply drop arms exactly a drawn set of min(4, candidates) distinct uninfected civilians strictly within SUPPLY_RADIUS, each with its own weapon roll, and changes nobody else. Its one radio line reports nobody there exactly when there are no candidates, and the count armed otherwise. |
| Interventions.SpecOpsAppendsSquad | components/GameMap.tsx:535-555 | A paid spec-ops call leaves the old list followed by four armed soldiers with 50 health, each carrying a sniper rifle or a rocket launcher, adds no civilian or zombie, and reports the arrival. |
| Interventions.Candidates | components/GameMap.tsx:516-518 | The supply candidates are exactly the uninfected civilians strictly within SUPPLY_RADIUS, in list order. |
| Interventions.Sample | components/GameMap.tsx:521 | The shuffled slice holds `min(n, pool)` distinct members of the pool. |
| Interventions.Arm | components/GameMap.tsx:523-527 | The chosen entities are armed with the weapon their roll draws; nobody else changes. |
| Interventions.Supply | components/GameMap.tsx:515-533 | A supply drop arms exactly `min(4, candidates)` distinct candidates, each with its own roll's weapon, and changes no one else. It reports that number, or reports no recipients exactly when there were no candidates. |
| Interventions.Recruited | components/GameMap.tsx:537-552 | A recruit is an armed, uninfected soldier with 50 health, carrying a rocket launcher exactly when its roll exceeds 0.5 and a sniper rifle otherwise. |
| Interventions.SquadJoins | components/GameMap.tsx:535-555 | Spec ops appends exactly four armed soldiers with 50 health and a sniper or rocket after the unchanged list. The soldier count rises by four; the other counts stay. |
| AppState.AddLog | App.tsx:40-42 | The log keeps at most six lines: the previous log's last five (or fewer) in order, then the new line last. |
| AppState.AddLogKeepsLatest | App.tsx:40-42 | One append leaves the last six lines of the old log with the new line appended. |
| AppState.LogHoldsLatestSix | App.tsx:40-42 | After any run of messages, the log holds the latest six of all messages so far, oldest first. |
| AppState.StateUpdate | App.tsx:28-38 | The merge keeps the shell's playing and paused flags. |
| AppState.StateUpdateTakesSnapshot | App.tsx:28-38 | The merged state is the engine's snapshot with the shell's two flags, and merging the same snapshot again changes nothing. |
| AppState.TogglePause | App.tsx:44-46 | The pause flag flips and nothing else changes. |
| AppState.TogglePauseTwice | App.tsx:44-46 | Toggling twice restores the state. |
| AppState.Reset | App.tsx:48-49 | The game id strictly increases. |
| AppState.ResetRestores | App.tsx:48-63 | A reset depends only on the game id. It restores the initial snapshot (playing, unpaused, 120 healthy, 2 infected, no soldiers, no result, 1000 in the bank, nothing selected), clears the log and selects no tool or entity. |

## Left out

- Rendering and the React plumbing (markers, icons, map events, effects, intervals, refs) and the whole presentation overlay: they compute nothing the engine reads.
- Geolocation at start-up and the narrative radio line generated then: external services; the model takes the centre as a parameter.
- The map-data service and the language-model service: network clients outside the engine.
- Names, ages, genders and thoughts of entities, and the occasional thought refresh: cosmetic text whose rolls decide nothing else.
- Visual effects and their 150 ms ageing: display only.
- Radio message ids, timestamps, senders and text: each emitted line is a `RadioEvent` constructor, and the wall clock is a parameter (`clock`, `stamp`) where it enters an entity id.
- IEEE double behaviour: coordinates are unbounded reals, so rounding and overflow are not modelled.
- `sqrt`, `cos`, `sin`: oracles; lemmas that need their laws assume them.
- Interventions.Sample: the engine shuffles with `sort` and a random comparator, whose result depends on the sort algorithm. The model draws the slice without replacement, by rolls. It keeps what the engine guarantees (a slice of `min(4, n)` distinct candidates), not the engine's distribution.
- The engine's `deadIds` check inside the infection loop: the set is always empty at that point, so the check never skips anyone.
- Constants of mechanics the engine does not have (cooldowns, ammunition, nets, healing, buildings) and the tick rate: unused by the modelled logic.
- AppState.Reset: the remount of the engine that a new game id triggers is not modelled. A fresh population is `Population.InitPopulation`.
- Simulation.Tick: the pause flag is a parameter. In the engine it is a ref synchronised from the shell's state by an effect, and that synchronisation is not modelled.
