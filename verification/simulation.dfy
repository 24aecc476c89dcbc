/** One tick of the engine's main loop (components/GameMap.tsx:267-482):
    unless paused, movement, infection, combat and removal; then, always,
    the bookkeeping that publishes counts, the selected entity and the
    outcome. */
module Simulation {
  import opened Types
  import opened Constants
  import opened VectorMath
  import opened Census
  import opened Steering
  import opened Infection
  import opened Combat

  /** The rolls of one tick, each indexed by the entity's position in the
      tick-start list: wander turn, fire gate and target pick. */
  datatype Dice = Dice(wander: nat -> Roll, fire: nat -> Roll, pick: nat -> Roll)

  /** The engine's state: the entity list and the published snapshot. */
  datatype World = World(entities: seq<Entity>, state: GameState)

  /** `currentEntities.find(e => e.id === selectedId) || null`: the first
      entity with the id. */
  function Find(es: seq<Entity>, id: EntityId): (r: Option<Entity>)
    ensures r.None? <==> forall i :: 0 <= i < |es| ==> es[i].id != id
    ensures r.Some? ==> r.value.id == id
    ensures r.Some? ==> exists i :: 0 <= i < |es| && es[i] == r.value && (forall j :: 0 <= j < i ==> es[j].id != id)
  {
    if es == [] then None
    else if es[0].id == id then Some(es[0])
    else
      var r := Find(es[1..], id);
      assert forall i :: 0 <= i < |es| - 1 ==> es[1..][i] == es[i + 1];
      r
  }

  /** The outcome rule: victory when no zombie is left and someone healthy
      is; otherwise defeat when neither healthy civilians nor soldiers are
      left; otherwise the previous result stands. */
  function Verdict(infected: int, healthy: int, soldiers: int, previous: Option<Outcome>): Option<Outcome> {
    if infected == 0 && healthy > 0 then Some(Victory)
    else if healthy == 0 && soldiers == 0 then Some(Defeat)
    else previous
  }

  /** The state sync that runs every tick, paused or not. */
  function Bookkeep(es: seq<Entity>, st: GameState, selected: Option<EntityId>): (r: GameState)
    ensures r.infectedCount == CountKind(es, Zombie)
    ensures r.soldierCount == CountKind(es, Soldier)
    ensures r.healthyCount == CountKind(es, Civilian)
    ensures r.healthyCount + r.infectedCount + r.soldierCount == |es|
    ensures r.gameResult == Verdict(r.infectedCount, r.healthyCount, r.soldierCount, st.gameResult)
    ensures selected.None? ==> r.selectedEntity.None?
    ensures selected.Some? ==> r.selectedEntity == Find(es, selected.value)
    ensures r == st.(healthyCount := r.healthyCount, infectedCount := r.infectedCount,
      soldierCount := r.soldierCount, gameResult := r.gameResult, selectedEntity := r.selectedEntity)
  {
    KindsPartition(es);
    var infected := CountKind(es, Zombie);
    var soldiers := CountKind(es, Soldier);
    var healthy := |es| - infected - soldiers;
    st.(healthyCount := healthy, infectedCount := infected, soldierCount := soldiers,
      selectedEntity := if selected.Some? then Find(es, selected.value) else None,
      gameResult := Verdict(infected, healthy, soldiers, st.gameResult))
  }

  /** Movement, infection, combat and removal. The `zombies` and `humans`
      snapshots of the source are taken before anything moves, so their
      membership is fixed by the tick-start kinds; they share their records
      with the list, so they are read here as the moved list, and a human
      that turns is seen as a zombie only from the next tick on. Removal
      only drops entities: every survivor is a tick-start entity. */
  function Simulate(m: Maths, center: Coord, es: seq<Entity>, dice: Dice): (r: seq<Entity>)
    ensures |r| <= |es|
    ensures forall j :: 0 <= j < |r| ==> HasId(es, r[j].id)
  {
    var moved := Move(m, es, center, dice.wander);
    var bitten := Infect(moved);
    var battle := Fight(moved, bitten, dice.fire, dice.pick);
    PhaseFrames(m, center, es, dice);
    SurvivorsFromStart(es, moved, bitten, battle);
    Survivors(battle.es, battle.dead)
  }

  lemma SurvivorsFromStart(es: seq<Entity>, moved: seq<Entity>, bitten: seq<Entity>, b: Battle)
    requires Phases(es, moved, bitten, b)
    ensures forall j :: 0 <= j < |Survivors(b.es, b.dead)| ==> HasId(es, Survivors(b.es, b.dead)[j].id)
  {
    var r := Survivors(b.es, b.dead);
    forall j | 0 <= j < |r|
      ensures HasId(es, r[j].id)
    {
      assert r[j] in r;
      var i :| 0 <= i < |b.es| && b.es[i] == r[j];
      assert es[i].id == r[j].id;
    }
  }

  /** One tick. `paused` is the pause flag the loop reads; the published
      state's own flag is not consulted. While paused the entities are not
      touched and no income is paid; paused or not, the counts, the
      selection and the outcome are recomputed from the resulting list,
      and a result once set is never cleared. */
  function Tick(m: Maths, center: Coord, w: World, paused: bool, selected: Option<EntityId>, dice: Dice): (r: World)
    ensures paused ==> r.entities == w.entities
    ensures |r.entities| <= |w.entities|
    ensures forall j :: 0 <= j < |r.entities| ==> HasId(w.entities, r.entities[j].id)
    ensures r.state.resources == w.state.resources + (if paused then 0 else PASSIVE_INCOME)
    ensures r.state.isPaused == w.state.isPaused && r.state.isPlaying == w.state.isPlaying
    ensures r.state.infectedCount == CountKind(r.entities, Zombie)
    ensures r.state.healthyCount == CountKind(r.entities, Civilian)
    ensures r.state.soldierCount == CountKind(r.entities, Soldier)
    ensures r.state.gameResult == Verdict(r.state.infectedCount, r.state.healthyCount, r.state.soldierCount, w.state.gameResult)
    ensures w.state.gameResult.Some? ==> r.state.gameResult.Some?
    ensures selected.None? ==> r.state.selectedEntity.None?
    ensures selected.Some? ==> r.state.selectedEntity == Find(r.entities, selected.value)
  {
    if paused then
      assert forall j :: 0 <= j < |w.entities| ==> HasId(w.entities, w.entities[j].id);
      World(w.entities, Bookkeep(w.entities, w.state, selected))
    else
      var es := Simulate(m, center, w.entities, dice);
      World(es, Bookkeep(es, w.state.(resources := w.state.resources + PASSIVE_INCOME), selected))
  }

  /** Some entity of the list has the id. */
  predicate HasId(es: seq<Entity>, id: EntityId) {
    exists i :: 0 <= i < |es| && es[i].id == id
  }

  /** Every entity has positive health. */
  predicate AllAlive(es: seq<Entity>) {
    forall i :: 0 <= i < |es| ==> 0 < es[i].health
  }

  /** What the phases of a tick establish about the tick-start list `es`,
      the moved list, the bitten list and the battle. */
  ghost predicate Phases(es: seq<Entity>, moved: seq<Entity>, bitten: seq<Entity>, b: Battle) {
    && |moved| == |es| && |bitten| == |es|
    && CombatInv(moved, bitten, b)
    && (forall i :: 0 <= i < |es| ==> moved[i].kind == es[i].kind && moved[i].health == es[i].health)
    && (forall i :: 0 <= i < |es| ==> b.es[i].id == es[i].id && b.es[i].velocity == moved[i].velocity)
    && (forall i :: 0 <= i < |es| ==>
         bitten[i] == (if moved[i].kind == Zombie then moved[i] else Bites(moved[i], Contacts(moved, moved[i].position))))
  }

  lemma PhaseFrames(m: Maths, center: Coord, es: seq<Entity>, dice: Dice)
    ensures var moved := Move(m, es, center, dice.wander);
      var bitten := Infect(moved);
      Phases(es, moved, bitten, Fight(moved, bitten, dice.fire, dice.pick))
  {}

  /** From a state without a result, bookkeeping declares victory exactly
      when no zombie and at least one civilian is left, and defeat exactly
      when that fails and neither civilians nor soldiers are left. */
  lemma OutcomeRule(es: seq<Entity>, st: GameState, selected: Option<EntityId>)
    requires st.gameResult.None?
    ensures var r := Bookkeep(es, st, selected).gameResult;
      var victory := CountKind(es, Zombie) == 0 && 0 < CountKind(es, Civilian);
      && (r == Some(Victory) <==> victory)
      && (r == Some(Defeat) <==> !victory && CountKind(es, Civilian) == 0 && CountKind(es, Soldier) == 0)
  {}

  /** A tick leaves every entity with positive health: bites never leave a
      human at zero, and a zombie at zero or below after combat is dead
      and removed. */
  lemma TickKeepsAlive(m: Maths, center: Coord, es: seq<Entity>, dice: Dice)
    requires AllAlive(es)
    ensures AllAlive(Simulate(m, center, es, dice))
  {
    var moved := Move(m, es, center, dice.wander);
    var bitten := Infect(moved);
    PhaseFrames(m, center, es, dice);
    SurvivorsAlive(es, moved, bitten, Fight(moved, bitten, dice.fire, dice.pick));
  }

  lemma SurvivorsAlive(es: seq<Entity>, moved: seq<Entity>, bitten: seq<Entity>, b: Battle)
    requires Phases(es, moved, bitten, b)
    requires AllAlive(es)
    ensures AllAlive(Survivors(b.es, b.dead))
  {
    var r := Survivors(b.es, b.dead);
    forall j | 0 <= j < |r|
      ensures 0 < r[j].health
    {
      assert r[j] in r;
      var i :| 0 <= i < |b.es| && b.es[i] == r[j];
      assert 0 < bitten[i].health;
    }
  }

  /** After a tick every entity moves within its kind's speed cap; a human
      that turned keeps its velocity, which is within the zombie's larger
      cap. */
  lemma TickSpeedBound(m: Maths, center: Coord, es: seq<Entity>, dice: Dice)
    requires IsSqrt(m.sqrt)
    ensures forall e :: e in Simulate(m, center, es, dice) ==> WithinCap(e)
  {
    var moved := Move(m, es, center, dice.wander);
    var bitten := Infect(moved);
    PhaseFrames(m, center, es, dice);
    MoveSpeedBound(m, es, center, dice.wander);
    SurvivorsWithinCap(es, moved, bitten, Fight(moved, bitten, dice.fire, dice.pick));
  }

  lemma SurvivorsWithinCap(es: seq<Entity>, moved: seq<Entity>, bitten: seq<Entity>, b: Battle)
    requires Phases(es, moved, bitten, b)
    requires forall j :: 0 <= j < |moved| ==> WithinCap(moved[j])
    ensures forall e :: e in Survivors(b.es, b.dead) ==> WithinCap(e)
  {
    forall e | e in Survivors(b.es, b.dead)
      ensures WithinCap(e)
    {
      var i :| 0 <= i < |b.es| && b.es[i] == e;
      CapCarries(moved[i], e);
    }
  }

  /** The velocity's bound carries over to a record that keeps the kind or
      has turned zombie. */
  lemma CapCarries(a: Entity, b: Entity)
    requires WithinCap(a)
    requires b.velocity == a.velocity
    requires b.kind == a.kind || b.kind == Zombie
    ensures WithinCap(b)
  {
    ZombieCapLargest(a.kind);
  }

  /** No kind moves faster than a sprinting zombie. */
  lemma ZombieCapLargest(k: Kind)
    ensures SpeedCap(k) * SpeedCap(k) <= SpeedCap(Zombie) * SpeedCap(Zombie)
  {}

  /** A tick keeps ids distinct. */
  lemma TickKeepsIdsDistinct(m: Maths, center: Coord, es: seq<Entity>, dice: Dice)
    requires DistinctIds(es)
    ensures DistinctIds(Simulate(m, center, es, dice))
  {
    var moved := Move(m, es, center, dice.wander);
    var b := Fight(moved, Infect(moved), dice.fire, dice.pick);
    PhaseFrames(m, center, es, dice);
    assert DistinctIds(b.es);
    SurvivorsDistinct(b.es, b.dead);
  }

  /** No human is removed by a tick: with distinct ids, every tick-start
      civilian or soldier is still in the list afterwards (possibly turned). */
  lemma TickKeepsHumans(m: Maths, center: Coord, es: seq<Entity>, dice: Dice)
    requires DistinctIds(es)
    ensures forall i :: 0 <= i < |es| && es[i].kind != Zombie ==> HasId(Simulate(m, center, es, dice), es[i].id)
  {
    var moved := Move(m, es, center, dice.wander);
    var bitten := Infect(moved);
    PhaseFrames(m, center, es, dice);
    SurvivorsKeepHumans(es, moved, bitten, Fight(moved, bitten, dice.fire, dice.pick));
  }

  lemma SurvivorsKeepHumans(es: seq<Entity>, moved: seq<Entity>, bitten: seq<Entity>, b: Battle)
    requires Phases(es, moved, bitten, b)
    requires DistinctIds(es)
    ensures forall i :: 0 <= i < |es| && es[i].kind != Zombie ==> HasId(Survivors(b.es, b.dead), es[i].id)
  {
    var r := Survivors(b.es, b.dead);
    forall i | 0 <= i < |es| && es[i].kind != Zombie
      ensures HasId(r, es[i].id)
    {
      HumanNotDowned(es, moved, b, i);
      assert b.es[i] in r;
      var k :| 0 <= k < |r| && r[k] == b.es[i];
    }
  }

  /** With distinct ids, no downed zombie shares its id with a human. */
  lemma HumanNotDowned(es: seq<Entity>, snap: seq<Entity>, b: Battle, i: nat)
    requires |snap| == |es| && |b.es| == |es| && i < |es|
    requires DistinctIds(es)
    requires forall j :: 0 <= j < |es| ==> b.es[j].id == es[j].id
    requires snap[i].kind != Zombie
    ensures !Downed(snap, b, b.es[i].id)
  {
    forall j | 0 <= j < |snap| && snap[j].kind == Zombie
      ensures b.es[j].id != b.es[i].id
    {
      assert j != i;
    }
  }

  /** Once no zombie is left and a civilian is, the next tick still has no
      zombie and still has a civilian, so the victory holds. */
  lemma VictoryIsFinal(m: Maths, center: Coord, es: seq<Entity>, dice: Dice)
    requires CountKind(es, Zombie) == 0
    requires 0 < CountKind(es, Civilian)
    ensures CountKind(Simulate(m, center, es, dice), Zombie) == 0
    ensures 0 < CountKind(Simulate(m, center, es, dice), Civilian)
  {
    var moved := Move(m, es, center, dice.wander);
    var bitten := Infect(moved);
    PhaseFrames(m, center, es, dice);
    SurvivorsWithoutZombies(es, moved, bitten, Fight(moved, bitten, dice.fire, dice.pick));
  }

  lemma SurvivorsWithoutZombies(es: seq<Entity>, moved: seq<Entity>, bitten: seq<Entity>, b: Battle)
    requires Phases(es, moved, bitten, b)
    requires CountKind(es, Zombie) == 0
    requires 0 < CountKind(es, Civilian)
    ensures CountKind(Survivors(b.es, b.dead), Zombie) == 0
    ensures 0 < CountKind(Survivors(b.es, b.dead), Civilian)
  {
    assert forall i :: 0 <= i < |moved| ==> moved[i].kind != Zombie;
    NoZombieNoContact(moved);
    assert forall i :: 0 <= i < |es| ==> b.es[i] == moved[i];
    NobodyDowned(moved, b);
    SurvivorsKeepAll(b.es, b.dead);
    assert forall i :: 0 <= i < |b.es| ==> b.es[i].kind != Zombie;
    assert CountKind(b.es, Zombie) == 0;
    var c :| 0 <= c < |es| && es[c].kind == Civilian;
    assert b.es[c].kind == Civilian;
  }

  /** Without tick-start zombies nobody is dead. */
  lemma NobodyDowned(snap: seq<Entity>, b: Battle)
    requires |b.es| == |snap|
    requires forall i :: 0 <= i < |snap| ==> snap[i].kind != Zombie
    requires forall id :: id in b.dead ==> Downed(snap, b, id)
    ensures forall i :: 0 <= i < |b.es| ==> b.es[i].id !in b.dead
  {}

  /** With no zombie in the list, no point is reached by any. */
  lemma NoZombieNoContact(snap: seq<Entity>)
    requires forall i :: 0 <= i < |snap| ==> snap[i].kind != Zombie
    ensures forall p :: Contacts(snap, p) == 0
  {
    forall p
      ensures Contacts(snap, p) == 0
    {
      NoContact(snap, p);
    }
  }

  /** A human that turned this tick is not a shooter this tick: turning
      drops the weapon, and a zombie is not a soldier. */
  lemma ConvertedNeverShoot(snap: seq<Entity>)
    ensures var bitten := Infect(snap);
      forall i :: 0 <= i < |snap| && snap[i].kind != Zombie && bitten[i].kind == Zombie ==> i !in Shooters(snap, bitten)
  {}
}
