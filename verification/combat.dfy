/** The combat and removal phases of a tick (components/GameMap.tsx:383-460).

    Shooters are the tick-start humans that, after the infection phase,
    are armed or soldiers. Each in turn may fire at the tick-start zombies
    not yet dead and strictly within its weapon's range. A hit lowers a
    zombie's health, and a zombie at zero or below joins the dead-id set;
    dead zombies are removed at the end by id. */
module Combat {
  import opened Types
  import opened Constants
  import opened VectorMath
  import opened Chance
  import opened Steering
  import opened Census

  /** The indices below `n` that satisfy `p`, ascending: the index view of
      the engine's `filter`. */
  function Select(n: nat, p: nat -> bool): (r: seq<nat>)
    ensures forall k :: 0 <= k < |r| ==> r[k] < n && p(r[k])
    ensures forall i :: 0 <= i < n && p(i) ==> i in r
    ensures forall k, l :: 0 <= k < l < |r| ==> r[k] < r[l]
    ensures |r| <= n
  {
    if n == 0 then []
    else
      var prior := Select(n - 1, p);
      if p(n - 1) then prior + [n - 1] else prior
  }

  /** The state combat threads through: the entities and the dead ids. */
  datatype Battle = Battle(es: seq<Entity>, dead: set<EntityId>)

  predicate Shooter(e: Entity) {
    e.isArmed || e.kind == Soldier
  }

  /** `humans.filter(h => h.isArmed || h.type === SOLDIER)`, evaluated
      after the infection phase: indices of tick-start humans. */
  function Shooters(snap: seq<Entity>, es: seq<Entity>): (r: seq<nat>)
    requires |es| == |snap|
    ensures forall k :: 0 <= k < |r| ==> r[k] < |snap| && snap[r[k]].kind != Zombie && Shooter(es[r[k]])
    ensures forall i :: 0 <= i < |snap| && snap[i].kind != Zombie && Shooter(es[i]) ==> i in r
    ensures forall k, l :: 0 <= k < l < |r| ==> r[k] < r[l]
  {
    Select(|snap|, (i: nat) => i < |snap| && snap[i].kind != Zombie && Shooter(es[i]))
  }

  /** The zombie at `j` is a target of a shooter at `from` with weapon
      range `range`: a tick-start zombie, not dead, strictly within range. */
  predicate Targetable(snap: seq<Entity>, b: Battle, from: Coord, range: real, j: nat)
    requires |b.es| == |snap|
  {
    j < |snap| && snap[j].kind == Zombie && b.es[j].id !in b.dead
    && DistSq(from, b.es[j].position) < Square(range)
  }

  /** The target list, in list order. */
  function Targets(snap: seq<Entity>, b: Battle, from: Coord, range: real): (r: seq<nat>)
    requires |b.es| == |snap|
    ensures forall k :: 0 <= k < |r| ==> Targetable(snap, b, from, range, r[k])
    ensures forall j :: 0 <= j < |snap| && Targetable(snap, b, from, range, j) ==> j in r
    ensures forall k, l :: 0 <= k < l < |r| ==> r[k] < r[l]
  {
    Select(|snap|, (j: nat) => j < |snap| && Targetable(snap, b, from, range, j))
  }

  /** The point `p` lies within the rocket's splash around `centre`
      (non-strict, as written). */
  predicate InSplash(p: Coord, centre: Coord) {
    DistSq(p, centre) <= Square(ROCKET_SPLASH_RADIUS)
  }

  lemma SplashCoversCentre(p: Coord)
    ensures InSplash(p, p)
  {
    SelfDistance(p);
    SquareIsNonNegative(ROCKET_SPLASH_RADIUS);
  }

  /** The zombies a rocket aimed at `main` hits: every tick-start zombie,
      dead or not, within the splash radius of the main target. */
  function Splash(snap: seq<Entity>, b: Battle, main: nat): (r: seq<nat>)
    requires |b.es| == |snap| && main < |snap|
    ensures forall k :: 0 <= k < |r| ==> r[k] < |snap| && snap[r[k]].kind == Zombie && InSplash(b.es[r[k]].position, b.es[main].position)
    ensures forall j :: 0 <= j < |snap| && snap[j].kind == Zombie && InSplash(b.es[j].position, b.es[main].position) ==> j in r
  {
    Select(|snap|, (j: nat) => j < |snap| && snap[j].kind == Zombie && InSplash(b.es[j].position, b.es[main].position))
  }

  /** The entities at the indices of `hits` lose `damage` health, and those
      left at zero or below join the dead. */
  function Strike(b: Battle, hits: seq<nat>, damage: int): (r: Battle)
    ensures |r.es| == |b.es|
    ensures forall i :: 0 <= i < |b.es| ==>
      r.es[i] == (if i in hits then b.es[i].(health := b.es[i].health - damage) else b.es[i])
    ensures r.dead == b.dead + (set i | i in hits && 0 <= i < |b.es| && r.es[i].health <= 0 :: b.es[i].id)
  {
    var es := seq(|b.es|, i requires 0 <= i < |b.es| =>
      if i in hits then b.es[i].(health := b.es[i].health - damage) else b.es[i]);
    Battle(es, b.dead + (set i | i in hits && 0 <= i < |b.es| && es[i].health <= 0 :: b.es[i].id))
  }

  /** A strike with non-negative damage changes only health, never raises
      it, leaves the entities off the hit list alone and drops no dead id. */
  lemma StrikeLowers(b: Battle, hits: seq<nat>, damage: int)
    requires 0 <= damage
    ensures var r := Strike(b, hits, damage);
      && b.dead <= r.dead
      && (forall i :: 0 <= i < |b.es| ==> r.es[i] == b.es[i].(health := r.es[i].health) && r.es[i].health <= b.es[i].health)
      && (forall i :: 0 <= i < |b.es| && i !in hits ==> r.es[i] == b.es[i])
  {}

  /** The fire-probability gate: 0.2 per tick for soldiers, 0.1 for armed
      civilians. */
  function FireChance(e: Entity): real {
    if e.kind == Soldier then 0.2 else 0.1
  }

  /** The indices one shot hits, given the target list and the target
      the pick roll chose. */
  function Hits(snap: seq<Entity>, b: Battle, w: Weapon, targets: seq<nat>, picked: nat): (r: seq<nat>)
    requires |b.es| == |snap| && picked < |snap|
  {
    match w
    case Rocket => Splash(snap, b, picked)
    case Shotgun => if |targets| <= 3 then targets else targets[..3]
    case _ => [picked]
  }

  /** The shooter at `s` fires this tick: some target is in its weapon's
      range and the fire roll falls below its fire chance. */
  ghost predicate Fires(snap: seq<Entity>, b: Battle, s: nat, fire: Roll)
    requires |b.es| == |snap| && s < |snap|
  {
    && fire < FireChance(b.es[s])
    && exists j :: Targetable(snap, b, b.es[s].position, Range(WeaponOf(b.es[s])), j)
  }

  /** One shooter's turn. It holds fire unless it `Fires`; a shot only
      lowers the health of tick-start zombies, and the dead set only grows. */
  function Shoot(snap: seq<Entity>, b: Battle, s: nat, fire: Roll, pick: Roll): (r: Battle)
    requires |b.es| == |snap| && s < |snap|
    ensures |r.es| == |b.es| && b.dead <= r.dead
    ensures !Fires(snap, b, s, fire) ==> r == b
    ensures forall i :: 0 <= i < |snap| ==> r.es[i] == b.es[i].(health := r.es[i].health) && r.es[i].health <= b.es[i].health
    ensures forall i :: 0 <= i < |snap| && snap[i].kind != Zombie ==> r.es[i] == b.es[i]
  {
    var w := WeaponOf(b.es[s]);
    var targets := Targets(snap, b, b.es[s].position, Range(w));
    if |targets| > 0 && fire < FireChance(b.es[s]) then
      assert Targetable(snap, b, b.es[s].position, Range(w), targets[0]);
      Volley(snap, b, w, b.es[s].position, targets[PickIndex(pick, |targets|)])
    else b
  }

  /** The shot of a weapon `w` fired from `from` at the chosen target
      `picked`: only tick-start zombies lose health, each at most once,
      and the dead set only grows. */
  function Volley(snap: seq<Entity>, b: Battle, w: Weapon, from: Coord, picked: nat): (r: Battle)
    requires |b.es| == |snap|
    requires picked in Targets(snap, b, from, Range(w))
    ensures |r.es| == |b.es| && b.dead <= r.dead
    ensures forall i :: 0 <= i < |snap| ==> r.es[i] == b.es[i].(health := r.es[i].health) && r.es[i].health <= b.es[i].health
    ensures forall i :: 0 <= i < |snap| && snap[i].kind != Zombie ==> r.es[i] == b.es[i]
  {
    var hits := Hits(snap, b, w, Targets(snap, b, from, Range(w)), picked);
    HitsAreZombies(snap, b, w, from, picked);
    StrikeLowers(b, hits, Damage(w));
    Strike(b, hits, Damage(w))
  }

  /** A shot that fires is the strike of the weapon's hits on the picked
      target. */
  lemma ShotStrikes(snap: seq<Entity>, b: Battle, s: nat, fire: Roll, pick: Roll)
    requires |b.es| == |snap| && s < |snap|
    requires fire < FireChance(b.es[s])
    requires |Targets(snap, b, b.es[s].position, Range(WeaponOf(b.es[s])))| > 0
    ensures var w := WeaponOf(b.es[s]);
      var targets := Targets(snap, b, b.es[s].position, Range(w));
      var picked := targets[PickIndex(pick, |targets|)];
      picked in targets && Shoot(snap, b, s, fire, pick) == Strike(b, Hits(snap, b, w, targets, picked), Damage(w))
  {
    var w := WeaponOf(b.es[s]);
    var targets := Targets(snap, b, b.es[s].position, Range(w));
    var picked := targets[PickIndex(pick, |targets|)];
    assert picked in targets;
    assert Shoot(snap, b, s, fire, pick) == Volley(snap, b, w, b.es[s].position, picked);
  }

  /** The turns of `shooters[k..]`, in order; `fire(s)` and `pick(s)` are
      the rolls of the shooter at index `s`. */
  function CombatFrom(snap: seq<Entity>, b: Battle, shooters: seq<nat>, k: nat, fire: nat -> Roll, pick: nat -> Roll): (r: Battle)
    requires |b.es| == |snap| && k <= |shooters|
    requires forall t :: 0 <= t < |shooters| ==> shooters[t] < |snap|
    ensures |r.es| == |snap|
    decreases |shooters| - k
  {
    if k == |shooters| then b
    else
      var s := shooters[k];
      var next := Shoot(snap, b, s, fire(s), pick(s));
      CombatFrom(snap, next, shooters, k + 1, fire, pick)
  }

  /** The combat phase after infection left the entities `es`. It leaves
      humans untouched and only lowers zombies' health; its dead set holds
      exactly downed zombies, including every zombie it took to zero or
      below. */
  function Fight(snap: seq<Entity>, es: seq<Entity>, fire: nat -> Roll, pick: nat -> Roll): (r: Battle)
    requires |es| == |snap|
    ensures |r.es| == |snap|
    ensures CombatInv(snap, es, r)
  {
    CombatFromKeeps(snap, es, Battle(es, {}), Shooters(snap, es), 0, fire, pick);
    CombatFrom(snap, Battle(es, {}), Shooters(snap, es), 0, fire, pick)
  }

  /** `allEntities.filter(e => !deadIds.has(e.id))`. */
  function Survivors(es: seq<Entity>, dead: set<EntityId>): (r: seq<Entity>)
    ensures |r| <= |es|
    ensures forall e :: e in r <==> e in es && e.id !in dead
  {
    if es == [] then []
    else
      var last := es[|es| - 1];
      Survivors(es[..|es| - 1], dead) + (if last.id in dead then [] else [last])
  }

  /** Every index a shot hits is a tick-start zombie. */
  lemma HitsAreZombies(snap: seq<Entity>, b: Battle, w: Weapon, from: Coord, picked: nat)
    requires |b.es| == |snap|
    requires picked in Targets(snap, b, from, Range(w))
    ensures var hits := Hits(snap, b, w, Targets(snap, b, from, Range(w)), picked);
      forall k :: 0 <= k < |hits| ==> hits[k] < |snap| && snap[hits[k]].kind == Zombie
  {
    var targets := Targets(snap, b, from, Range(w));
    if w == Shotgun && 3 < |targets| {
      var hits := targets[..3];
      assert forall k :: 0 <= k < |hits| ==> hits[k] == targets[k];
    }
  }

  /** Pistol and sniper: a shot lowers one target in range by the weapon's
      damage, adds it to the dead when that leaves it at zero or below, and
      changes nothing else. */
  lemma SingleShot(snap: seq<Entity>, b: Battle, s: nat, fire: Roll, pick: Roll)
    requires |b.es| == |snap| && s < |snap|
    requires WeaponOf(b.es[s]) == Pistol || WeaponOf(b.es[s]) == Sniper
    ensures var w := WeaponOf(b.es[s]);
      Fires(snap, b, s, fire) ==> exists j: nat ::
        Targetable(snap, b, b.es[s].position, Range(w), j) && LoneHit(b, Shoot(snap, b, s, fire, pick), j, Damage(w))
  {
    var w := WeaponOf(b.es[s]);
    var from := b.es[s].position;
    var targets := Targets(snap, b, from, Range(w));
    if Fires(snap, b, s, fire) {
      var j :| Targetable(snap, b, from, Range(w), j);
      assert j in targets;
      var picked := targets[PickIndex(pick, |targets|)];
      assert Targetable(snap, b, from, Range(w), picked);
      StrikeOne(b, picked, Damage(w));
      ShotStrikes(snap, b, s, fire, pick);
      assert Hits(snap, b, w, targets, picked) == [picked];
    }
  }

  /** `r` is `b` after a hit on `j` alone: `j` lost `damage`, nobody else
      changed, and `j` joined the dead exactly when left at zero or below. */
  ghost predicate LoneHit(b: Battle, r: Battle, j: nat, damage: int) {
    && j < |b.es| && |r.es| == |b.es|
    && r.es[j] == b.es[j].(health := b.es[j].health - damage)
    && (forall i :: 0 <= i < |b.es| && i != j ==> r.es[i] == b.es[i])
    && r.dead == b.dead + (if r.es[j].health <= 0 then {b.es[j].id} else {})
  }

  /** A strike on a single index is a lone hit. */
  lemma StrikeOne(b: Battle, j: nat, damage: int)
    requires j < |b.es|
    ensures LoneHit(b, Strike(b, [j], damage), j, damage)
  {
    var r := Strike(b, [j], damage);
    var added := set i | i in [j] && 0 <= i < |b.es| && r.es[i].health <= 0 :: b.es[i].id;
    assert added == (if r.es[j].health <= 0 then {b.es[j].id} else {});
  }

  /** The shotgun: a shot lowers by the shotgun's damage exactly the first
      three targets in list order, or all of them when there are fewer,
      whatever the pick, and changes nothing else. */
  lemma ShotgunSpread(snap: seq<Entity>, b: Battle, s: nat, fire: Roll, pick: Roll)
    requires |b.es| == |snap| && s < |snap| && WeaponOf(b.es[s]) == Shotgun
    ensures var targets := Targets(snap, b, b.es[s].position, Range(Shotgun));
      var r := Shoot(snap, b, s, fire, pick);
      var hits := targets[..Min(3, |targets|)];
      Fires(snap, b, s, fire) ==> ExactHits(b, r, hits, Damage(Shotgun))
  {
    var from := b.es[s].position;
    var targets := Targets(snap, b, from, Range(Shotgun));
    if Fires(snap, b, s, fire) {
      var j :| Targetable(snap, b, from, Range(Shotgun), j);
      assert j in targets;
      var hits := targets[..Min(3, |targets|)];
      var picked := targets[PickIndex(pick, |targets|)];
      FirstThree(targets);
      assert Hits(snap, b, Shotgun, targets, picked) == hits;
      ShotStrikes(snap, b, s, fire, pick);
      StrikeExactly(b, hits, Damage(Shotgun));
    }
  }

  /** The shotgun's slice: the whole list when it has at most three
      elements, and its first three otherwise. */
  lemma FirstThree(targets: seq<nat>)
    ensures (if |targets| <= 3 then targets else targets[..3]) == targets[..Min(3, |targets|)]
  {
    if |targets| <= 3 {
      assert targets[..|targets|] == targets;
    }
  }

  /** The shotgun's hits come first: a target it hits precedes, in list
      order, every target in range it leaves alone. */
  lemma ShotgunHitsFirst(snap: seq<Entity>, b: Battle, from: Coord)
    requires |b.es| == |snap|
    ensures var targets := Targets(snap, b, from, Range(Shotgun));
      var hits := targets[..Min(3, |targets|)];
      forall i, j :: i in hits && Targetable(snap, b, from, Range(Shotgun), j) && j !in hits ==> i < j
  {
    var targets := Targets(snap, b, from, Range(Shotgun));
    var n := Min(3, |targets|);
    var hits := targets[..n];
    forall i, j | i in hits && Targetable(snap, b, from, Range(Shotgun), j) && j !in hits
      ensures i < j
    {
      var k :| 0 <= k < n && hits[k] == i;
      assert j in targets;
      var l :| 0 <= l < |targets| && targets[l] == j;
      assert n <= l;
      assert targets[k] == i;
    }
  }

  /** `r` is `b` with exactly the entities on the hit list changed, each
      lowered by `damage`. */
  ghost predicate ExactHits(b: Battle, r: Battle, hits: seq<nat>, damage: int) {
    && |r.es| == |b.es|
    && (forall i :: 0 <= i < |b.es| ==> (r.es[i] == b.es[i] <==> i !in hits))
    && (forall i :: 0 <= i < |b.es| && i in hits ==> r.es[i] == b.es[i].(health := b.es[i].health - damage))
  }

  /** A strike with positive damage changes exactly the entities on the hit
      list, each by the damage. */
  lemma StrikeExactly(b: Battle, hits: seq<nat>, damage: int)
    requires 0 < damage
    ensures ExactHits(b, Strike(b, hits, damage), hits, damage)
  {
    var r := Strike(b, hits, damage);
    forall i | 0 <= i < |b.es| && i in hits
      ensures r.es[i] != b.es[i]
    {
      assert r.es[i].health != b.es[i].health;
    }
  }

  /** The rocket: a shot picks a main target in range and lowers by the
      rocket's damage exactly the tick-start zombies, dead or not, within
      the splash radius of that target, the main target among them; every
      other entity is unchanged. */
  lemma RocketSplash(snap: seq<Entity>, b: Battle, s: nat, fire: Roll, pick: Roll)
    requires |b.es| == |snap| && s < |snap| && WeaponOf(b.es[s]) == Rocket
    ensures var r := Shoot(snap, b, s, fire, pick);
      Fires(snap, b, s, fire) ==> exists main: nat :: (
        && Targetable(snap, b, b.es[s].position, Range(Rocket), main)
        && SplashOutcome(snap, b, r, main))
  {
    var from := b.es[s].position;
    var targets := Targets(snap, b, from, Range(Rocket));
    if Fires(snap, b, s, fire) {
      var j :| Targetable(snap, b, from, Range(Rocket), j);
      assert j in targets;
      var main := targets[PickIndex(pick, |targets|)];
      RocketShot(snap, b, s, fire, pick);
      assert Targetable(snap, b, from, Range(Rocket), main);
      RocketStrike(snap, b, main);
    }
  }


  lemma RocketShot(snap: seq<Entity>, b: Battle, s: nat, fire: Roll, pick: Roll)
    requires |b.es| == |snap| && s < |snap| && WeaponOf(b.es[s]) == Rocket
    requires fire < FireChance(b.es[s])
    requires |Targets(snap, b, b.es[s].position, Range(Rocket))| > 0
    ensures var targets := Targets(snap, b, b.es[s].position, Range(Rocket));
      Shoot(snap, b, s, fire, pick) == Strike(b, Splash(snap, b, targets[PickIndex(pick, |targets|)]), Damage(Rocket))
  {
    ShotStrikes(snap, b, s, fire, pick);
  }

  /** `r` is `b` after a rocket hit on `main`: the main target lost health,
      and exactly the splashed entities lost the rocket's damage. */
  ghost predicate SplashOutcome(snap: seq<Entity>, b: Battle, r: Battle, main: nat)
    requires |b.es| == |snap| && |r.es| == |snap|
  {
    && main < |snap|
    && r.es[main].health < b.es[main].health
    && ExactHits(b, r, Splash(snap, b, main), Damage(Rocket))
  }

  lemma RocketStrike(snap: seq<Entity>, b: Battle, main: nat)
    requires |b.es| == |snap| && main < |snap| && snap[main].kind == Zombie
    ensures SplashOutcome(snap, b, Strike(b, Splash(snap, b, main), Damage(Rocket)), main)
  {
    var hits := Splash(snap, b, main);
    StrikeExactly(b, hits, Damage(Rocket));
    SplashCoversCentre(b.es[main].position);
    assert main in hits;
  }

  lemma SelfDistance(p: Coord)
    ensures DistSq(p, p) == 0.0
  {}

  /** The id `id` belongs to a tick-start zombie whose health is at zero or
      below. */
  ghost predicate Downed(snap: seq<Entity>, b: Battle, id: EntityId)
    requires |b.es| == |snap|
  {
    exists i :: 0 <= i < |snap| && snap[i].kind == Zombie && b.es[i].id == id && b.es[i].health <= 0
  }

  /** What combat may have done to the post-infection entities `es`: only
      zombies' health went down, every dead id is a downed zombie's, and
      every zombie a hit took to zero or below is dead. */
  ghost predicate CombatInv(snap: seq<Entity>, es: seq<Entity>, b: Battle)
  {
    && |es| == |snap| && |b.es| == |snap|
    && (forall i :: 0 <= i < |es| ==> b.es[i] == es[i].(health := b.es[i].health) && b.es[i].health <= es[i].health)
    && (forall i :: 0 <= i < |es| && snap[i].kind != Zombie ==> b.es[i] == es[i])
    && (forall id :: id in b.dead ==> Downed(snap, b, id))
    && (forall i :: 0 <= i < |es| && b.es[i].health <= 0 && b.es[i].health < es[i].health ==> b.es[i].id in b.dead)
  }

  /** A strike on tick-start zombies with non-negative damage keeps the
      invariant. */
  lemma StrikeKeeps(snap: seq<Entity>, es: seq<Entity>, b: Battle, hits: seq<nat>, damage: int)
    requires CombatInv(snap, es, b)
    requires 0 <= damage
    requires forall k :: 0 <= k < |hits| ==> hits[k] < |snap| && snap[hits[k]].kind == Zombie
    ensures CombatInv(snap, es, Strike(b, hits, damage))
  {
    StrikeLowers(b, hits, damage);
    StrikeDeadDowned(snap, b, hits, damage);
    StrikeRecordsDead(snap, es, b, hits, damage);
  }

  lemma StrikeDeadDowned(snap: seq<Entity>, b: Battle, hits: seq<nat>, damage: int)
    requires |b.es| == |snap|
    requires 0 <= damage
    requires forall id :: id in b.dead ==> Downed(snap, b, id)
    requires forall k :: 0 <= k < |hits| ==> hits[k] < |snap| && snap[hits[k]].kind == Zombie
    ensures forall id :: id in Strike(b, hits, damage).dead ==> Downed(snap, Strike(b, hits, damage), id)
  {
    var r := Strike(b, hits, damage);
    forall id | id in r.dead
      ensures Downed(snap, r, id)
    {
      if id in b.dead {
        var i :| 0 <= i < |snap| && snap[i].kind == Zombie && b.es[i].id == id && b.es[i].health <= 0;
        assert r.es[i].id == id && r.es[i].health <= 0;
      } else {
        var i :| i in hits && 0 <= i < |b.es| && r.es[i].health <= 0 && b.es[i].id == id;
        assert r.es[i].id == id;
      }
    }
  }

  lemma StrikeRecordsDead(snap: seq<Entity>, es: seq<Entity>, b: Battle, hits: seq<nat>, damage: int)
    requires CombatInv(snap, es, b)
    ensures var r := Strike(b, hits, damage);
      forall i :: 0 <= i < |es| && r.es[i].health <= 0 && r.es[i].health < es[i].health ==> r.es[i].id in r.dead
  {
    var r := Strike(b, hits, damage);
    forall i | 0 <= i < |es| && r.es[i].health <= 0 && r.es[i].health < es[i].health
      ensures r.es[i].id in r.dead
    {
      if i !in hits {
        assert r.es[i] == b.es[i];
      }
    }
  }

  /** One shooter's turn keeps the invariant. */
  lemma ShootKeeps(snap: seq<Entity>, es: seq<Entity>, b: Battle, s: nat, fire: Roll, pick: Roll)
    requires CombatInv(snap, es, b)
    requires s < |snap|
    ensures CombatInv(snap, es, Shoot(snap, b, s, fire, pick))
  {
    var w := WeaponOf(b.es[s]);
    var targets := Targets(snap, b, b.es[s].position, Range(w));
    if |targets| > 0 && fire < FireChance(b.es[s]) {
      var picked := targets[PickIndex(pick, |targets|)];
      HitsAreZombies(snap, b, w, b.es[s].position, picked);
      StrikeKeeps(snap, es, b, Hits(snap, b, w, targets, picked), Damage(w));
    }
  }

  lemma {:induction false} CombatFromKeeps(snap: seq<Entity>, es: seq<Entity>, b: Battle, shooters: seq<nat>, k: nat, fire: nat -> Roll, pick: nat -> Roll)
    requires CombatInv(snap, es, b)
    requires k <= |shooters|
    requires forall t :: 0 <= t < |shooters| ==> shooters[t] < |snap|
    ensures CombatInv(snap, es, CombatFrom(snap, b, shooters, k, fire, pick))
    decreases |shooters| - k
  {
    if k < |shooters| {
      var s := shooters[k];
      ShootKeeps(snap, es, b, s, fire(s), pick(s));
      CombatFromKeeps(snap, es, Shoot(snap, b, s, fire(s), pick(s)), shooters, k + 1, fire, pick);
    }
  }

  /** Removal keeps the list order: it distributes over concatenation. */
  lemma {:induction false} SurvivorsAppend(a: seq<Entity>, b: seq<Entity>, dead: set<EntityId>)
    ensures Survivors(a + b, dead) == Survivors(a, dead) + Survivors(b, dead)
    decreases |b|
  {
    if b == [] {
      assert a + b == a;
    } else {
      var last := |b| - 1;
      assert (a + b)[..|a + b| - 1] == a + b[..last];
      SurvivorsAppend(a, b[..last], dead);
    }
  }

  /** Removal with no dead id among the entities keeps the list as it is. */
  lemma {:induction false} SurvivorsKeepAll(es: seq<Entity>, dead: set<EntityId>)
    requires forall i :: 0 <= i < |es| ==> es[i].id !in dead
    ensures Survivors(es, dead) == es
  {
    if es != [] {
      var prefix, last := es[..|es| - 1], es[|es| - 1];
      SurvivorsKeepAll(prefix, dead);
      assert Survivors(es, dead) == prefix + [last];
      assert prefix + [last] == es;
    }
  }

  /** Removal keeps ids distinct. */
  lemma {:induction false} SurvivorsDistinct(es: seq<Entity>, dead: set<EntityId>)
    requires DistinctIds(es)
    ensures DistinctIds(Survivors(es, dead))
  {
    if es != [] {
      var prefix := es[..|es| - 1];
      var last := es[|es| - 1];
      SurvivorsDistinct(prefix, dead);
      var before := Survivors(prefix, dead);
      forall k | 0 <= k < |before|
        ensures before[k].id != last.id
      {
        assert before[k] in before;
        var i :| 0 <= i < |prefix| && prefix[i] == before[k];
        assert es[i] == prefix[i];
      }
    }
  }
}
