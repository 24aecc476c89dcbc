/** Per-entity steering of the movement phase (components/GameMap.tsx:234-364):
    separation, seek, flee and wander forces, the nearest-target scans, the
    three kind policies, and the velocity/position update.

    Movement is sequential and in place: the entity at index `k` is steered
    against the sequence in which entities `0 .. k-1` have already moved. */
module Steering {
  import opened Types
  import opened Constants
  import opened VectorMath
  import opened Chance

  /** `other` pushes `self` away: `0 < d < SEPARATION_RADIUS`, on squares.
      Both bounds are strict, so a coincident entity (the entity itself
      included) and one exactly at the radius do not count. */
  predicate Crowds(self: Coord, other: Coord) {
    0.0 < DistSq(self, other) < Square(SEPARATION_RADIUS)
  }

  /** `1/d`; zero only where the engine never divides (`d == 0`). */
  function Inverse(d: real): real {
    if d == 0.0 then 0.0 else 1.0 / d
  }

  /** The repulsion summed over the crowding entities of `others`, with
      their number. */
  function Repulsion(m: Maths, self: Coord, others: seq<Entity>): (r: (Vec, nat))
    ensures r.1 <= |others|
    ensures r.1 == 0 <==> forall j :: 0 <= j < |others| ==> !Crowds(self, others[j].position)
    ensures r.1 == 0 ==> r.0 == Zero
  {
    if others == [] then (Zero, 0)
    else
      var acc := Repulsion(m, self, others[..|others| - 1]);
      var o := others[|others| - 1].position;
      if Crowds(self, o) then
        var push := Scale(Normalize(m, Sub(AsVec(self), AsVec(o))), Inverse(m.sqrt(DistSq(self, o))));
        (Add(acc.0, push), acc.1 + 1)
      else
        acc
  }

  /** `getSeparationForce`: the normalized repulsion scaled to
      FORCE_SEPARATION, or exactly zero when no entity crowds `self`. */
  function Separation(m: Maths, self: Coord, all: seq<Entity>): (r: Vec)
    ensures (forall j :: 0 <= j < |all| ==> !Crowds(self, all[j].position)) ==> r == Zero
  {
    var acc := Repulsion(m, self, all);
    if acc.1 > 0 then Scale(Normalize(m, acc.0), FORCE_SEPARATION) else Zero
  }

  /** `getSeekForce`. */
  function Seek(m: Maths, pos: Coord, target: Coord): Vec {
    Scale(Normalize(m, Sub(AsVec(target), AsVec(pos))), FORCE_SEEK)
  }

  /** `getFleeForce`. */
  function Flee(m: Maths, pos: Coord, threat: Coord): Vec {
    Scale(Normalize(m, Sub(AsVec(pos), AsVec(threat))), FORCE_FLEE)
  }

  /** With a true square root, a crowded entity is pushed with exactly
      FORCE_SEPARATION unless the pushes cancel out. */
  lemma SeparationMagnitude(m: Maths, self: Coord, all: seq<Entity>)
    requires IsSqrt(m.sqrt)
    requires 0.0 < MagSq(Repulsion(m, self, all).0)
    ensures MagSq(Separation(m, self, all)) == FORCE_SEPARATION * FORCE_SEPARATION
  {
    var acc := Repulsion(m, self, all);
    NormalizeIsUnit(m, acc.0);
    ScaleMagSq(Normalize(m, acc.0), FORCE_SEPARATION);
    TimesOne(FORCE_SEPARATION * FORCE_SEPARATION);
  }

  /** With a true square root, seeking a distinct point pulls with exactly
      FORCE_SEEK. */
  lemma SeekMagnitude(m: Maths, pos: Coord, target: Coord)
    requires IsSqrt(m.sqrt)
    requires 0.0 < DistSq(target, pos)
    ensures MagSq(Seek(m, pos, target)) == FORCE_SEEK * FORCE_SEEK
  {
    var dir := Sub(AsVec(target), AsVec(pos));
    NormalizeIsUnit(m, dir);
    ScaleMagSq(Normalize(m, dir), FORCE_SEEK);
    TimesOne(FORCE_SEEK * FORCE_SEEK);
  }

  /** With a true square root, fleeing from a distinct point pushes with
      exactly FORCE_FLEE. */
  lemma FleeMagnitude(m: Maths, pos: Coord, threat: Coord)
    requires IsSqrt(m.sqrt)
    requires 0.0 < DistSq(pos, threat)
    ensures MagSq(Flee(m, pos, threat)) == FORCE_FLEE * FORCE_FLEE
  {
    var dir := Sub(AsVec(pos), AsVec(threat));
    NormalizeIsUnit(m, dir);
    ScaleMagSq(Normalize(m, dir), FORCE_FLEE);
    TimesOne(FORCE_FLEE * FORCE_FLEE);
  }

  /** `getWanderForce`: turns the wander angle by `(roll - 0.5) * 0.5` and
      returns the new angle with the unit heading scaled to FORCE_WANDER. */
  function Wander(m: Maths, angle: real, roll: Roll): (r: (real, Vec))
    ensures -0.25 <= r.0 - angle < 0.25
  {
    var turned := angle + (roll - 0.5) * 0.5;
    (turned, Scale(m.cosSin(turned), FORCE_WANDER))
  }

  /** Which side an entity hunts: zombies look for non-zombies, the others
      for zombies. */
  predicate Prey(e: Entity, zombies: bool) {
    if zombies then e.kind == Zombie else e.kind != Zombie
  }

  /** The nearest-target scan `if (d < minDist) { minDist = d; nearest = e }`
      over the entities of the wanted side, started at the squared limit
      `limSq`; returns the index found and the final squared minimum. */
  function Scan(es: seq<Entity>, p: Coord, zombies: bool, limSq: real): (r: (Option<nat>, real))
    ensures r.0.None? ==> r.1 == limSq
    ensures r.0.None? ==> forall j :: 0 <= j < |es| && Prey(es[j], zombies) ==> limSq <= DistSq(p, es[j].position)
    ensures r.0.Some? ==> r.0.value < |es| && Prey(es[r.0.value], zombies)
    ensures r.0.Some? ==> r.1 == DistSq(p, es[r.0.value].position) && r.1 < limSq
    ensures r.0.Some? ==> forall j :: 0 <= j < |es| && Prey(es[j], zombies) ==> r.1 <= DistSq(p, es[j].position)
    ensures r.0.Some? ==> forall j :: 0 <= j < r.0.value && Prey(es[j], zombies) ==> r.1 < DistSq(p, es[j].position)
  {
    if es == [] then (None, limSq)
    else
      var last := |es| - 1;
      var prior := Scan(es[..last], p, zombies, limSq);
      if Prey(es[last], zombies) && DistSq(p, es[last].position) < prior.1 then
        (Some(last), DistSq(p, es[last].position))
      else
        prior
  }

  /** The scan as the engine writes it, on distances through `sqrt`. */
  function ScanByDistance(m: Maths, es: seq<Entity>, p: Coord, zombies: bool, lim: real): (r: (Option<nat>, real))
    ensures r.0.Some? ==> r.0.value < |es|
  {
    if es == [] then (None, lim)
    else
      var last := |es| - 1;
      var prior := ScanByDistance(m, es[..last], p, zombies, lim);
      var d := m.sqrt(DistSq(p, es[last].position));
      if Prey(es[last], zombies) && d < prior.1 then (Some(last), d) else prior
  }

  /** With a true square root, scanning squared distances against the
      squared limit finds the same entity as the engine's scan, and keeps
      the square of its minimum. */
  lemma {:induction false} ScanOnSquares(m: Maths, es: seq<Entity>, p: Coord, zombies: bool, lim: real)
    requires IsSqrt(m.sqrt)
    requires 0.0 <= lim
    ensures ScanByDistance(m, es, p, zombies, lim).0 == Scan(es, p, zombies, Square(lim)).0
    ensures 0.0 <= ScanByDistance(m, es, p, zombies, lim).1
    ensures Square(ScanByDistance(m, es, p, zombies, lim).1) == Scan(es, p, zombies, Square(lim)).1
  {
    if es != [] {
      var last := |es| - 1;
      ScanOnSquares(m, es[..last], p, zombies, lim);
      var prior := ScanByDistance(m, es[..last], p, zombies, lim);
      var squared := Scan(es[..last], p, zombies, Square(lim));
      var x := DistSq(p, es[last].position);
      MagSqNonNegative(Sub(AsVec(p), AsVec(es[last].position)));
      RootComparison(m, x, prior.1);
    }
  }

  /** Comparing a root with a non-negative bound is comparing the radicand
      with the bound's square. */
  lemma RootComparison(m: Maths, x: real, bound: real)
    requires IsSqrt(m.sqrt)
    requires 0.0 <= x && 0.0 <= bound
    ensures 0.0 <= m.sqrt(x) && Square(m.sqrt(x)) == x
    ensures m.sqrt(x) < bound <==> x < Square(bound)
  {
    SquaresOrdered(m.sqrt(x), bound);
  }

  /** The steering decision of one entity besides separation: the force
      to add and the speed cap. */
  datatype Plan = Plan(force: Vec, maxSpeed: real)

  /** `weaponType || PISTOL`. */
  function WeaponOf(e: Entity): Weapon {
    if e.weapon.Some? then e.weapon.value else Pistol
  }

  /** Some entity of the wanted side lies strictly within the squared
      limit `limSq` of `p`. */
  predicate InSight(es: seq<Entity>, p: Coord, zombies: bool, limSq: real) {
    exists j :: 0 <= j < |es| && Prey(es[j], zombies) && DistSq(p, es[j].position) < limSq
  }

  /** The entity at `j` is of the wanted side, strictly within `limSq` of
      `p`, no other entity of that side is nearer, and every earlier one is
      farther: the first of the nearest, as the scan's strict test picks. */
  predicate NearestInSight(es: seq<Entity>, p: Coord, zombies: bool, limSq: real, j: int) {
    && 0 <= j < |es| && Prey(es[j], zombies) && DistSq(p, es[j].position) < limSq
    && (forall k :: 0 <= k < |es| && Prey(es[k], zombies) ==> DistSq(p, es[j].position) <= DistSq(p, es[k].position))
    && (forall k :: 0 <= k < j && Prey(es[k], zombies) ==> DistSq(p, es[j].position) < DistSq(p, es[k].position))
  }

  /** The zombie policy: with a non-zombie in vision, seek the nearest one
      at the sprint cap; otherwise wander at the slow cap. */
  function ZombiePlan(m: Maths, es: seq<Entity>, e: Entity, wander: Vec): (r: Plan)
    ensures InSight(es, e.position, false, Square(VISION_RANGE_ZOMBIE)) <==> r.maxSpeed == MAX_SPEED_ZOMBIE * MULT_SPRINT
    ensures InSight(es, e.position, false, Square(VISION_RANGE_ZOMBIE)) ==>
      exists j :: NearestInSight(es, e.position, false, Square(VISION_RANGE_ZOMBIE), j) && r.force == Seek(m, e.position, es[j].position)
    ensures !InSight(es, e.position, false, Square(VISION_RANGE_ZOMBIE)) ==> r == Plan(wander, MAX_SPEED_ZOMBIE * MULT_WANDER)
  {
    var s := Scan(es, e.position, false, Square(VISION_RANGE_ZOMBIE));
    match s.0
    case Some(j) =>
      assert NearestInSight(es, e.position, false, Square(VISION_RANGE_ZOMBIE), j);
      Plan(Seek(m, e.position, es[j].position), MAX_SPEED_ZOMBIE * MULT_SPRINT)
    case None => Plan(wander, MAX_SPEED_ZOMBIE * MULT_WANDER)
  }

  /** The soldier policy, always at MAX_SPEED_SOLDIER: with a zombie within
      twice the human vision range, close in on the nearest beyond 0.8 of
      the weapon range, back off inside 0.4 of that, and otherwise drift at
      half the wander force; with none, wander. */
  function SoldierPlan(m: Maths, es: seq<Entity>, e: Entity, wander: Vec): (r: Plan)
    ensures r.maxSpeed == MAX_SPEED_SOLDIER
    ensures !InSight(es, e.position, true, Square(VISION_RANGE_HUMAN * 2.0)) ==> r.force == wander
    ensures InSight(es, e.position, true, Square(VISION_RANGE_HUMAN * 2.0)) ==>
      exists j :: NearestInSight(es, e.position, true, Square(VISION_RANGE_HUMAN * 2.0), j) &&
        KeepsRange(m, e.position, es[j].position, Range(WeaponOf(e)) * 0.8, wander, r.force)
  {
    var lim := VISION_RANGE_HUMAN * 2.0;
    var s := Scan(es, e.position, true, Square(lim));
    match s.0
    case Some(j) =>
      assert NearestInSight(es, e.position, true, Square(lim), j);
      var r := Plan(Engage(m, e.position, es[j].position, Range(WeaponOf(e)) * 0.8, wander), MAX_SPEED_SOLDIER);
      assert KeepsRange(m, e.position, es[j].position, Range(WeaponOf(e)) * 0.8, wander, r.force);
      r
    case None => Plan(wander, MAX_SPEED_SOLDIER)
  }

  /** The soldier's choice in each distance band around its optimal range:
      close in beyond it, back off inside 40% of it, hold and drift at half
      the wander force in between. */
  predicate KeepsRange(m: Maths, from: Coord, target: Coord, optimal: real, wander: Vec, force: Vec) {
    var d := DistSq(from, target);
    && (d > Square(optimal) ==> force == Seek(m, from, target))
    && (d < Square(optimal * 0.4) ==> force == Flee(m, from, target))
    && (Square(optimal * 0.4) <= d <= Square(optimal) ==> force == Scale(wander, 0.5))
  }

  function Engage(m: Maths, from: Coord, target: Coord, optimal: real, wander: Vec): Vec {
    var d := DistSq(from, target);
    if d > Square(optimal) then Seek(m, from, target)
    else if d < Square(optimal * 0.4) then Flee(m, from, target)
    else Scale(wander, 0.5)
  }

  /** The civilian policy as written. With a zombie in vision, the panic
      test compares the distance to the nearest zombie with a threshold
      made from that same distance (halved when armed), so it never passes:
      a civilian never sprints, an unarmed one stands still against the
      zombie and an armed one backs off at a fifth of the flee force.
      Without one, wander and drift home when beyond 1.2 spawn radii. */
  function CivilianPlan(m: Maths, es: seq<Entity>, e: Entity, center: Coord, wander: Vec): (r: Plan)
    ensures r.maxSpeed == MAX_SPEED_CIVILIAN
    ensures InSight(es, e.position, true, Square(VISION_RANGE_HUMAN)) ==>
      exists j :: NearestInSight(es, e.position, true, Square(VISION_RANGE_HUMAN), j)
        && r.force == (if e.isArmed then Scale(Flee(m, e.position, es[j].position), 0.2) else Zero)
    ensures !InSight(es, e.position, true, Square(VISION_RANGE_HUMAN)) ==>
      r.force == Add(wander, if DistSq(e.position, center) > Square(SPAWN_RADIUS * 1.2) then Scale(Seek(m, e.position, center), 0.5) else Zero)
  {
    var s := Scan(es, e.position, true, Square(VISION_RANGE_HUMAN));
    match s.0
    case Some(j) =>
      assert NearestInSight(es, e.position, true, Square(VISION_RANGE_HUMAN), j);
      var threat := es[j].position;
      MagSqNonNegative(Sub(AsVec(e.position), AsVec(threat)));
      var panicSq := if e.isArmed then s.1 * (0.5 * 0.5) else s.1;
      if DistSq(e.position, threat) < panicSq then
        Plan(Flee(m, e.position, threat), MAX_SPEED_CIVILIAN * MULT_SPRINT)
      else if e.isArmed then
        Plan(Scale(Flee(m, e.position, threat), 0.2), MAX_SPEED_CIVILIAN)
      else
        Plan(Zero, MAX_SPEED_CIVILIAN)
    case None =>
      var home := SPAWN_RADIUS * 1.2;
      var pull := if DistSq(e.position, center) > Square(home) then Scale(Seek(m, e.position, center), 0.5) else Zero;
      Plan(Add(wander, pull), MAX_SPEED_CIVILIAN)
  }

  /** The plan of an entity's kind. Its speed cap is that kind's largest,
      except for a wandering zombie, which moves slower. */
  function PlanFor(m: Maths, es: seq<Entity>, e: Entity, center: Coord, wander: Vec): (r: Plan)
    ensures 0.0 <= r.maxSpeed <= SpeedCap(e.kind)
    ensures e.kind != Zombie ==> r.maxSpeed == SpeedCap(e.kind)
  {
    match e.kind
    case Zombie => ZombiePlan(m, es, e, wander)
    case Soldier => SoldierPlan(m, es, e, wander)
    case Civilian => CivilianPlan(m, es, e, center, wander)
  }

  /** The speed cap each kind moves under. */
  function SpeedCap(k: Kind): real {
    match k
    case Zombie => MAX_SPEED_ZOMBIE * MULT_SPRINT
    case Soldier => MAX_SPEED_SOLDIER
    case Civilian => MAX_SPEED_CIVILIAN
  }

  /** The entity moves within its kind's speed cap. */
  predicate WithinCap(e: Entity) {
    MagSq(e.velocity) <= SpeedCap(e.kind) * SpeedCap(e.kind)
  }

  /** The acceleration of one entity: separation plus its plan's force. */
  function Acceleration(m: Maths, es: seq<Entity>, e: Entity, plan: Plan): Vec {
    Add(Separation(m, e.position, es), plan.force)
  }

  /** One entity's move: wander angle turned, forces summed, velocity
      capped, position advanced. */
  function Step(m: Maths, es: seq<Entity>, k: nat, center: Coord, roll: Roll): (r: Entity)
    requires k < |es|
    ensures r == es[k].(position := r.position, velocity := r.velocity, wanderAngle := r.wanderAngle)
    ensures r.position == Offset(es[k].position, r.velocity)
  {
    var e := es[k];
    var w := Wander(m, e.wanderAngle, roll);
    var plan := PlanFor(m, es, e, center, w.1);
    var v := Limit(m, Add(e.velocity, Acceleration(m, es, e, plan)), plan.maxSpeed);
    e.(velocity := v, position := Offset(e.position, v), wanderAngle := w.0)
  }

  /** A velocity `out` capped at `max` is within `max` and any larger cap. */
  lemma LimitWithin(m: Maths, v: Vec, max: real, cap: real, out: Vec)
    requires IsSqrt(m.sqrt)
    requires 0.0 <= max <= cap
    requires out == Limit(m, v, max)
    ensures MagSq(out) <= Square(max)
    ensures MagSq(out) <= cap * cap
  {
    LimitCaps(m, v, max);
    SquaresOrdered(max, cap);
  }

  /** With a true square root, a moved entity's speed is within the cap
      its plan chose this tick, and so within its kind's cap. */
  lemma StepSpeedBound(m: Maths, es: seq<Entity>, k: nat, center: Coord, roll: Roll)
    requires IsSqrt(m.sqrt)
    requires k < |es|
    ensures var plan := PlanFor(m, es, es[k], center, Wander(m, es[k].wanderAngle, roll).1);
      MagSq(Step(m, es, k, center, roll).velocity) <= Square(plan.maxSpeed)
    ensures WithinCap(Step(m, es, k, center, roll))
  {
    var e := es[k];
    var plan := PlanFor(m, es, e, center, Wander(m, e.wanderAngle, roll).1);
    var v := Add(e.velocity, Acceleration(m, es, e, plan));
    StepLimited(m, es, k, center, roll);
    CappedMove(m, e, Step(m, es, k, center, roll), v, plan.maxSpeed);
  }

  /** An entity whose velocity was limited to a cap within its kind's cap
      moves within both. */
  lemma CappedMove(m: Maths, e: Entity, r: Entity, v: Vec, max: real)
    requires IsSqrt(m.sqrt)
    requires 0.0 <= max <= SpeedCap(e.kind)
    requires r.kind == e.kind && r.velocity == Limit(m, v, max)
    ensures MagSq(r.velocity) <= Square(max)
    ensures WithinCap(r)
  {
    LimitWithin(m, v, max, SpeedCap(e.kind), r.velocity);
  }

  /** The moved velocity is the old one plus the acceleration, limited to
      the plan's cap. */
  lemma StepLimited(m: Maths, es: seq<Entity>, k: nat, center: Coord, roll: Roll)
    requires k < |es|
    ensures var e := es[k];
      var plan := PlanFor(m, es, e, center, Wander(m, e.wanderAngle, roll).1);
      Step(m, es, k, center, roll).velocity == Limit(m, Add(e.velocity, Acceleration(m, es, e, plan)), plan.maxSpeed)
  {}

  /** The movement phase from index `k` on. */
  function MoveFrom(m: Maths, es: seq<Entity>, k: nat, center: Coord, rolls: nat -> Roll): (r: seq<Entity>)
    requires k <= |es|
    ensures |r| == |es|
    ensures forall j :: 0 <= j < |es| ==> r[j] == es[j].(position := r[j].position, velocity := r[j].velocity, wanderAngle := r[j].wanderAngle)
    ensures forall j :: 0 <= j < k ==> r[j] == es[j]
    decreases |es| - k
  {
    if k == |es| then es
    else MoveFrom(m, es[k := Step(m, es, k, center, rolls(k))], k + 1, center, rolls)
  }

  /** The movement phase; `rolls(k)` is the wander roll of entity `k`. */
  function Move(m: Maths, es: seq<Entity>, center: Coord, rolls: nat -> Roll): (r: seq<Entity>)
    ensures |r| == |es|
    ensures forall j :: 0 <= j < |es| ==> r[j] == es[j].(position := r[j].position, velocity := r[j].velocity, wanderAngle := r[j].wanderAngle)
  {
    MoveFrom(m, es, 0, center, rolls)
  }

  /** Every moved entity's speed is within its kind's cap. */
  lemma {:induction false} MoveFromSpeedBound(m: Maths, es: seq<Entity>, k: nat, center: Coord, rolls: nat -> Roll)
    requires IsSqrt(m.sqrt)
    requires k <= |es|
    requires forall j :: 0 <= j < k ==> WithinCap(es[j])
    ensures AllCapped(MoveFrom(m, es, k, center, rolls))
    decreases |es| - k
  {
    if k < |es| {
      var e :| WithinCap(e) && MoveFrom(m, es, k, center, rolls) == MoveFrom(m, es[k := e], k + 1, center, rolls) by {
        MoveFromNext(m, es, k, center, rolls);
      }
      CapsThrough(es, k, e);
      MoveFromSpeedBound(m, es[k := e], k + 1, center, rolls);
    } else {
      assert MoveFrom(m, es, k, center, rolls) == es;
    }
  }

  /** Every entity of `s` moves within its kind's cap. */
  predicate AllCapped(s: seq<Entity>) {
    forall j :: 0 <= j < |s| ==> WithinCap(s[j])
  }

  /** One step of the pass puts an entity within its kind's cap at `k`. */
  lemma MoveFromNext(m: Maths, es: seq<Entity>, k: nat, center: Coord, rolls: nat -> Roll)
    requires IsSqrt(m.sqrt)
    requires k < |es|
    ensures exists e :: WithinCap(e) && MoveFrom(m, es, k, center, rolls) == MoveFrom(m, es[k := e], k + 1, center, rolls)
  {
    var e := Step(m, es, k, center, rolls(k));
    StepSpeedBound(m, es, k, center, rolls(k));
    assert MoveFrom(m, es, k, center, rolls) == MoveFrom(m, es[k := e], k + 1, center, rolls);
  }

  lemma CapsThrough(es: seq<Entity>, k: nat, e: Entity)
    requires k < |es|
    requires forall j :: 0 <= j < k ==> WithinCap(es[j])
    requires WithinCap(e)
    ensures var next := es[k := e];
      forall j :: 0 <= j < k + 1 ==> WithinCap(next[j])
  {}

  /** After the movement phase every entity moves within its kind's cap. */
  lemma MoveSpeedBound(m: Maths, es: seq<Entity>, center: Coord, rolls: nat -> Roll)
    requires IsSqrt(m.sqrt)
    ensures forall j :: 0 <= j < |es| ==> WithinCap(Move(m, es, center, rolls)[j])
  {
    MoveFromSpeedBound(m, es, 0, center, rolls);
  }
}
