/** The start-up population (components/GameMap.tsx:187-228): 120
    civilians scattered over an ellipse around the centre, three picks of
    which are made patient zero. */
module Population {
  import opened Types
  import opened Constants
  import opened VectorMath
  import opened Chance
  import opened Census

  const CivilianTypes: seq<CivilianType> := [Man, Woman, Child, Elderly]

  /** The rolls that place one civilian: spawn angle, spawn radius,
      sub-type and initial wander heading. */
  datatype Draws = Draws(angle: Roll, radius: Roll, subType: Roll, heading: Roll)

  /** The spawn point: a radius `sqrt(roll) * SPAWN_RADIUS` along the drawn
      angle, with the east-west offset squeezed by 0.8. */
  function SpawnPoint(m: Maths, center: Coord, d: Draws): Coord {
    var r := m.sqrt(d.radius) * SPAWN_RADIUS;
    var dir := m.cosSin(d.angle * TAU);
    Coord(center.lat + r * dir.x, center.lng + r * dir.y * 0.8)
  }

  /** The civilian `civ-i`. */
  function Newcomer(m: Maths, center: Coord, i: nat, d: Draws): (e: Entity)
    ensures e.id == CivId(i) && e.kind == Civilian && e.subType.Some?
    ensures e.health == 10 && !e.isArmed && !e.isInfected && e.weapon.None? && e.velocity == Zero
    ensures e.position == SpawnPoint(m, center, d)
  {
    Entity(CivId(i), Civilian, Some(CivilianTypes[PickIndex(d.subType, |CivilianTypes|)]),
      SpawnPoint(m, center, d), Zero, d.heading * TAU, false, false, None, 10)
  }

  /** One patient-zero pick: the entity at the picked index becomes an
      infected zombie with 20 health. A pick may land on an earlier
      patient zero. */
  function PatientZero(es: seq<Entity>, roll: Roll): (r: seq<Entity>)
    requires 0 < |es|
    ensures |r| == |es|
    ensures forall i :: 0 <= i < |es| ==> r[i].id == es[i].id && r[i].isArmed == es[i].isArmed
    ensures forall i :: 0 <= i < |es| ==> r[i] == es[i] || r[i] == es[i].(kind := Zombie, isInfected := true, health := 20)
    ensures forall i, j :: 0 <= i < j < |es| && r[i] != es[i] ==> r[j] == es[j]
    ensures CountKind(es, Zombie) <= CountKind(r, Zombie) <= CountKind(es, Zombie) + 1
    ensures 0 < CountKind(r, Zombie)
  {
    var i := PickIndex(roll, |es|);
    var z := es[i].(kind := Zombie, isInfected := true, health := 20);
    CountUpdate(es, i, z, Zombie);
    var r := es[i := z];
    assert r[i].kind == Zombie;
    r
  }

  /** `initPopulation`: the civilians in index order, then three
      patient-zero picks. The result has 120 entities with the ids `civ-0`
      .. `civ-119`, none armed; between one and three are infected zombies
      with 20 health, and every other entity is an uninfected civilian with
      10 health. */
  function InitPopulation(m: Maths, center: Coord, draws: nat -> Draws, zero: seq<Roll>): (r: seq<Entity>)
    requires |zero| == 3
    ensures |r| == INITIAL_POPULATION
    ensures Seeded(r)
    ensures DistinctIds(r)
    ensures 1 <= CountKind(r, Zombie) <= 3
    ensures CountKind(r, Soldier) == 0
    ensures CountKind(r, Civilian) + CountKind(r, Zombie) == INITIAL_POPULATION
  {
    var civilians := seq(INITIAL_POPULATION, (i: nat) => Newcomer(m, center, i, draws(i)));
    CiviliansSeeded(m, center, draws);
    ThreePicks(civilians, zero);
    PatientZero(PatientZero(PatientZero(civilians, zero[0]), zero[1]), zero[2])
  }

  /** Three patient-zero picks on a seeded list without zombies leave a
      seeded list with distinct ids, one to three zombies and no soldier. */
  lemma ThreePicks(civilians: seq<Entity>, zero: seq<Roll>)
    requires |zero| == 3 && 0 < |civilians|
    requires Seeded(civilians) && CountKind(civilians, Zombie) == 0
    ensures var r := PatientZero(PatientZero(PatientZero(civilians, zero[0]), zero[1]), zero[2]);
      && |r| == |civilians| && Seeded(r) && DistinctIds(r)
      && 1 <= CountKind(r, Zombie) <= 3
      && CountKind(r, Soldier) == 0
      && CountKind(r, Civilian) + CountKind(r, Zombie) == |r|
  {
    var a := PatientZero(civilians, zero[0]);
    PatientZeroKeeps(civilians, zero[0]);
    var b := PatientZero(a, zero[1]);
    PatientZeroKeeps(a, zero[1]);
    var r := PatientZero(b, zero[2]);
    PatientZeroKeeps(b, zero[2]);
    SeededShape(r);
  }

  /** A seeded list has distinct ids and no soldier. */
  lemma SeededShape(r: seq<Entity>)
    requires Seeded(r)
    ensures DistinctIds(r)
    ensures CountKind(r, Soldier) == 0
    ensures CountKind(r, Civilian) + CountKind(r, Zombie) == |r|
  {
    assert forall i :: 0 <= i < |r| ==> r[i].kind != Soldier;
    KindsPartition(r);
  }

  /** The shape of a list under construction: `civ-i` at index `i`, none
      armed, zombies infected at 20 health, everyone else an uninfected
      civilian at 10 health. */
  predicate Seeded(es: seq<Entity>) {
    forall i :: 0 <= i < |es| ==>
      && es[i].id == CivId(i) && !es[i].isArmed
      && (if es[i].kind == Zombie then es[i].isInfected && es[i].health == 20
          else es[i].kind == Civilian && !es[i].isInfected && es[i].health == 10)
  }

  lemma CiviliansSeeded(m: Maths, center: Coord, draws: nat -> Draws)
    ensures var civilians := seq(INITIAL_POPULATION, (i: nat) => Newcomer(m, center, i, draws(i)));
      Seeded(civilians) && CountKind(civilians, Zombie) == 0
  {
    var civilians := seq(INITIAL_POPULATION, (i: nat) => Newcomer(m, center, i, draws(i)));
    forall i | 0 <= i < |civilians|
      ensures civilians[i] == Newcomer(m, center, i, draws(i))
    {}
  }

  lemma PatientZeroKeeps(es: seq<Entity>, roll: Roll)
    requires 0 < |es| && Seeded(es)
    ensures Seeded(PatientZero(es, roll))
  {}

  /** Distance from the centre stays below the spawn radius: the squeezed
      offset is no longer than the radius, and the radius, a square root
      of a roll below one, is below SPAWN_RADIUS. */
  lemma SpawnWithinRadius(m: Maths, center: Coord, d: Draws)
    requires IsSqrt(m.sqrt) && IsCosSin(m.cosSin)
    ensures DistSq(SpawnPoint(m, center, d), center) < Square(SPAWN_RADIUS)
  {
    var root := m.sqrt(d.radius);
    var r := root * SPAWN_RADIUS;
    var dir := m.cosSin(d.angle * TAU);
    assert MagSq(dir) == 1.0;
    var p := SpawnPoint(m, center, d);
    assert Sub(AsVec(p), AsVec(center)) == Vec(r * dir.x, r * dir.y * 0.8);
    SqueezedWithin(r, dir);
    RootBelowOne(root, d.radius);
    ScaledBelow(root, SPAWN_RADIUS);
  }

  /** An offset of length `r` along a unit direction, with its second
      component squeezed by 0.8, is no longer than `r`. */
  lemma SqueezedWithin(r: real, dir: Vec)
    requires MagSq(dir) == 1.0
    ensures MagSq(Vec(r * dir.x, r * dir.y * 0.8)) <= Square(r)
  {
    var a, b := dir.x * dir.x, dir.y * dir.y;
    assert (r * dir.x) * (r * dir.x) == Square(r) * a;
    assert (r * dir.y * 0.8) * (r * dir.y * 0.8) == Square(r) * b * 0.64;
    SquareIsNonNegative(r);
    SquareNonNegative(dir.y);
    ScaledNonNegative(Square(r), b);
    assert Square(r) * a + Square(r) * b == Square(r) * (a + b);
  }

  lemma RootBelowOne(root: real, x: real)
    requires 0.0 <= root && root * root == x && x < 1.0
    ensures root < 1.0
  {}

  lemma ScaledBelow(a: real, c: real)
    requires 0.0 <= a < 1.0 && 0.0 < c
    ensures Square(a * c) < Square(c)
  {
    SquareStrict(a * c, c);
  }
}
