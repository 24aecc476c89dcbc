/** The infection phase of a tick (components/GameMap.tsx:367-381): every
    zombie of the tick-start snapshot drains the health of every human of
    the snapshot strictly within INFECTION_RANGE, and a human drained to
    zero or below turns. Positions do not change in this phase. */
module Infection {
  import opened Types
  import opened Constants
  import opened VectorMath

  /** Health lost per bite: 1 for a soldier, 2 otherwise. The kind is read
      at the moment of the bite, so a human turned earlier in the same
      phase loses 2. */
  function Drain(k: Kind): int {
    if k == Soldier then 1 else 2
  }

  /** One bite, as written. On conversion the health reset reads the kind
      after it has been set to zombie, so a turned soldier gets 20, never
      50. */
  function Bite(h: Entity): (r: Entity)
    ensures r == h.(kind := r.kind, health := r.health, isInfected := r.isInfected, isArmed := r.isArmed)
    ensures 0 < r.health
    ensures h.health - Drain(h.kind) > 0 ==> r == h.(health := h.health - Drain(h.kind))
    ensures h.health - Drain(h.kind) <= 0 ==> r.kind == Zombie && r.isInfected && !r.isArmed && r.health == 20
  {
    var health := h.health - Drain(h.kind);
    if health > 0 then h.(health := health)
    else
      var turned := h.(kind := Zombie, isInfected := true);
      turned.(health := if turned.kind == Soldier then 50 else 20, isArmed := false)
  }

  /** `n` successive bites. */
  function Bites(h: Entity, n: nat): (r: Entity)
    ensures r == h.(kind := r.kind, health := r.health, isInfected := r.isInfected, isArmed := r.isArmed)
    ensures 0 < n ==> 0 < r.health
    ensures h.kind != Zombie && r.kind == Zombie ==> r.isInfected && !r.isArmed && r.health <= 20
    ensures r.kind != Zombie ==> r.kind == h.kind && r.isArmed == h.isArmed && r.isInfected == h.isInfected
    ensures r.kind != Zombie ==> r.health == (if h.kind == Soldier then h.health - n else h.health - 2 * n)
    ensures h.kind != Zombie && (if h.kind == Soldier then h.health - n else h.health - 2 * n) > 0 ==> r.kind == h.kind
  {
    if n == 0 then h else Bite(Bites(h, n - 1))
  }

  /** A zombie at `z` reaches a human at `h`: strictly within
      INFECTION_RANGE, on squares. */
  predicate Reaches(z: Coord, h: Coord) {
    DistSq(z, h) < Square(INFECTION_RANGE)
  }

  /** One zombie's pass over the humans of the snapshot. */
  function BitePass(cur: seq<Entity>, snap: seq<Entity>, z: Coord): (r: seq<Entity>)
    requires |cur| == |snap|
    ensures |r| == |cur|
    ensures forall i :: 0 <= i < |cur| ==>
      r[i] == (if snap[i].kind != Zombie && Reaches(z, cur[i].position) then Bite(cur[i]) else cur[i])
  {
    seq(|cur|, i requires 0 <= i < |cur| =>
      if snap[i].kind != Zombie && Reaches(z, cur[i].position) then Bite(cur[i]) else cur[i])
  }

  /** The passes of the snapshot zombies from index `z` on, in list order. */
  function InfectFrom(cur: seq<Entity>, snap: seq<Entity>, z: nat): (r: seq<Entity>)
    requires |cur| == |snap| && z <= |snap|
    ensures |r| == |snap|
    decreases |snap| - z
  {
    if z == |snap| then cur
    else
      var next := if snap[z].kind == Zombie then BitePass(cur, snap, snap[z].position) else cur;
      InfectFrom(next, snap, z + 1)
  }

  /** The infection phase over the tick-start snapshot `snap`, in closed
      form: a tick-start zombie is untouched, and a tick-start human has
      taken one bite from each tick-start zombie that reaches it. */
  function Infect(snap: seq<Entity>): (r: seq<Entity>)
    ensures |r| == |snap|
    ensures forall i :: 0 <= i < |snap| ==>
      r[i] == (if snap[i].kind == Zombie then snap[i] else Bites(snap[i], Contacts(snap, snap[i].position)))
  {
    assert snap[..0] == [];
    InfectFromClosedForm(snap, snap, 0);
    assert snap[..|snap|] == snap;
    InfectFrom(snap, snap, 0)
  }

  /** The number of zombies of `zs` that reach the point `p`. */
  function Contacts(zs: seq<Entity>, p: Coord): (n: nat)
    ensures n <= |zs|
  {
    if zs == [] then 0
    else
      var last := zs[|zs| - 1];
      Contacts(zs[..|zs| - 1], p) + (if last.kind == Zombie && Reaches(last.position, p) then 1 else 0)
  }

  /** What the entity at `i` is after the passes of the zombies in
      `snap[..z]`. */
  function AfterPasses(snap: seq<Entity>, i: nat, z: nat): Entity
    requires i < |snap| && z <= |snap|
  {
    if snap[i].kind == Zombie then snap[i] else Bites(snap[i], Contacts(snap[..z], snap[i].position))
  }

  lemma {:induction false} InfectFromClosedForm(cur: seq<Entity>, snap: seq<Entity>, z: nat)
    requires |cur| == |snap| && z <= |snap|
    requires forall i :: 0 <= i < |snap| ==> cur[i] == AfterPasses(snap, i, z)
    ensures forall i :: 0 <= i < |snap| ==> InfectFrom(cur, snap, z)[i] == AfterPasses(snap, i, |snap|)
    decreases |snap| - z
  {
    if z < |snap| {
      var next := if snap[z].kind == Zombie then BitePass(cur, snap, snap[z].position) else cur;
      forall i | 0 <= i < |snap|
        ensures next[i] == AfterPasses(snap, i, z + 1)
      {
        assert snap[..z + 1][..z] == snap[..z];
        assert snap[..z + 1][z] == snap[z];
      }
      InfectFromClosedForm(next, snap, z + 1);
    }
  }

  /** A list without zombies reaches nobody. */
  lemma {:induction false} NoContact(zs: seq<Entity>, p: Coord)
    requires forall i :: 0 <= i < |zs| ==> zs[i].kind != Zombie
    ensures Contacts(zs, p) == 0
  {
    if zs != [] {
      NoContact(zs[..|zs| - 1], p);
    }
  }
}
