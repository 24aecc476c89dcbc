/** Counting entities by kind, as the engine's `filter(...).length`
    (components/GameMap.tsx:469-471). */
module Census {
  import opened Types

  /** The number of entities of kind `k`. */
  function CountKind(es: seq<Entity>, k: Kind): (n: nat)
    ensures n <= |es|
    ensures n == 0 <==> forall i :: 0 <= i < |es| ==> es[i].kind != k
    ensures n == |es| <==> forall i :: 0 <= i < |es| ==> es[i].kind == k
  {
    if es == [] then 0
    else CountKind(es[..|es| - 1], k) + (if es[|es| - 1].kind == k then 1 else 0)
  }

  /** Counting distributes over concatenation. */
  lemma {:induction false} CountAppend(a: seq<Entity>, b: seq<Entity>, k: Kind)
    ensures CountKind(a + b, k) == CountKind(a, k) + CountKind(b, k)
    decreases |b|
  {
    if b == [] {
      assert a + b == a;
    } else {
      var last := |b| - 1;
      assert (a + b)[..|a + b| - 1] == a + b[..last];
      CountAppend(a, b[..last], k);
    }
  }

  /** Every entity has one of the three kinds, so the three counts add up
      to the population. */
  lemma {:induction false} KindsPartition(es: seq<Entity>)
    ensures CountKind(es, Civilian) + CountKind(es, Zombie) + CountKind(es, Soldier) == |es|
  {
    if es != [] {
      KindsPartition(es[..|es| - 1]);
    }
  }

  /** Replacing one entity changes each count by the kinds swapped. */
  lemma {:induction false} CountUpdate(es: seq<Entity>, i: nat, e: Entity, k: Kind)
    requires i < |es|
    ensures CountKind(es[i := e], k) + (if es[i].kind == k then 1 else 0)
         == CountKind(es, k) + (if e.kind == k then 1 else 0)
  {
    var before, after := es[..i], es[i + 1..];
    assert es == before + [es[i]] + after;
    assert es[i := e] == before + [e] + after;
    CountAppend(before + [es[i]], after, k);
    CountAppend(before, [es[i]], k);
    CountAppend(before + [e], after, k);
    CountAppend(before, [e], k);
    assert CountKind([es[i]], k) == (if es[i].kind == k then 1 else 0) by {
      assert [es[i]][..0] == [];
    }
    assert CountKind([e], k) == (if e.kind == k then 1 else 0) by {
      assert [e][..0] == [];
    }
  }

  /** No two entities share an id. */
  predicate DistinctIds(es: seq<Entity>) {
    forall i, j :: 0 <= i < j < |es| ==> es[i].id != es[j].id
  }
}
