/** Undirected graphs given by a set of pairs, and the relation "some walk joins p to q",
    which is the equivalence closure of the pairs. */
module Graph {

  ghost predicate Adjacent<T>(pairs: set<(T, T)>, a: T, b: T) {
    (a, b) in pairs || (b, a) in pairs
  }

  ghost predicate StepAt<T>(pairs: set<(T, T)>, walk: seq<T>, k: int)
    requires 0 <= k < |walk| - 1
  {
    Adjacent(pairs, walk[k], walk[k + 1])
  }

  /** `walk` moves along pairs only, in either direction. */
  ghost predicate IsWalk<T>(pairs: set<(T, T)>, walk: seq<T>) {
    && |walk| > 0
    && forall k :: 0 <= k < |walk| - 1 ==> StepAt(pairs, walk, k)
  }

  ghost predicate Joins<T>(pairs: set<(T, T)>, walk: seq<T>, p: T, q: T) {
    IsWalk(pairs, walk) && walk[0] == p && walk[|walk| - 1] == q
  }

  ghost predicate Linked<T(!new)>(pairs: set<(T, T)>, p: T, q: T) {
    exists walk :: Joins(pairs, walk, p, q)
  }

  lemma LinkedReflexive<T(!new)>(pairs: set<(T, T)>, p: T)
    ensures Linked(pairs, p, p)
  {
    assert Joins(pairs, [p], p, p);
  }

  lemma LinkedByPair<T(!new)>(pairs: set<(T, T)>, p: T, q: T)
    requires Adjacent(pairs, p, q)
    ensures Linked(pairs, p, q)
  {
    assert Joins(pairs, [p, q], p, q);
  }

  lemma LinkedTransitive<T(!new)>(pairs: set<(T, T)>, p: T, q: T, r: T)
    requires Linked(pairs, p, q) && Linked(pairs, q, r)
    ensures Linked(pairs, p, r)
  {
    var there :| Joins(pairs, there, p, q);
    var onward :| Joins(pairs, onward, q, r);
    var walk := there + onward[1..];
    forall k | 0 <= k < |walk| - 1
      ensures StepAt(pairs, walk, k)
    {
      if k >= |there| - 1 {
        assert StepAt(pairs, onward, k - |there| + 1);
      } else {
        assert StepAt(pairs, there, k);
      }
    }
    assert Joins(pairs, walk, p, r);
  }

  lemma LinkedMonotone<T(!new)>(pairs: set<(T, T)>, more: set<(T, T)>, p: T, q: T)
    requires pairs <= more && Linked(pairs, p, q)
    ensures Linked(more, p, q)
  {
    var walk :| Joins(pairs, walk, p, q);
    assert forall k :: 0 <= k < |walk| - 1 ==> StepAt(pairs, walk, k) && StepAt(more, walk, k);
    assert Joins(more, walk, p, q);
  }

  /** No pair leaves `region`, so no walk does: a component is contained in every
      closed set that contains one of its points. */
  lemma WalkStaysInside<T(!new)>(pairs: set<(T, T)>, region: set<T>, p: T, q: T)
    requires Linked(pairs, p, q) && p in region
    requires forall a, b :: Adjacent(pairs, a, b) && a in region ==> b in region
    ensures q in region
  {
    var walk :| Joins(pairs, walk, p, q);
    var k := 0;
    while k < |walk| - 1
      invariant 0 <= k < |walk| && walk[k] in region
    {
      assert StepAt(pairs, walk, k);
      k := k + 1;
    }
  }
}
