/** The four disjoint-set classes of UnionFind.java. */
module UnionFind {
  import opened Graph

  // ---------- what every representation has to satisfy ----------

  /** `rep` labels the nodes so that equal labels mean "joined by the recorded pairs". */
  ghost predicate Represents(rep: seq<int>, pairs: set<(int, int)>) {
    && (forall e :: e in pairs ==> 0 <= e.0 < |rep| && 0 <= e.1 < |rep|)
    && (forall p, q {:trigger Linked(pairs, p, q)} ::
          0 <= p < |rep| && 0 <= q < |rep| ==> (rep[p] == rep[q] <==> Linked(pairs, p, q)))
  }

  function Identity(n: nat): seq<int> {
    seq(n, i => i)
  }

  /** Every node labelled `from` is relabelled `to`. */
  function Relabel(rep: seq<int>, from: int, to: int): seq<int> {
    seq(|rep|, k requires 0 <= k < |rep| => if rep[k] == from then to else rep[k])
  }

  lemma IdentityRepresents(n: nat)
    ensures Represents(Identity(n), {})
  {
    var none: set<(int, int)> := {};
    forall p, q | 0 <= p < n && 0 <= q < n
      ensures p == q <==> Linked(none, p, q)
    {
      if p == q {
        LinkedReflexive(none, p);
      } else if Linked(none, p, q) {
        WalkStaysInside(none, {p}, p, q);
      }
    }
  }

  /** `p` and `q` being the pair added, `u` and `v` are joined now if they were before or if
      each is joined to a different end of the pair. */
  ghost predicate MergedBy(rep: seq<int>, p: int, q: int, u: int, v: int)
    requires 0 <= p < |rep| && 0 <= q < |rep| && 0 <= u < |rep| && 0 <= v < |rep|
  {
    || rep[u] == rep[v]
    || (rep[u] == rep[p] && rep[v] == rep[q])
    || (rep[u] == rep[q] && rep[v] == rep[p])
  }

  lemma ClosureGrows(rep: seq<int>, merged: seq<int>, pairs: set<(int, int)>, p: int, q: int)
    requires Represents(rep, pairs) && 0 <= p < |rep| && 0 <= q < |rep|
    requires |merged| == |rep|
    requires forall u, v :: 0 <= u < |rep| && 0 <= v < |rep| ==> (merged[u] == merged[v] <==> MergedBy(rep, p, q, u, v))
    ensures Represents(merged, pairs + {(p, q)})
  {
    var more := pairs + {(p, q)};
    forall u, v | 0 <= u < |rep| && 0 <= v < |rep|
      ensures merged[u] == merged[v] <==> Linked(more, u, v)
    {
      if merged[u] == merged[v] {
        assert MergedBy(rep, p, q, u, v);
        LinkedByPair(more, p, q);
        LinkedByPair(more, q, p);
        if rep[u] == rep[v] {
          LinkedMonotone(pairs, more, u, v);
        } else if rep[u] == rep[p] {
          Detour(rep, pairs, more, u, p, q, v);
        } else {
          Detour(rep, pairs, more, u, q, p, v);
        }
      }
      if Linked(more, u, v) {
        var region := set x | 0 <= x < |rep| && merged[x] == merged[u];
        forall a, b | Adjacent(more, a, b) && a in region
          ensures b in region
        {
          if Adjacent(pairs, a, b) {
            LinkedByPair(pairs, a, b);
          }
          assert MergedBy(rep, p, q, a, b);
        }
        WalkStaysInside(more, region, u, v);
      }
    }
  }

  lemma Detour(rep: seq<int>, pairs: set<(int, int)>, more: set<(int, int)>, u: int, a: int, b: int, v: int)
    requires Represents(rep, pairs) && pairs <= more && Linked(more, a, b)
    requires 0 <= u < |rep| && 0 <= v < |rep| && 0 <= a < |rep| && 0 <= b < |rep|
    requires rep[u] == rep[a] && rep[b] == rep[v]
    ensures Linked(more, u, v)
  {
    LinkedMonotone(pairs, more, u, a);
    LinkedMonotone(pairs, more, b, v);
    LinkedTransitive(more, u, a, b);
    LinkedTransitive(more, u, b, v);
  }

  // ---------- parent-link forests ----------

  /** `id` is a forest of parent links whose roots `rep` names: the label is constant along
      every link and a root labels itself. Ranks grow along links, so no link cycle exists. */
  ghost predicate Forest(id: seq<int>, rep: seq<int>, rank: seq<int>, top: int) {
    && |id| == |rep| == |rank|
    && forall i :: 0 <= i < |id| ==> GoodLink(id, rep, rank, top, i)
  }

  ghost predicate GoodLink(id: seq<int>, rep: seq<int>, rank: seq<int>, top: int, i: int)
    requires |id| == |rep| == |rank| && 0 <= i < |id|
  {
    && 0 <= id[i] < |id|
    && 0 <= rep[i] < |id|
    && rep[id[i]] == rep[i]
    && id[rep[i]] == rep[i]
    && (id[i] == i ==> rep[i] == i)
    && (id[i] != i ==> rank[i] < rank[id[i]])
    && rank[i] <= top
  }

  /** The number of links from `i` up to its root. */
  ghost function Depth(id: seq<int>, rep: seq<int>, rank: seq<int>, top: int, i: int): nat
    requires Forest(id, rep, rank, top) && 0 <= i < |id|
    decreases top - rank[i]
  {
    assert GoodLink(id, rep, rank, top, i);
    if id[i] == i then 0 else 1 + Depth(id, rep, rank, top, id[i])
  }

  lemma IdentityForest(n: nat, rank: seq<int>, top: int)
    requires |rank| == n && forall i :: 0 <= i < n ==> rank[i] <= top
    ensures Forest(Identity(n), Identity(n), rank, top)
  {
    forall i | 0 <= i < n
      ensures GoodLink(Identity(n), Identity(n), rank, top, i)
    {
    }
  }

  /** Hanging root `a` below root `b`. */
  lemma HangRoot(id: seq<int>, rep: seq<int>, rank: seq<int>, top: int, a: int, b: int, rank': seq<int>, top': int)
    requires Forest(id, rep, rank, top)
    requires 0 <= a < |id| && 0 <= b < |id| && id[a] == a && id[b] == b
    requires |rank'| == |rank| && top <= top'
    requires forall i :: 0 <= i < |id| && i != b ==> rank'[i] == rank[i]
    requires rank[b] <= rank'[b] <= top' && (a != b ==> rank[a] < rank'[b])
    ensures Forest(id[a := b], Relabel(rep, a, b), rank', top')
  {
    var id', rep' := id[a := b], Relabel(rep, a, b);
    assert GoodLink(id, rep, rank, top, a) && GoodLink(id, rep, rank, top, b);
    assert rep[a] == a && rep[b] == b;
    forall i | 0 <= i < |id|
      ensures GoodLink(id', rep', rank', top', i)
    {
      assert GoodLink(id, rep, rank, top, i);
    }
  }

  /** Pointing a node at its grandparent. */
  lemma HalvePath(id: seq<int>, rep: seq<int>, rank: seq<int>, top: int, i: int)
    requires Forest(id, rep, rank, top) && 0 <= i < |id| && id[i] != i
    ensures 0 <= id[i] < |id| && 0 <= id[id[i]] < |id|
    ensures Forest(id[i := id[id[i]]], rep, rank, top)
  {
    var parent := id[i];
    assert GoodLink(id, rep, rank, top, i) && GoodLink(id, rep, rank, top, parent);
    var id' := id[i := id[parent]];
    forall k | 0 <= k < |id|
      ensures GoodLink(id', rep, rank, top, k)
    {
      assert GoodLink(id, rep, rank, top, k);
    }
  }

  /** Merging the classes of `p` and `q` by hanging one root below the other. */
  lemma RelabelMerges(rep: seq<int>, pairs: set<(int, int)>, p: int, q: int)
    requires Represents(rep, pairs) && 0 <= p < |rep| && 0 <= q < |rep|
    ensures Represents(Relabel(rep, rep[p], rep[q]), pairs + {(p, q)})
    ensures Represents(Relabel(rep, rep[q], rep[p]), pairs + {(p, q)})
  {
    ClosureGrows(rep, Relabel(rep, rep[p], rep[q]), pairs, p, q);
    ClosureGrows(rep, Relabel(rep, rep[q], rep[p]), pairs, p, q);
  }

  // ---------- QuickFindUF ----------

  class QuickFindUF {
    const id: array<int>
    ghost var pairs: set<(int, int)>

    ghost predicate Valid()
      reads this, id
    {
      Represents(id[..], pairs)
    }

    constructor (n: nat)
      ensures Valid() && pairs == {} && id.Length == n && fresh(id)
    {
      id := new int[n];
      pairs := {};
      new;
      for i := 0 to n
        invariant forall k :: 0 <= k < i ==> id[k] == k
        invariant pairs == {}
      {
        id[i] := i;
      }
      IdentityRepresents(n);
      assert id[..] == Identity(n);
    }

    method Connected(p: int, q: int) returns (c: bool)
      requires Valid() && 0 <= p < id.Length && 0 <= q < id.Length
      ensures c <==> Linked(pairs, p, q)
    {
      c := id[p] == id[q];
      assert id[..][p] == id[p] && id[..][q] == id[q];
    }

    method Union(p: int, q: int)
      requires Valid() && 0 <= p < id.Length && 0 <= q < id.Length
      modifies this, id
      ensures Valid() && pairs == old(pairs) + {(p, q)}
      ensures forall i :: 0 <= i < id.Length ==> id[i] == if old(id[i]) == old(id[p]) then old(id[q]) else old(id[i])
    {
      ghost var was := id[..];
      var pid, qid := id[p], id[q];
      for i := 0 to id.Length
        invariant pairs == old(pairs)
        invariant id[i..] == was[i..]
        invariant id[..i] == Relabel(was, pid, qid)[..i]
      {
        assert id[i] == id[i..][0] == was[i];
        if id[i] == pid {
          id[i] := qid;
        }
      }
      pairs := pairs + {(p, q)};
      RelabelMerges(was, old(pairs), p, q);
      assert id[..] == id[..id.Length] == Relabel(was, pid, qid);
    }
  }

  // ---------- QuickUnionUF ----------

  class QuickUnionUF {
    const id: array<int>
    ghost var pairs: set<(int, int)>
    ghost var rep: seq<int>
    ghost var rank: seq<int>
    ghost var top: int

    ghost predicate Valid()
      reads this, id
    {
      Forest(id[..], rep, rank, top) && Represents(rep, pairs)
    }

    constructor (n: nat)
      ensures Valid() && pairs == {} && id.Length == n && fresh(id)
    {
      id := new int[n];
      pairs, rep, rank, top := {}, Identity(n), seq(n, i => 0), 0;
      new;
      for i := 0 to n
        invariant forall k :: 0 <= k < i ==> id[k] == k
        invariant rep == Identity(n) && rank == seq(n, i => 0) && top == 0 && pairs == {}
      {
        id[i] := i;
      }
      IdentityRepresents(n);
      IdentityForest(n, rank, top);
      assert id[..] == Identity(n);
    }

    method Root(i: int) returns (r: int)
      requires Valid() && 0 <= i < id.Length
      ensures 0 <= r < id.Length && r == rep[i] && id[r] == r
    {
      r := i;
      while r != id[r]
        invariant 0 <= r < id.Length && rep[r] == rep[i]
        decreases top - rank[r]
      {
        assert GoodLink(id[..], rep, rank, top, r) && GoodLink(id[..], rep, rank, top, id[r]);
        r := id[r];
      }
      assert GoodLink(id[..], rep, rank, top, r);
    }

    method Connected(p: int, q: int) returns (c: bool)
      requires Valid() && 0 <= p < id.Length && 0 <= q < id.Length
      ensures c <==> Linked(pairs, p, q)
    {
      var proot := Root(p);
      var qroot := Root(q);
      c := proot == qroot;
    }

    method Union(p: int, q: int)
      requires Valid() && 0 <= p < id.Length && 0 <= q < id.Length
      modifies this, id
      ensures Valid() && pairs == old(pairs) + {(p, q)}
      ensures 0 <= old(rep[p]) < id.Length && id[..] == old(id[..])[old(rep[p]) := old(rep[q])]
      ensures forall i :: 0 <= i < |rep| ==> rep[i] == if old(rep)[i] == old(rep[p]) then old(rep[q]) else old(rep)[i]
    {
      ghost var was := id[..];
      var proot := Root(p);
      var qroot := Root(q);
      assert GoodLink(was, rep, rank, top, proot) && GoodLink(was, rep, rank, top, qroot);
      id[proot] := qroot;
      ghost var height := if rank[proot] < rank[qroot] then rank[qroot] else rank[proot] + 1;
      ghost var rank' := rank[qroot := height];
      HangRoot(was, rep, rank, top, proot, qroot, rank', top + 1);
      RelabelMerges(rep, pairs, p, q);
      rank, top, rep, pairs := rank', top + 1, Relabel(rep, proot, qroot), pairs + {(p, q)};
      assert id[..] == was[proot := qroot];
    }
  }

  // ---------- union by size ----------

  ghost function Pow2(k: nat): nat {
    if k == 0 then 1 else 2 * Pow2(k - 1)
  }

  /** The nodes of the tree with root `r`. */
  ghost function Tree(rep: seq<int>, r: int): set<int> {
    set i | 0 <= i < |rep| && rep[i] == r
  }

  /** Sizes serve as ranks: a root's size counts its tree, and a node that has a parent stopped
      growing at no more than half of what the parent weighs. */
  ghost predicate Weighted(id: seq<int>, sz: seq<int>, rep: seq<int>) {
    && Forest(id, rep, sz, |id|)
    && forall i :: 0 <= i < |id| ==> GoodWeight(id, sz, rep, i)
  }

  ghost predicate GoodWeight(id: seq<int>, sz: seq<int>, rep: seq<int>, i: int)
    requires Forest(id, rep, sz, |id|) && 0 <= i < |id|
  {
    && sz[i] >= 1
    && GoodLink(id, rep, sz, |id|, i)
    && (id[i] != i ==> 2 * sz[i] <= sz[id[i]])
    && (id[i] == i ==> sz[i] == |Tree(rep, i)|)
  }

  lemma RangeSize(s: set<int>, n: nat)
    requires forall x :: x in s ==> 0 <= x < n
    ensures |s| <= n
    decreases n
  {
    if n == 0 {
      assert forall x :: x !in s;
    } else {
      RangeSize(s - {n - 1}, n - 1);
    }
  }

  lemma IdentityWeighted(n: nat)
    ensures Weighted(Identity(n), seq(n, i => 1), Identity(n))
  {
    var id, sz := Identity(n), seq(n, i => 1);
    IdentityForest(n, sz, n);
    forall i | 0 <= i < n
      ensures GoodWeight(id, sz, id, i)
    {
      assert Tree(id, i) == {i};
    }
  }

  /** Hanging the root of a tree below the root of one at least as heavy. */
  lemma HangLighter(id: seq<int>, sz: seq<int>, rep: seq<int>, light: int, heavy: int)
    requires Weighted(id, sz, rep)
    requires 0 <= light < |id| && 0 <= heavy < |id| && light != heavy
    requires id[light] == light && id[heavy] == heavy && sz[light] <= sz[heavy]
    ensures Weighted(id[light := heavy], sz[heavy := sz[heavy] + sz[light]], Relabel(rep, light, heavy))
  {
    var id', sz', rep' := id[light := heavy], sz[heavy := sz[heavy] + sz[light]], Relabel(rep, light, heavy);
    assert GoodWeight(id, sz, rep, light) && GoodWeight(id, sz, rep, heavy);
    assert Tree(rep', heavy) == Tree(rep, light) + Tree(rep, heavy);
    assert Tree(rep, light) !! Tree(rep, heavy);
    RangeSize(Tree(rep', heavy), |id|);
    HangRoot(id, rep, sz, |id|, light, heavy, sz', |id|);
    forall i | 0 <= i < |id|
      ensures GoodWeight(id', sz', rep', i)
    {
      assert GoodWeight(id, sz, rep, i) && GoodLink(id', rep', sz', |id|, i);
      if id'[i] == i && i != heavy {
        assert Tree(rep', i) == Tree(rep, i);
      }
    }
  }

  lemma HalveWeighted(id: seq<int>, sz: seq<int>, rep: seq<int>, i: int)
    requires Weighted(id, sz, rep) && 0 <= i < |id| && id[i] != i
    ensures 0 <= id[i] < |id| && 0 <= id[id[i]] < |id|
    ensures Weighted(id[i := id[id[i]]], sz, rep)
  {
    HalvePath(id, rep, sz, |id|, i);
    var id' := id[i := id[id[i]]];
    assert GoodWeight(id, sz, rep, i) && GoodWeight(id, sz, rep, id[i]);
    forall k | 0 <= k < |id|
      ensures GoodWeight(id', sz, rep, k)
    {
      assert GoodWeight(id, sz, rep, k);
    }
  }

  lemma Doubling(p: int, a: int, b: int, c: int)
    requires 0 <= p && 2 * a <= b && p * b <= c
    ensures 2 * p * a <= c
  {
    assert p * (2 * a) <= p * b;
  }

  lemma AtMostProduct(d: nat, w: int)
    requires w >= 1
    ensures d <= d * w
  {
    assert d * 1 <= d * w;
  }

  /** 2^depth times a node's own weight never exceeds the weight of its root. */
  lemma {:induction false} DepthDoublesWeight(id: seq<int>, sz: seq<int>, rep: seq<int>, i: int)
    requires Weighted(id, sz, rep) && 0 <= i < |id|
    ensures 0 <= rep[i] < |id|
    ensures Pow2(Depth(id, rep, sz, |id|, i)) * sz[i] <= sz[rep[i]]
    decreases |id| - sz[i]
  {
    assert GoodLink(id, rep, sz, |id|, i) && GoodWeight(id, sz, rep, i);
    if id[i] != i {
      DepthDoublesWeight(id, sz, rep, id[i]);
      Doubling(Pow2(Depth(id, rep, sz, |id|, id[i])), sz[i], sz[id[i]], sz[rep[i]]);
    }
  }

  /** No node is deeper than log2 of the size of its tree: 2^height(r) <= sz[r] <= N. */
  lemma LogarithmicDepth(id: seq<int>, sz: seq<int>, rep: seq<int>, i: int)
    requires Weighted(id, sz, rep) && 0 <= i < |id|
    ensures 0 <= rep[i] < |id| && sz[rep[i]] == |Tree(rep, rep[i])|
    ensures Pow2(Depth(id, rep, sz, |id|, i)) <= sz[rep[i]] <= |id|
  {
    DepthDoublesWeight(id, sz, rep, i);
    assert GoodLink(id, rep, sz, |id|, i) && GoodWeight(id, sz, rep, i);
    AtMostProduct(Pow2(Depth(id, rep, sz, |id|, i)), sz[i]);
    assert GoodLink(id, rep, sz, |id|, rep[i]) && GoodWeight(id, sz, rep, rep[i]);
  }

  /** A link rewritten at a node of smaller rank does not change the depth above it. */
  lemma {:induction false} DepthAbove(id: seq<int>, id': seq<int>, rep: seq<int>, rank: seq<int>, top: int, i: int, k: int)
    requires Forest(id, rep, rank, top) && Forest(id', rep, rank, top)
    requires 0 <= i < |id| && 0 <= k < |id| && rank[i] < rank[k]
    requires forall j :: 0 <= j < |id| && j != i ==> id'[j] == id[j]
    ensures Depth(id', rep, rank, top, k) == Depth(id, rep, rank, top, k)
    decreases top - rank[k]
  {
    assert GoodLink(id, rep, rank, top, k);
    if id[k] != k {
      DepthAbove(id, id', rep, rank, top, i, id[k]);
    }
  }

  /** Pointing a node at its grandparent makes no node deeper. */
  lemma {:induction false} HalvingShortens(id: seq<int>, rep: seq<int>, rank: seq<int>, top: int, i: int, k: int)
    requires Forest(id, rep, rank, top) && 0 <= i < |id| && id[i] != i && 0 <= k < |id|
    requires 0 <= id[i] < |id| && 0 <= id[id[i]] < |id|
    requires Forest(id[i := id[id[i]]], rep, rank, top)
    ensures Depth(id[i := id[id[i]]], rep, rank, top, k) <= Depth(id, rep, rank, top, k)
    decreases top - rank[k]
  {
    assert GoodLink(id, rep, rank, top, k) && GoodLink(id, rep, rank, top, id[k]);
    if id[k] != k {
      HalvingShortens(id, rep, rank, top, i, id[k]);
      if id[id[k]] != id[k] {
        HalvingShortens(id, rep, rank, top, i, id[id[k]]);
      }
    }
  }

  /** Rewriting `was` into `id` has made no node deeper. */
  ghost predicate NoDeeper(id: seq<int>, was: seq<int>, sz: seq<int>, rep: seq<int>)
    requires Forest(id, rep, sz, |id|) && Forest(was, rep, sz, |was|)
  {
    forall k :: 0 <= k < |id| ==> Depth(id, rep, sz, |id|, k) <= Depth(was, rep, sz, |was|, k)
  }

  lemma NoDeeperTransitive(id: seq<int>, mid: seq<int>, was: seq<int>, sz: seq<int>, rep: seq<int>)
    requires Forest(id, rep, sz, |id|) && Forest(mid, rep, sz, |mid|) && Forest(was, rep, sz, |was|)
    requires NoDeeper(id, mid, sz, rep) && NoDeeper(mid, was, sz, rep)
    ensures NoDeeper(id, was, sz, rep)
  {
  }

  /** One turn of the halving loop, at node `r`. */
  lemma HalvingStep(id: seq<int>, sz: seq<int>, rep: seq<int>, r: int)
    requires Weighted(id, sz, rep) && 0 <= r < |id| && id[r] != r
    ensures 0 <= id[r] < |id| && 0 <= id[id[r]] < |id|
    ensures var up, id' := id[id[r]], id[r := id[id[r]]];
            && Weighted(id', sz, rep)
            && rep[up] == rep[r] && sz[r] < sz[up]
            && (Depth(id, rep, sz, |id|, r) + 1) / 2 == 1 + (Depth(id', rep, sz, |id|, up) + 1) / 2
            && NoDeeper(id', id, sz, rep)
  {
    var parent := id[r];
    assert GoodLink(id, rep, sz, |id|, r) && GoodLink(id, rep, sz, |id|, parent);
    var id' := id[r := id[parent]];
    HalveWeighted(id, sz, rep, r);
    DepthAbove(id, id', rep, sz, |id|, r, id[parent]);
    forall k | 0 <= k < |id|
      ensures Depth(id', rep, sz, |id|, k) <= Depth(id, rep, sz, |id|, k)
    {
      HalvingShortens(id, rep, sz, |id|, r, k);
    }
  }

  /** The root of every node, and the sizes kept for the trees. */
  datatype Trees = Trees(rep: seq<int>, sz: seq<int>)

  function Singletons(n: nat): Trees {
    Trees(Identity(n), seq(n, i => 1))
  }

  /** Whatever the trees of `p` and `q` were, all their nodes now have one root: that of the heavier tree,
      and of the first one if they weigh the same. It weighs what both weighed, and nothing else changed. */
  ghost predicate HeavierOnTop(was: Trees, now: Trees, p: int, q: int)
    requires 0 <= p < |was.rep| && 0 <= q < |was.rep|
    requires 0 <= was.rep[p] < |was.sz| && 0 <= was.rep[q] < |was.sz|
  {
    var top := if was.sz[was.rep[p]] < was.sz[was.rep[q]] then was.rep[q] else was.rep[p];
    && |now.rep| == |was.rep| && |now.sz| == |was.sz|
    && (forall i :: 0 <= i < |was.rep| ==>
          now.rep[i] == if was.rep[i] == was.rep[p] || was.rep[i] == was.rep[q] then top else was.rep[i])
    && (was.rep[p] != was.rep[q] ==> now.sz[top] == was.sz[was.rep[p]] + was.sz[was.rep[q]])
    && (was.rep[p] == was.rep[q] ==> now.sz[top] == was.sz[top])
    && (forall i :: 0 <= i < |was.sz| && i != top ==> now.sz[i] == was.sz[i])
  }

  /** The trees of `p` and `q` united by relabelling the nodes of one of them. */
  ghost function Joined(t: Trees, p: int, q: int): (joined: Trees)
    requires 0 <= p < |t.rep| && 0 <= q < |t.rep|
    requires 0 <= t.rep[p] < |t.sz| && 0 <= t.rep[q] < |t.sz|
    ensures HeavierOnTop(t, joined, p, q)
  {
    var a, b := t.rep[p], t.rep[q];
    if a == b then t
    else if t.sz[a] < t.sz[b] then Trees(Relabel(t.rep, a, b), t.sz[b := t.sz[b] + t.sz[a]])
    else Trees(Relabel(t.rep, b, a), t.sz[a := t.sz[a] + t.sz[b]])
  }

  /** What `union` does: nothing to the links if the roots agree, otherwise the root of the
      lighter tree is hung below the other, which takes over its size. */
  lemma UnionBySize(id: seq<int>, sz: seq<int>, rep: seq<int>, pairs: set<(int, int)>, p: int, q: int)
    requires Weighted(id, sz, rep) && Represents(rep, pairs) && 0 <= p < |id| && 0 <= q < |id|
    ensures rep[p] == rep[q] ==> Represents(rep, pairs + {(p, q)})
    ensures 0 <= rep[p] < |id| && 0 <= rep[q] < |id|
    ensures rep[p] != rep[q] ==>
              var light := if sz[rep[p]] < sz[rep[q]] then rep[p] else rep[q];
              var heavy := if sz[rep[p]] < sz[rep[q]] then rep[q] else rep[p];
              && Weighted(id[light := heavy], sz[heavy := sz[heavy] + sz[light]], Relabel(rep, light, heavy))
              && Represents(Relabel(rep, light, heavy), pairs + {(p, q)})
  {
    assert GoodLink(id, rep, sz, |id|, p) && GoodLink(id, rep, sz, |id|, q);
    RelabelMerges(rep, pairs, p, q);
    if rep[p] == rep[q] {
      assert Relabel(rep, rep[p], rep[q]) == rep;
    } else if sz[rep[p]] < sz[rep[q]] {
      HangLighter(id, sz, rep, rep[p], rep[q]);
    } else {
      HangLighter(id, sz, rep, rep[q], rep[p]);
    }
  }

  // ---------- WeightedQuickUnionUF ----------

  class WeightedQuickUnionUF {
    const id: array<int>
    const sz: array<int>
    ghost var pairs: set<(int, int)>
    ghost var rep: seq<int>

    ghost predicate Valid()
      reads this, id, sz
    {
      && id != sz
      && Weighted(id[..], sz[..], rep)
      && Represents(rep, pairs)
    }

    constructor (n: nat)
      ensures Valid() && pairs == {} && id.Length == n && fresh(id) && fresh(sz)
      ensures Trees(rep, sz[..]) == Singletons(n)
    {
      id := new int[n];
      sz := new int[n];
      pairs, rep := {}, Identity(n);
      new;
      for i := 0 to n
        invariant pairs == {} && rep == Identity(n)
        invariant forall k :: 0 <= k < i ==> id[k] == k && sz[k] == 1
      {
        id[i] := i;
        sz[i] := 1;
      }
      IdentityRepresents(n);
      IdentityWeighted(n);
      assert id[..] == Identity(n) && sz[..] == seq(n, i => 1);
    }

    /** The loop runs once per link on the way up, so at most log2 N times. */
    method Root(i: int) returns (r: int, ghost steps: nat)
      requires Valid() && 0 <= i < id.Length
      ensures 0 <= r < id.Length && r == rep[i] && id[r] == r
      ensures steps == Depth(id[..], rep, sz[..], id.Length, i) && Pow2(steps) <= id.Length
    {
      r, steps := i, 0;
      while r != id[r]
        invariant 0 <= r < id.Length && rep[r] == rep[i]
        invariant steps + Depth(id[..], rep, sz[..], id.Length, r) == Depth(id[..], rep, sz[..], id.Length, i)
        decreases id.Length - sz[r]
      {
        assert GoodLink(id[..], rep, sz[..], id.Length, r);
        r, steps := id[r], steps + 1;
      }
      assert GoodLink(id[..], rep, sz[..], id.Length, r);
      LogarithmicDepth(id[..], sz[..], rep, i);
    }

    method Connected(p: int, q: int) returns (c: bool)
      requires Valid() && 0 <= p < id.Length && 0 <= q < id.Length
      ensures c <==> Linked(pairs, p, q)
    {
      var proot, _ := Root(p);
      var qroot, _ := Root(q);
      c := proot == qroot;
    }

    method Union(p: int, q: int)
      requires Valid() && 0 <= p < id.Length && 0 <= q < id.Length
      modifies this, id, sz
      ensures Valid() && pairs == old(pairs) + {(p, q)}
      ensures 0 <= old(rep[p]) < sz.Length && 0 <= old(rep[q]) < sz.Length
      ensures HeavierOnTop(Trees(old(rep), old(sz[..])), Trees(rep, sz[..]), p, q)
      ensures Trees(rep, sz[..]) == Joined(Trees(old(rep), old(sz[..])), p, q)
    {
      var proot, _ := Root(p);
      var qroot, _ := Root(q);
      Link(p, q, proot, qroot);
    }

    /** The part of `union` behind the two lookups. */
    method Link(ghost p: int, ghost q: int, proot: int, qroot: int)
      requires Valid() && 0 <= p < id.Length && 0 <= q < id.Length && proot == rep[p] && qroot == rep[q]
      requires 0 <= proot < id.Length && 0 <= qroot < id.Length
      modifies this, id, sz
      ensures Valid() && pairs == old(pairs) + {(p, q)}
      ensures Trees(rep, sz[..]) == Joined(Trees(old(rep), old(sz[..])), p, q)
    {
      ghost var ids, sizes := id[..], sz[..];
      UnionBySize(ids, sizes, rep, pairs, p, q);
      pairs := pairs + {(p, q)};
      if proot == qroot {
        return;
      }
      if sz[proot] < sz[qroot] {
        id[proot] := qroot;
        sz[qroot] := sz[qroot] + sz[proot];
        rep := Relabel(rep, proot, qroot);
        assert id[..] == ids[proot := qroot];
        assert sz[..] == sizes[qroot := sizes[qroot] + sizes[proot]];
      } else {
        id[qroot] := proot;
        sz[proot] := sz[proot] + sz[qroot];
        rep := Relabel(rep, qroot, proot);
        assert id[..] == ids[qroot := proot];
        assert sz[..] == sizes[proot := sizes[proot] + sizes[qroot]];
      }
    }
  }

  // ---------- PathCompressionWeightedQuickUnionUF ----------

  class PathCompressionWeightedQuickUnionUF {
    const id: array<int>
    const sz: array<int>
    ghost var pairs: set<(int, int)>
    ghost var rep: seq<int>

    ghost predicate Valid()
      reads this, id, sz
    {
      && id != sz
      && Weighted(id[..], sz[..], rep)
      && Represents(rep, pairs)
    }

    constructor (n: nat)
      ensures Valid() && pairs == {} && id.Length == n && fresh(id) && fresh(sz)
      ensures Trees(rep, sz[..]) == Singletons(n)
    {
      id := new int[n];
      sz := new int[n];
      pairs, rep := {}, Identity(n);
      new;
      for i := 0 to n
        invariant pairs == {} && rep == Identity(n)
        invariant forall k :: 0 <= k < i ==> id[k] == k && sz[k] == 1
      {
        id[i] := i;
        sz[i] := 1;
      }
      IdentityRepresents(n);
      IdentityWeighted(n);
      assert id[..] == Identity(n) && sz[..] == seq(n, i => 1);
    }

    /** Each in-loop write keeps every node's root, and no node ends up deeper; the loop takes
        half as many steps as there were links, rounded up. */
    method Root(i: int) returns (r: int, ghost steps: nat)
      requires Valid() && 0 <= i < id.Length
      modifies id
      ensures Valid()
      ensures 0 <= r < id.Length && r == rep[i] && id[r] == r
      ensures steps == (old(Depth(id[..], rep, sz[..], id.Length, i)) + 1) / 2
      ensures Pow2(steps) <= id.Length
      ensures NoDeeper(id[..], old(id[..]), sz[..], rep)
    {
      ghost var n, was, sizes := id.Length, id[..], sz[..];
      ghost var now := was;
      LogarithmicDepth(was, sizes, rep, i);
      r, steps := i, 0;
      while r != id[r]
        invariant id[..] == now && 0 <= r < n && rep[r] == rep[i]
        invariant Weighted(now, sizes, rep) && NoDeeper(now, was, sizes, rep)
        invariant steps + (Depth(now, rep, sizes, n, r) + 1) / 2 == (Depth(was, rep, sizes, n, i) + 1) / 2
        decreases n - sizes[r]
      {
        HalvingStep(now, sizes, rep, r);
        id[r] := id[id[r]];
        NoDeeperTransitive(id[..], now, was, sizes, rep);
        now := id[..];
        r, steps := id[r], steps + 1;
        assert GoodLink(now, rep, sizes, n, r);
      }
      assert GoodLink(now, rep, sizes, n, r);
      Pow2Monotone(steps, Depth(was, rep, sizes, n, i));
    }

    method Connected(p: int, q: int) returns (c: bool)
      requires Valid() && 0 <= p < id.Length && 0 <= q < id.Length
      modifies id
      ensures Valid()
      ensures c <==> Linked(pairs, p, q)
    {
      var proot, _ := Root(p);
      var qroot, _ := Root(q);
      c := proot == qroot;
    }

    method Union(p: int, q: int)
      requires Valid() && 0 <= p < id.Length && 0 <= q < id.Length
      modifies this, id, sz
      ensures Valid() && pairs == old(pairs) + {(p, q)}
      ensures 0 <= old(rep[p]) < sz.Length && 0 <= old(rep[q]) < sz.Length
      ensures HeavierOnTop(Trees(old(rep), old(sz[..])), Trees(rep, sz[..]), p, q)
      ensures Trees(rep, sz[..]) == Joined(Trees(old(rep), old(sz[..])), p, q)
    {
      var proot, _ := Root(p);
      var qroot, _ := Root(q);
      Link(p, q, proot, qroot);
    }

    /** The part of `union` behind the two lookups. */
    method Link(ghost p: int, ghost q: int, proot: int, qroot: int)
      requires Valid() && 0 <= p < id.Length && 0 <= q < id.Length && proot == rep[p] && qroot == rep[q]
      requires 0 <= proot < id.Length && 0 <= qroot < id.Length
      modifies this, id, sz
      ensures Valid() && pairs == old(pairs) + {(p, q)}
      ensures Trees(rep, sz[..]) == Joined(Trees(old(rep), old(sz[..])), p, q)
    {
      ghost var ids, sizes := id[..], sz[..];
      UnionBySize(ids, sizes, rep, pairs, p, q);
      pairs := pairs + {(p, q)};
      if proot == qroot {
        return;
      }
      if sz[proot] < sz[qroot] {
        id[proot] := qroot;
        sz[qroot] := sz[qroot] + sz[proot];
        rep := Relabel(rep, proot, qroot);
        assert id[..] == ids[proot := qroot];
        assert sz[..] == sizes[qroot := sizes[qroot] + sizes[proot]];
      } else {
        id[qroot] := proot;
        sz[proot] := sz[proot] + sz[qroot];
        rep := Relabel(rep, qroot, proot);
        assert id[..] == ids[qroot := proot];
        assert sz[..] == sizes[proot := sizes[proot] + sizes[qroot]];
      }
    }
  }

  lemma Pow2Monotone(a: nat, b: nat)
    requires a <= b
    ensures Pow2(a) <= Pow2(b)
  {
  }

  // ---------- one run, four implementations ----------

  /** A client step: ask whether two nodes are connected and then, if `unite`, unite them. */
  /** A call of connected, union or root. */
  datatype Request = Ask(p: int, q: int) | Unite(p: int, q: int) | FindRoot(i: int)

  datatype Answer = Said(joined: bool) | Done | RootIs(root: int)

  /** The pairs united by the first `k` requests. */
  ghost function PairsBefore(requests: seq<Request>, k: nat): set<(int, int)>
    requires k <= |requests|
  {
    if k == 0 then {}
    else PairsBefore(requests, k - 1) + (if requests[k - 1].Unite? then {(requests[k - 1].p, requests[k - 1].q)} else {})
  }

  predicate InRange(requests: seq<Request>, n: nat) {
    forall k :: 0 <= k < |requests| ==> RequestInRange(requests[k], n)
  }

  predicate RequestInRange(r: Request, n: nat) {
    match r
    case FindRoot(i) => 0 <= i < n
    case _ => 0 <= r.p < n && 0 <= r.q < n
  }

  /** The answer to request `k`: whether the pairs united before join the two nodes, or a node that they
      join to the one asked about. QuickFindUF has no roots to ask for. */
  ghost predicate IsRight(a: Answer, requests: seq<Request>, k: nat, n: nat, roots: bool)
    requires k < |requests|
  {
    match requests[k]
    case Ask(p, q) => a.Said? && (a.joined <==> Linked(PairsBefore(requests, k), p, q))
    case Unite(_, _) => a == Done
    case FindRoot(i) =>
      if roots then a.RootIs? && 0 <= a.root < n && Linked(PairsBefore(requests, k), i, a.root) else a == Done
  }

  predicate NoUnite(requests: seq<Request>, j: nat, k: nat)
    requires k <= |requests|
  {
    forall m :: j <= m < k ==> !requests[m].Unite?
  }

  /** Roots asked for without a union in between are equal exactly if the pairs join the nodes. */
  ghost predicate SameRoots(answers: seq<Answer>, requests: seq<Request>, j: nat, k: nat)
    requires j < k < |answers| <= |requests|
  {
    requests[j].FindRoot? && requests[k].FindRoot? && NoUnite(requests, j, k) ==>
      (answers[j] == answers[k] <==> Linked(PairsBefore(requests, k), requests[j].i, requests[k].i))
  }

  ghost predicate AnswersClosure(answers: seq<Answer>, requests: seq<Request>, n: nat, roots: bool) {
    && |answers| <= |requests|
    && (forall k {:trigger answers[k]} :: 0 <= k < |answers| ==> IsRight(answers[k], requests, k, n, roots))
    && (roots ==> forall j, k :: 0 <= j < k < |answers| ==> SameRoots(answers, requests, j, k))
  }

  /** The roots given since the last union are still those of the labels. */
  ghost predicate Current(answers: seq<Answer>, requests: seq<Request>, rep: seq<int>, j: nat)
    requires j < |answers| <= |requests|
  {
    requests[j].FindRoot? && NoUnite(requests, j, |answers|) ==>
      0 <= requests[j].i < |rep| && answers[j] == RootIs(rep[requests[j].i])
  }

  ghost predicate AllCurrent(answers: seq<Answer>, requests: seq<Request>, rep: seq<int>) {
    |answers| <= |requests| && forall j :: 0 <= j < |answers| ==> Current(answers, requests, rep, j)
  }

  /** What the labels say to a request. */
  ghost function FromLabels(r: Request, rep: seq<int>, roots: bool): Answer
    requires RequestInRange(r, |rep|)
  {
    match r
    case Ask(p, q) => Said(rep[p] == rep[q])
    case Unite(_, _) => Done
    case FindRoot(i) => if roots then RootIs(rep[i]) else Done
  }

  ghost predicate RootsLabelThemselves(rep: seq<int>) {
    forall i :: 0 <= i < |rep| ==> 0 <= rep[i] < |rep| && rep[rep[i]] == rep[i]
  }

  lemma AnswerIsRight(requests: seq<Request>, k: nat, rep: seq<int>, roots: bool)
    requires k < |requests| && RequestInRange(requests[k], |rep|)
    requires Represents(rep, PairsBefore(requests, k)) && (roots ==> RootsLabelThemselves(rep))
    ensures IsRight(FromLabels(requests[k], rep, roots), requests, k, |rep|, roots)
  {
    if roots && requests[k].FindRoot? {
      var i := requests[k].i;
      assert rep[i] == rep[rep[i]];
    }
  }

  lemma CurrentIsSame(answers: seq<Answer>, requests: seq<Request>, rep: seq<int>, j: nat)
    requires j < |answers| < |requests| && AllCurrent(answers, requests, rep)
    requires requests[|answers|].FindRoot? && RequestInRange(requests[|answers|], |rep|)
    requires Represents(rep, PairsBefore(requests, |answers|))
    ensures SameRoots(answers + [RootIs(rep[requests[|answers|].i])], requests, j, |answers|)
  {
    assert Current(answers, requests, rep, j);
  }

  /** One more answer read off the labels; a union may have changed them since. */
  lemma AnswerNext(answers: seq<Answer>, requests: seq<Request>, rep: seq<int>, rep': seq<int>, roots: bool)
    requires |answers| < |requests| && RequestInRange(requests[|answers|], |rep|)
    requires AnswersClosure(answers, requests, |rep|, roots) && (roots ==> AllCurrent(answers, requests, rep))
    requires Represents(rep, PairsBefore(requests, |answers|)) && (roots ==> RootsLabelThemselves(rep))
    requires !requests[|answers|].Unite? ==> rep' == rep
    ensures var more := answers + [FromLabels(requests[|answers|], rep, roots)];
            AnswersClosure(more, requests, |rep|, roots) && (roots ==> AllCurrent(more, requests, rep'))
  {
    var k := |answers|;
    var more := answers + [FromLabels(requests[k], rep, roots)];
    AnswerIsRight(requests, k, rep, roots);
    if roots {
      forall i, j | 0 <= i < j < |more|
        ensures SameRoots(more, requests, i, j)
      {
        if j < k {
          assert SameRoots(answers, requests, i, j);
        } else if requests[k].FindRoot? {
          CurrentIsSame(answers, requests, rep, i);
        }
      }
      forall j | 0 <= j < |more|
        ensures Current(more, requests, rep', j)
      {
        if j < k && NoUnite(requests, j, k + 1) {
          assert Current(answers, requests, rep, j) && NoUnite(requests, j, k);
        }
      }
    }
  }

  method RunQuickFind(n: nat, requests: seq<Request>) returns (answers: seq<Answer>)
    requires InRange(requests, n)
    ensures |answers| == |requests| && AnswersClosure(answers, requests, n, false)
  {
    var uf := new QuickFindUF(n);
    answers := [];
    for k := 0 to |requests|
      invariant uf.Valid() && uf.id.Length == n && fresh(uf) && fresh(uf.id) && uf.pairs == PairsBefore(requests, k)
      invariant |answers| == k && AnswersClosure(answers, requests, n, false)
    {
      assert RequestInRange(requests[k], n);
      ghost var rep := uf.id[..];
      var answer := Done;
      match requests[k] {
        case Ask(p, q) =>
          var joined := uf.Connected(p, q);
          answer := Said(joined);
        case Unite(p, q) =>
          uf.Union(p, q);
        case FindRoot(_) =>
      }
      AnswerNext(answers, requests, rep, uf.id[..], false);
      answers := answers + [answer];
    }
  }

  method RunQuickUnion(n: nat, requests: seq<Request>) returns (answers: seq<Answer>)
    requires InRange(requests, n)
    ensures |answers| == |requests| && AnswersClosure(answers, requests, n, true)
  {
    var uf := new QuickUnionUF(n);
    answers := [];
    for k := 0 to |requests|
      invariant uf.Valid() && uf.id.Length == n && fresh(uf) && fresh(uf.id) && uf.pairs == PairsBefore(requests, k)
      invariant |answers| == k && AnswersClosure(answers, requests, n, true) && AllCurrent(answers, requests, uf.rep)
    {
      assert RequestInRange(requests[k], n);
      ghost var rep := uf.rep;
      ForestRoots(uf.id[..], uf.rep, uf.rank, uf.top);
      var answer := Done;
      match requests[k] {
        case Ask(p, q) =>
          var joined := uf.Connected(p, q);
          answer := Said(joined);
        case Unite(p, q) =>
          uf.Union(p, q);
        case FindRoot(i) =>
          var root := uf.Root(i);
          answer := RootIs(root);
      }
      AnswerNext(answers, requests, rep, uf.rep, true);
      answers := answers + [answer];
    }
  }

  lemma ForestRoots(id: seq<int>, rep: seq<int>, rank: seq<int>, top: int)
    requires Forest(id, rep, rank, top)
    ensures RootsLabelThemselves(rep)
  {
    forall i | 0 <= i < |rep|
      ensures 0 <= rep[i] < |rep| && rep[rep[i]] == rep[i]
    {
      assert GoodLink(id, rep, rank, top, i);
      assert GoodLink(id, rep, rank, top, rep[i]);
    }
  }

  /** Roots and tree sizes after the first `k` requests. */
  ghost function TreesAfter(n: nat, requests: seq<Request>, k: nat): Trees
    requires k <= |requests|
  {
    if k == 0 then Singletons(n) else TreesNext(TreesAfter(n, requests, k - 1), requests[k - 1])
  }

  ghost function TreesNext(t: Trees, r: Request): Trees {
    if r.Unite? && Labelled(t, r.p) && Labelled(t, r.q) then Joined(t, r.p, r.q) else t
  }

  predicate Labelled(t: Trees, p: int) {
    0 <= p < |t.rep| && 0 <= t.rep[p] < |t.sz|
  }

  /** The roots given are those of the trees. */
  ghost predicate RootsBySize(answers: seq<Answer>, requests: seq<Request>, n: nat) {
    |answers| <= |requests| && forall k :: 0 <= k < |answers| ==> RootBySize(answers[k], requests, k, n)
  }

  ghost predicate RootBySize(a: Answer, requests: seq<Request>, k: nat, n: nat)
    requires k < |requests|
  {
    requests[k].FindRoot? ==>
      var rep := TreesAfter(n, requests, k).rep;
      0 <= requests[k].i < |rep| && a == RootIs(rep[requests[k].i])
  }

  method WeightedAnswer(uf: WeightedQuickUnionUF, r: Request) returns (answer: Answer)
    requires uf.Valid() && RequestInRange(r, uf.id.Length)
    modifies uf, uf.id, uf.sz
    ensures uf.Valid() && answer == FromLabels(r, old(uf.rep), true) && RootsLabelThemselves(old(uf.rep))
    ensures uf.pairs == old(uf.pairs) + (if r.Unite? then {(r.p, r.q)} else {})
    ensures Trees(uf.rep, uf.sz[..]) == TreesNext(old(Trees(uf.rep, uf.sz[..])), r)
  {
    ForestRoots(uf.id[..], uf.rep, uf.sz[..], uf.id.Length);
    answer := Done;
    match r
    case Ask(p, q) =>
      var joined := uf.Connected(p, q);
      answer := Said(joined);
      assert (uf.rep[p] == uf.rep[q]) == Linked(uf.pairs, p, q);
    case Unite(p, q) =>
      uf.Union(p, q);
    case FindRoot(i) =>
      var root, _ := uf.Root(i);
      answer := RootIs(root);
  }

  method RunWeightedQuickUnion(n: nat, requests: seq<Request>) returns (answers: seq<Answer>)
    requires InRange(requests, n)
    ensures |answers| == |requests| && AnswersClosure(answers, requests, n, true)
    ensures RootsBySize(answers, requests, n)
  {
    var uf := new WeightedQuickUnionUF(n);
    answers := [];
    for k := 0 to |requests|
      invariant uf.Valid() && uf.id.Length == n && fresh(uf) && fresh(uf.id) && fresh(uf.sz)
      invariant uf.pairs == PairsBefore(requests, k) && Trees(uf.rep, uf.sz[..]) == TreesAfter(n, requests, k)
      invariant |answers| == k && AnswersClosure(answers, requests, n, true) && AllCurrent(answers, requests, uf.rep)
      invariant RootsBySize(answers, requests, n)
    {
      assert RequestInRange(requests[k], n);
      ghost var rep := uf.rep;
      var answer := WeightedAnswer(uf, requests[k]);
      AnswerNext(answers, requests, rep, uf.rep, true);
      answers := answers + [answer];
    }
  }

  method HalvingAnswer(uf: PathCompressionWeightedQuickUnionUF, r: Request) returns (answer: Answer)
    requires uf.Valid() && RequestInRange(r, uf.id.Length)
    modifies uf, uf.id, uf.sz
    ensures uf.Valid() && answer == FromLabels(r, old(uf.rep), true) && RootsLabelThemselves(old(uf.rep))
    ensures uf.pairs == old(uf.pairs) + (if r.Unite? then {(r.p, r.q)} else {})
    ensures Trees(uf.rep, uf.sz[..]) == TreesNext(old(Trees(uf.rep, uf.sz[..])), r)
  {
    ForestRoots(uf.id[..], uf.rep, uf.sz[..], uf.id.Length);
    answer := Done;
    match r
    case Ask(p, q) =>
      var joined := uf.Connected(p, q);
      answer := Said(joined);
      assert (uf.rep[p] == uf.rep[q]) == Linked(uf.pairs, p, q);
    case Unite(p, q) =>
      uf.Union(p, q);
    case FindRoot(i) =>
      var root, _ := uf.Root(i);
      answer := RootIs(root);
  }

  method RunPathCompressionWeightedQuickUnion(n: nat, requests: seq<Request>) returns (answers: seq<Answer>)
    requires InRange(requests, n)
    ensures |answers| == |requests| && AnswersClosure(answers, requests, n, true)
    ensures RootsBySize(answers, requests, n)
  {
    var uf := new PathCompressionWeightedQuickUnionUF(n);
    answers := [];
    for k := 0 to |requests|
      invariant uf.Valid() && uf.id.Length == n && fresh(uf) && fresh(uf.id) && fresh(uf.sz)
      invariant uf.pairs == PairsBefore(requests, k) && Trees(uf.rep, uf.sz[..]) == TreesAfter(n, requests, k)
      invariant |answers| == k && AnswersClosure(answers, requests, n, true) && AllCurrent(answers, requests, uf.rep)
      invariant RootsBySize(answers, requests, n)
    {
      assert RequestInRange(requests[k], n);
      ghost var rep := uf.rep;
      var answer := HalvingAnswer(uf, requests[k]);
      AnswerNext(answers, requests, rep, uf.rep, true);
      answers := answers + [answer];
    }
  }

  /** Two single nodes: the second one goes below the first. */
  lemma TieGoesToFirst()
    ensures TreesAfter(2, [Unite(0, 1)], 1).rep == [0, 0]
  {
    var t := Singletons(2);
    assert TreesAfter(2, [Unite(0, 1)], 0) == t && Labelled(t, 0) && Labelled(t, 1);
    assert TreesAfter(2, [Unite(0, 1)], 1) == Joined(t, 0, 1);
  }

  /** On every run of connected, union and root in any order, all four classes say the same to connected,
      and the two that weigh their trees have the same roots, halving or not. */
  method SameAnswers(n: nat, requests: seq<Request>)
    returns (quickFind: seq<Answer>, quickUnion: seq<Answer>, weighted: seq<Answer>, halving: seq<Answer>)
    requires InRange(requests, n)
    ensures |quickFind| == |quickUnion| == |weighted| == |requests|
    ensures AnswersClosure(quickFind, requests, n, false) && AnswersClosure(quickUnion, requests, n, true)
    ensures AnswersClosure(weighted, requests, n, true)
    ensures forall k :: 0 <= k < |requests| && requests[k].Ask? ==> quickFind[k] == quickUnion[k] == weighted[k]
    ensures weighted == halving
  {
    quickFind := RunQuickFind(n, requests);
    quickUnion := RunQuickUnion(n, requests);
    weighted := RunWeightedQuickUnion(n, requests);
    halving := RunPathCompressionWeightedQuickUnion(n, requests);
    forall k | 0 <= k < |requests|
      ensures weighted[k] == halving[k]
    {
      assert IsRight(weighted[k], requests, k, n, true) && IsRight(halving[k], requests, k, n, true);
      assert RootBySize(weighted[k], requests, k, n) && RootBySize(halving[k], requests, k, n);
    }
    forall k | 0 <= k < |requests| && requests[k].Ask?
      ensures quickFind[k] == quickUnion[k] == weighted[k]
    {
      assert IsRight(quickFind[k], requests, k, n, false) && IsRight(quickUnion[k], requests, k, n, true);
      assert IsRight(weighted[k], requests, k, n, true);
    }
  }
}
