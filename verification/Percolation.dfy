/** Percolation.java: an n-by-n grid whose sites are opened one by one, kept in two union-find
    objects over the sites and two virtual nodes. Sites are 0-based here, as in the grid. */
module Percolation {
  import opened Graph
  import opened UnionFind

  datatype Site = Site(row: int, col: int)

  /** What a call gives back: a value, or the thrown IllegalArgumentException. */
  datatype Result<T> = Returned(value: T) | IllegalArgument

  // ---------- the grid, without any union-find ----------

  predicate InGrid(n: int, s: Site) {
    0 <= s.row < n && 0 <= s.col < n
  }

  predicate Touching(s: Site, t: Site) {
    || (s.row == t.row && (s.col == t.col + 1 || t.col == s.col + 1))
    || (s.col == t.col && (s.row == t.row + 1 || t.row == s.row + 1))
  }

  ghost function OpenLinks(sites: set<Site>): set<(Site, Site)> {
    set s, t | s in sites && t in sites && Touching(s, t) :: (s, t)
  }

  /** A walk over open sites, each touching the next, joins `s` to the top row. */
  ghost predicate Full(sites: set<Site>, s: Site) {
    && s in sites
    && exists top :: top in sites && top.row == 0 && Linked(OpenLinks(sites), top, s)
  }

  /** Such a walk joins the top row to the bottom row. */
  ghost predicate Percolates(n: int, sites: set<Site>) {
    exists bottom :: bottom in sites && bottom.row == n - 1 && Full(sites, bottom)
  }

  // ---------- the pairs the two union-finds have recorded ----------

  function Index(n: int, s: Site): int {
    s.row * n + s.col
  }

  lemma IndexInRange(n: int, s: Site)
    requires InGrid(n, s)
    ensures 0 <= Index(n, s) < n * n
  {
    assert s.row * n <= (n - 1) * n;
  }

  lemma IndexInjective(n: int, s: Site, t: Site)
    requires InGrid(n, s) && InGrid(n, t) && Index(n, s) == Index(n, t)
    ensures s == t
  {
    if s.row < t.row {
      RowsApart(s.row, t.row, n);
    }
    if t.row < s.row {
      RowsApart(t.row, s.row, n);
    }
  }

  lemma RowsApart(x: int, y: int, n: int)
    requires x < y && n > 0
    ensures x * n + n <= y * n
  {
    var d := y - x - 1;
    assert y * n == (d + 1 + x) * n == d * n + n + x * n;
  }

  /** The pairs that ought to be recorded: the virtual top node with an open site of the top row,
      the virtual bottom node, if it takes part, with one of the bottom row, and open sites that
      touch. */
  ghost predicate Lawful(n: int, sites: set<Site>, bottom: bool, e: (int, int)) {
    || (exists s :: s in sites && s.row == 0 && e == (n * n, Index(n, s)))
    || (bottom && exists s :: s in sites && s.row == n - 1 && e == (n * n + 1, Index(n, s)))
    || (exists s, t :: s in sites && t in sites && Touching(s, t) && e == (Index(n, s), Index(n, t)))
  }

  /** Up to direction, `pairs` holds exactly the lawful pairs. */
  ghost predicate Records(n: int, sites: set<Site>, pairs: set<(int, int)>, bottom: bool) {
    forall e {:trigger Lawful(n, sites, bottom, e)} ::
      && (e in pairs ==> Lawful(n, sites, bottom, e))
      && (Lawful(n, sites, bottom, e) ==> Adjacent(pairs, e.0, e.1))
  }

  ghost predicate Inside(n: int, sites: set<Site>) {
    forall s :: s in sites ==> InGrid(n, s)
  }

  lemma FullSpreads(sites: set<Site>, s: Site, t: Site)
    requires Full(sites, s) && t in sites && Touching(s, t)
    ensures Full(sites, t)
  {
    var links := OpenLinks(sites);
    var top :| top in sites && top.row == 0 && Linked(links, top, s);
    assert (s, t) in links;
    LinkedByPair(links, s, t);
    LinkedTransitive(links, top, s, t);
  }

  /** A walk over open sites is also one over the recorded pairs. */
  lemma WalkIsRecorded(n: int, sites: set<Site>, pairs: set<(int, int)>, bottom: bool, s: Site, t: Site)
    requires Records(n, sites, pairs, bottom) && s in sites
    requires Linked(OpenLinks(sites), s, t)
    ensures Linked(pairs, Index(n, s), Index(n, t))
  {
    var region := set x | x in sites && Linked(pairs, Index(n, s), Index(n, x));
    LinkedReflexive(pairs, Index(n, s));
    forall a, b | Adjacent(OpenLinks(sites), a, b) && a in region
      ensures b in region
    {
      assert Touching(a, b) && b in sites;
      assert Lawful(n, sites, bottom, (Index(n, a), Index(n, b)));
      LinkedByPair(pairs, Index(n, a), Index(n, b));
      LinkedTransitive(pairs, Index(n, s), Index(n, a), Index(n, b));
    }
    WalkStaysInside(OpenLinks(sites), region, s, t);
  }

  lemma FullIsRecorded(n: int, sites: set<Site>, pairs: set<(int, int)>, bottom: bool, s: Site)
    requires Records(n, sites, pairs, bottom) && Full(sites, s)
    ensures Linked(pairs, n * n, Index(n, s))
  {
    var top :| top in sites && top.row == 0 && Linked(OpenLinks(sites), top, s);
    WalkIsRecorded(n, sites, pairs, bottom, top, s);
    assert Lawful(n, sites, bottom, (n * n, Index(n, top)));
    LinkedByPair(pairs, n * n, Index(n, top));
    LinkedTransitive(pairs, n * n, Index(n, top), Index(n, s));
  }

  /** The virtual top node together with the full sites. */
  ghost function TopRegion(n: int, sites: set<Site>): set<int> {
    {n * n} + set x | x in sites && Full(sites, x) :: Index(n, x)
  }

  /** As long as no recorded pair leads from a full site to the virtual bottom node, the component
      of the virtual top node is the top region: no walk can leave it. */
  lemma TopComponent(n: int, sites: set<Site>, pairs: set<(int, int)>, bottom: bool, v: int)
    requires Inside(n, sites) && Records(n, sites, pairs, bottom)
    requires bottom ==> !Percolates(n, sites)
    requires Linked(pairs, n * n, v)
    ensures v in TopRegion(n, sites)
  {
    var region := TopRegion(n, sites);
    forall a, b | Adjacent(pairs, a, b) && a in region
      ensures b in region
    {
      var e := if (a, b) in pairs then (a, b) else (b, a);
      assert Lawful(n, sites, bottom, e);
      if s :| s in sites && s.row == 0 && e == (n * n, Index(n, s)) {
        LinkedReflexive(OpenLinks(sites), s);
        assert Full(sites, s);
      } else if s, t :| s in sites && t in sites && Touching(s, t) && e == (Index(n, s), Index(n, t)) {
        var here, there := if e == (a, b) then s else t, if e == (a, b) then t else s;
        FullAt(n, sites, here);
        FullSpreads(sites, here, there);
      } else {
        var s :| s in sites && s.row == n - 1 && e == (n * n + 1, Index(n, s));
        BottomStaysOut(n, sites, s);
        assert false;
      }
    }
    WalkStaysInside(pairs, region, n * n, v);
  }

  lemma FullAt(n: int, sites: set<Site>, s: Site)
    requires Inside(n, sites) && s in sites && Index(n, s) in TopRegion(n, sites)
    ensures Full(sites, s)
  {
    IndexInRange(n, s);
    var x :| x in sites && Full(sites, x) && Index(n, s) == Index(n, x);
    IndexInjective(n, s, x);
  }

  lemma NotASite(n: int, sites: set<Site>, v: int)
    requires Inside(n, sites) && v > n * n
    ensures v !in TopRegion(n, sites)
  {
    if v in TopRegion(n, sites) {
      var x :| x in sites && Full(sites, x) && v == Index(n, x);
      IndexInRange(n, x);
    }
  }

  lemma BottomStaysOut(n: int, sites: set<Site>, s: Site)
    requires Inside(n, sites) && s in sites && s.row == n - 1 && !Percolates(n, sites)
    ensures n * n + 1 !in TopRegion(n, sites) && Index(n, s) !in TopRegion(n, sites)
  {
    NotASite(n, sites, n * n + 1);
    if Index(n, s) in TopRegion(n, sites) {
      FullAt(n, sites, s);
    }
  }

  /** Without the bottom node, being joined to the top node is being full, even when the grid
      percolates: no backwash. */
  lemma NoBackwash(n: int, sites: set<Site>, pairs: set<(int, int)>, s: Site)
    requires Inside(n, sites) && Records(n, sites, pairs, false) && s in sites
    ensures Linked(pairs, n * n, Index(n, s)) <==> Full(sites, s)
  {
    if Linked(pairs, n * n, Index(n, s)) {
      TopComponent(n, sites, pairs, false, Index(n, s));
      FullAt(n, sites, s);
    }
    if Full(sites, s) {
      FullIsRecorded(n, sites, pairs, false, s);
    }
  }

  /** With the bottom node, the two virtual nodes are joined exactly when the grid percolates. */
  lemma VirtualNodesJoined(n: int, sites: set<Site>, pairs: set<(int, int)>)
    requires Inside(n, sites) && Records(n, sites, pairs, true)
    ensures Linked(pairs, n * n, n * n + 1) <==> Percolates(n, sites)
  {
    if Percolates(n, sites) {
      var bottom :| bottom in sites && bottom.row == n - 1 && Full(sites, bottom);
      FullIsRecorded(n, sites, pairs, true, bottom);
      assert Lawful(n, sites, true, (n * n + 1, Index(n, bottom)));
      LinkedByPair(pairs, Index(n, bottom), n * n + 1);
      LinkedTransitive(pairs, n * n, Index(n, bottom), n * n + 1);
    } else if Linked(pairs, n * n, n * n + 1) {
      TopComponent(n, sites, pairs, true, n * n + 1);
      NotASite(n, sites, n * n + 1);
    }
  }

  /** The pairs that `Union` adds when `p` has just been opened. */
  ghost function NeighbourPairs(n: int, sites: set<Site>, p: Site): set<(int, int)> {
    set q | q in sites && Touching(p, q) :: (Index(n, p), Index(n, q))
  }

  /** The pairs that `open` adds for the virtual nodes. */
  ghost function VirtualPairs(n: int, p: Site, bottom: bool): set<(int, int)> {
    (if p.row == 0 then {(n * n, Index(n, p))} else {})
    + (if bottom && p.row == n - 1 then {(n * n + 1, Index(n, p))} else {})
  }

  lemma OpeningRecords(n: int, sites: set<Site>, pairs: set<(int, int)>, bottom: bool, p: Site)
    requires Records(n, sites, pairs, bottom)
    ensures Records(n, sites + {p}, pairs + VirtualPairs(n, p, bottom) + NeighbourPairs(n, sites + {p}, p), bottom)
  {
    var sites' := sites + {p};
    var pairs' := pairs + VirtualPairs(n, p, bottom) + NeighbourPairs(n, sites', p);
    forall e: (int, int)
      ensures e in pairs' ==> Lawful(n, sites', bottom, e)
      ensures Lawful(n, sites', bottom, e) ==> Adjacent(pairs', e.0, e.1)
    {
      assert Lawful(n, sites, bottom, e) || !Lawful(n, sites, bottom, e);
      if s, t :| s in sites' && t in sites' && Touching(s, t) && e == (Index(n, s), Index(n, t)) {
        if s == p {
          assert e in NeighbourPairs(n, sites', p);
        } else if t == p {
          assert (e.1, e.0) in NeighbourPairs(n, sites', p);
        } else {
          assert Lawful(n, sites, bottom, e);
        }
      }
      if e in NeighbourPairs(n, sites', p) {
        assert Lawful(n, sites', bottom, e);
      }
    }
  }

  const DIRECTIONS: seq<int> := [-1, 0, 0, 1, 1, 0, 0, -1]

  /** The pair added by the `k`-th of the four directions, if that neighbour is open. */
  ghost function DirectionPair(n: int, sites: set<Site>, p: Site, k: nat): set<(int, int)>
    requires k < 4
  {
    var q := Site(p.row + DIRECTIONS[2 * k], p.col + DIRECTIONS[2 * k + 1]);
    if q in sites then {(Index(n, p), Index(n, q))} else {}
  }

  ghost function DirectionPairs(n: int, sites: set<Site>, p: Site, k: nat): set<(int, int)>
    requires k <= 4
  {
    if k == 0 then {} else DirectionPairs(n, sites, p, k - 1) + DirectionPair(n, sites, p, k - 1)
  }

  lemma DirectionsCover(n: int, sites: set<Site>, p: Site)
    ensures DirectionPairs(n, sites, p, 4) == NeighbourPairs(n, sites, p)
  {
    var up, right := Site(p.row - 1, p.col), Site(p.row, p.col + 1);
    var down, left := Site(p.row + 1, p.col), Site(p.row, p.col - 1);
    assert forall q :: Touching(p, q) <==> q == up || q == right || q == down || q == left;
    assert DirectionPair(n, sites, p, 0) == if up in sites then {(Index(n, p), Index(n, up))} else {};
    assert DirectionPair(n, sites, p, 1) == if right in sites then {(Index(n, p), Index(n, right))} else {};
    assert DirectionPair(n, sites, p, 2) == if down in sites then {(Index(n, p), Index(n, down))} else {};
    assert DirectionPair(n, sites, p, 3) == if left in sites then {(Index(n, p), Index(n, left))} else {};
    assert DirectionPairs(n, sites, p, 1) == DirectionPair(n, sites, p, 0);
    assert DirectionPairs(n, sites, p, 2) == DirectionPairs(n, sites, p, 1) + DirectionPair(n, sites, p, 1);
    assert DirectionPairs(n, sites, p, 3) == DirectionPairs(n, sites, p, 2) + DirectionPair(n, sites, p, 2);
  }

  // ---------- the class ----------

  class Percolation {
    const rows: int
    const cols: int
    const grid: array2<bool>
    var openSites: int
    const uf: WeightedQuickUnionUF
    const backwashUf: WeightedQuickUnionUF
    const virtualNode1: int
    const virtualNode2: int
    ghost var sites: set<Site>

    ghost function Footprint(): set<object> {
      {this, grid, uf, uf.id, uf.sz, backwashUf, backwashUf.id, backwashUf.sz}
    }

    ghost predicate Valid()
      reads this, grid, uf, uf.id, uf.sz, backwashUf, backwashUf.id, backwashUf.sz
    {
      && Unions() && GridMatches() && openSites == |sites|
      && Records(rows, sites, uf.pairs, true)
      && Records(rows, sites, backwashUf.pairs, false)
    }

    ghost predicate Shape() {
      && 0 < rows == cols == grid.Length0 == grid.Length1
      && uf.id.Length == backwashUf.id.Length == rows * rows + 2
      && virtualNode1 == rows * rows && virtualNode2 == rows * rows + 1
      && uf != backwashUf
      && uf.id != backwashUf.id && uf.id != backwashUf.sz && uf.sz != backwashUf.id && uf.sz != backwashUf.sz
    }

    ghost predicate GridMatches()
      requires Shape()
      reads this, grid
    {
      && Inside(rows, sites)
      && forall r, c :: 0 <= r < rows && 0 <= c < rows ==> (grid[r, c] <==> Site(r, c) in sites)
    }

    constructor (n: int)
      requires n > 0
      ensures Valid() && fresh(Footprint()) && rows == n && sites == {}
    {
      rows, cols, openSites, sites := n, n, 0, {};
      grid := new bool[n, n];
      uf := new WeightedQuickUnionUF(n * n + 2);
      backwashUf := new WeightedQuickUnionUF(n * n + 2);
      virtualNode1, virtualNode2 := n * n, n * n + 1;
      new;
      for i := 0 to rows
        invariant Shape() && uf.Valid() && backwashUf.Valid() && sites == {} && openSites == 0
        invariant uf.pairs == {} && backwashUf.pairs == {}
        invariant forall r, c :: 0 <= r < i && 0 <= c < cols ==> !grid[r, c]
      {
        for j := 0 to cols
          invariant Shape() && uf.Valid() && backwashUf.Valid() && sites == {} && openSites == 0
          invariant uf.pairs == {} && backwashUf.pairs == {}
          invariant forall r, c :: 0 <= r < i && 0 <= c < cols ==> !grid[r, c]
          invariant forall c :: 0 <= c < j ==> !grid[i, c]
        {
          grid[i, j] := false;
        }
      }
    }

    method IsOpen(row: int, col: int) returns (r: Result<bool>)
      requires Valid()
      ensures r == if InGrid(rows, Site(row - 1, col - 1)) then Returned(Site(row - 1, col - 1) in sites) else IllegalArgument
    {
      if row - 1 < 0 || col - 1 < 0 || row - 1 >= rows || col - 1 >= cols {
        return IllegalArgument;
      }
      r := Returned(grid[row - 1, col - 1]);
    }

    /** Opens a site; opening it again, or a site outside the grid, changes nothing. */
    method Open(row: int, col: int) returns (r: Result<()>)
      requires Valid()
      modifies this, grid, uf, uf.id, uf.sz, backwashUf, backwashUf.id, backwashUf.sz
      ensures Valid()
      ensures r == if InGrid(rows, Site(row - 1, col - 1)) then Returned(()) else IllegalArgument
      ensures sites == if r.Returned? then old(sites) + {Site(row - 1, col - 1)} else old(sites)
    {
      var isOpen := IsOpen(row, col);
      if isOpen.IllegalArgument? {
        return IllegalArgument;
      }
      r := Returned(());
      if isOpen.value {
        return;
      }
      OpenBlocked(row - 1, col - 1);
    }

    method OpenBlocked(row: int, col: int)
      requires Valid() && InGrid(rows, Site(row, col)) && Site(row, col) !in sites
      modifies this, grid, uf, uf.id, uf.sz, backwashUf, backwashUf.id, backwashUf.sz
      ensures Valid() && sites == old(sites) + {Site(row, col)}
    {
      ghost var p, was, ufPairs, backwashPairs := Site(row, col), sites, uf.pairs, backwashUf.pairs;
      OpeningRecords(rows, was, ufPairs, true, p);
      OpeningRecords(rows, was, backwashPairs, false, p);
      Mark(row, col);
      Unite(row, col);
    }

    /** The grid and the counter. */
    method Mark(row: int, col: int)
      requires Shape() && GridMatches() && openSites == |sites|
      requires InGrid(rows, Site(row, col)) && Site(row, col) !in sites
      modifies this`sites, this`openSites, grid
      ensures GridMatches() && openSites == |sites| && sites == old(sites) + {Site(row, col)}
    {
      grid[row, col] := true;
      sites := sites + {Site(row, col)};
      openSites := openSites + 1;
    }

    /** Both objects are usable and cannot interfere. */
    ghost predicate Unions()
      reads this, uf, uf.id, uf.sz, backwashUf, backwashUf.id, backwashUf.sz
    {
      Shape() && uf.Valid() && backwashUf.Valid()
    }

    method UniteInBoth(p: int, q: int)
      requires Unions() && 0 <= p < uf.id.Length && 0 <= q < uf.id.Length
      modifies uf, uf.id, uf.sz, backwashUf, backwashUf.id, backwashUf.sz
      ensures Unions()
      ensures uf.pairs == old(uf.pairs) + {(p, q)} && backwashUf.pairs == old(backwashUf.pairs) + {(p, q)}
    {
      uf.Union(p, q);
      backwashUf.Union(p, q);
    }

    /** Unites an open site with the virtual nodes it belongs to and with its open neighbours;
        only `uf` hears of the virtual bottom node. */
    method Unite(row: int, col: int)
      requires Unions() && GridMatches() && InGrid(rows, Site(row, col))
      modifies uf, uf.id, uf.sz, backwashUf, backwashUf.id, backwashUf.sz
      ensures Unions()
      ensures uf.pairs == old(uf.pairs) + VirtualPairs(rows, Site(row, col), true)
                          + NeighbourPairs(rows, sites, Site(row, col))
      ensures backwashUf.pairs == old(backwashUf.pairs) + VirtualPairs(rows, Site(row, col), false)
                                  + NeighbourPairs(rows, sites, Site(row, col))
    {
      IndexInRange(rows, Site(row, col));
      if row == 0 {
        UniteInBoth(virtualNode1, row * rows + col);
      }
      if row == rows - 1 {
        uf.Union(virtualNode2, row * rows + col);
      }
      assert uf.pairs == old(uf.pairs) + VirtualPairs(rows, Site(row, col), true);
      assert backwashUf.pairs == old(backwashUf.pairs) + VirtualPairs(rows, Site(row, col), false);
      Union(row, col);
    }

    /** Unites an open site with its open neighbours in the four directions, in both objects. */
    method Union(row: int, col: int)
      requires Unions() && GridMatches() && InGrid(rows, Site(row, col))
      modifies uf, uf.id, uf.sz, backwashUf, backwashUf.id, backwashUf.sz
      ensures Unions()
      ensures uf.pairs == old(uf.pairs) + NeighbourPairs(rows, sites, Site(row, col))
      ensures backwashUf.pairs == old(backwashUf.pairs) + NeighbourPairs(rows, sites, Site(row, col))
    {
      ghost var ufPairs, backwashPairs := uf.pairs, backwashUf.pairs;
      for k := 0 to 4
        invariant Unions()
        invariant uf.pairs == ufPairs + DirectionPairs(rows, sites, Site(row, col), k)
        invariant backwashUf.pairs == backwashPairs + DirectionPairs(rows, sites, Site(row, col), k)
      {
        UniteTowards(row, col, k);
      }
      DirectionsCover(rows, sites, Site(row, col));
    }

    /** One turn of the loop over the directions. */
    method UniteTowards(row: int, col: int, k: nat)
      requires Unions() && GridMatches() && InGrid(rows, Site(row, col)) && k < 4
      modifies uf, uf.id, uf.sz, backwashUf, backwashUf.id, backwashUf.sz
      ensures Unions()
      ensures uf.pairs == old(uf.pairs) + DirectionPair(rows, sites, Site(row, col), k)
      ensures backwashUf.pairs == old(backwashUf.pairs) + DirectionPair(rows, sites, Site(row, col), k)
    {
      var nx := row + DIRECTIONS[2 * k];
      var ny := col + DIRECTIONS[2 * k + 1];
      if 0 <= nx < rows && 0 <= ny < cols {
        if grid[nx, ny] {
          IndexInRange(rows, Site(row, col));
          IndexInRange(rows, Site(nx, ny));
          UniteInBoth(row * rows + col, nx * rows + ny);
        }
      }
    }

    method IsFull(row: int, col: int) returns (r: Result<bool>)
      requires Valid()
      ensures r == if InGrid(rows, Site(row - 1, col - 1)) then Returned(Full(sites, Site(row - 1, col - 1))) else IllegalArgument
    {
      r := IsOpen(row, col);
      if r.IllegalArgument? || !r.value {
        return;
      }
      var row', col' := row - 1, col - 1;
      IndexInRange(rows, Site(row', col'));
      NoBackwash(rows, sites, backwashUf.pairs, Site(row', col'));
      var top, _ := backwashUf.Root(virtualNode1);
      var here, _ := backwashUf.Root(row' * cols + col');
      assert Represents(backwashUf.rep, backwashUf.pairs);
      r := Returned(top == here);
    }

    method NumberOfOpenSites() returns (count: int)
      requires Valid()
      ensures count == |sites|
    {
      count := openSites;
    }

    method Connected(p: int, q: int) returns (c: bool)
      requires Shape() && uf.Valid() && 0 <= p < uf.id.Length && 0 <= q < uf.id.Length
      ensures c <==> Linked(uf.pairs, p, q)
    {
      var proot, _ := uf.Root(p);
      var qroot, _ := uf.Root(q);
      c := proot == qroot;
    }

    method PercolatesNow() returns (b: bool)
      requires Valid()
      ensures b <==> Percolates(rows, sites)
    {
      b := Connected(virtualNode1, virtualNode2);
      VirtualNodesJoined(rows, sites, uf.pairs);
    }
  }

  /** The Java constructor, which throws for a grid without sites. */
  method Create(n: int) returns (r: Result<Percolation>)
    ensures r.Returned? <==> n > 0
    ensures r.Returned? ==> r.value.Valid() && fresh(r.value.Footprint()) && r.value.rows == n && r.value.sites == {}
  {
    if n <= 0 {
      return IllegalArgument;
    }
    var percolation := new Percolation(n);
    r := Returned(percolation);
  }
}
