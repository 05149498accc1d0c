/** PercolationStats.java: open the sites in random order until the grid percolates, and how
    early and how late that can happen. */
module PercolationStats {
  import opened Sequences
  import opened Graph
  import opened Percolation

  // ---------- counting sites ----------

  /** The row of a site, or its column. */
  function Line(byRow: bool, x: Site): int {
    if byRow then x.row else x.col
  }

  ghost predicate Meets(s: set<Site>, byRow: bool, k: int) {
    exists x :: x in s && Line(byRow, x) == k
  }

  /** A set with a site on each of `n` lines (rows or columns) has at least `n` sites. */
  lemma {:induction false} OnePerLine(s: set<Site>, byRow: bool, n: nat)
    requires forall k :: 0 <= k < n ==> Meets(s, byRow, k)
    ensures |s| >= n
    decreases n
  {
    if n > 0 {
      assert Meets(s, byRow, n - 1);
      var x :| x in s && Line(byRow, x) == n - 1;
      var rest := s - {x};
      forall k | 0 <= k < n - 1
        ensures Meets(rest, byRow, k)
      {
        assert Meets(s, byRow, k);
        var y :| y in s && Line(byRow, y) == k;
        assert y in rest;
      }
      OnePerLine(rest, byRow, n - 1);
    }
  }

  function Row(r: int, n: int): set<Site> {
    set c | 0 <= c < n :: Site(r, c)
  }

  function Rectangle(rows: int, cols: int): set<Site> {
    set r, c | 0 <= r < rows && 0 <= c < cols :: Site(r, c)
  }

  lemma {:induction false} RowSize(r: int, n: nat)
    ensures |Row(r, n)| == n
    decreases n
  {
    if n == 0 {
      assert Row(r, n) == {};
    } else {
      RowSize(r, n - 1);
      assert Row(r, n) == Row(r, n - 1) + {Site(r, n - 1)};
    }
  }

  lemma {:induction false} RectangleSize(rows: nat, cols: nat)
    ensures |Rectangle(rows, cols)| == rows * cols
    decreases rows
  {
    if rows == 0 {
      assert Rectangle(rows, cols) == {};
    } else {
      RectangleSize(rows - 1, cols);
      RowSize(rows - 1, cols);
      assert Rectangle(rows, cols) == Rectangle(rows - 1, cols) + Row(rows - 1, cols);
      assert rows * cols == (rows - 1) * cols + cols;
    }
  }

  // ---------- how many sites a percolating grid needs, and how many another can hold ----------

  /** A crossing walk meets every row. */
  lemma CrossingMeetsRow(n: int, sites: set<Site>, r: int)
    requires Percolates(n, sites) && 0 <= r < n
    ensures Meets(sites, true, r)
  {
    var bottom :| bottom in sites && bottom.row == n - 1 && Full(sites, bottom);
    var top :| top in sites && top.row == 0 && Linked(OpenLinks(sites), top, bottom);
    if !Meets(sites, true, r) {
      assert forall x :: x in sites ==> Line(true, x) != r;
      var above := set x | x in sites && x.row < r;
      WalkStaysInside(OpenLinks(sites), above, top, bottom);
    }
  }

  lemma PercolatingNeedsN(n: nat, sites: set<Site>)
    requires Percolates(n, sites)
    ensures |sites| >= n
  {
    forall r | 0 <= r < n
      ensures Meets(sites, true, r)
    {
      CrossingMeetsRow(n, sites, r);
    }
    OnePerLine(sites, true, n);
  }

  /** An open column is a crossing. */
  lemma {:induction false} ColumnFills(sites: set<Site>, r: nat, c: int)
    requires forall k :: 0 <= k <= r ==> Site(k, c) in sites
    ensures Full(sites, Site(r, c))
  {
    if r == 0 {
      LinkedReflexive(OpenLinks(sites), Site(0, c));
    } else {
      ColumnFills(sites, r - 1, c);
      FullSpreads(sites, Site(r - 1, c), Site(r, c));
    }
  }

  lemma BlockedInColumn(n: int, sites: set<Site>, c: int) returns (x: Site)
    requires n > 0 && !Percolates(n, sites) && 0 <= c < n
    ensures InGrid(n, x) && x.col == c && x !in sites
  {
    if forall k :: 0 <= k <= n - 1 ==> Site(k, c) in sites {
      ColumnFills(sites, n - 1, c);
      assert false;
    }
    var k :| 0 <= k <= n - 1 && Site(k, c) !in sites;
    x := Site(k, c);
  }

  /** A grid that does not percolate still has a blocked site in every column. */
  lemma NonPercolatingLeavesN(n: nat, sites: set<Site>)
    requires n > 0 && Inside(n, sites) && !Percolates(n, sites)
    ensures |sites| <= n * n - n
  {
    var blocked := Rectangle(n, n) - sites;
    forall c | 0 <= c < n
      ensures Meets(blocked, false, c)
    {
      var x := BlockedInColumn(n, sites, c);
      assert x in blocked && Line(false, x) == c;
    }
    OnePerLine(blocked, false, n);
    RectangleSize(n, n);
    assert Rectangle(n, n) == blocked + sites;
  }

  // ---------- site numbers ----------

  /** The site with number `v`, numbered row by row from 1. */
  function Decode(n: int, v: int): Site
    requires n > 0
  {
    Site((v - 1) / n, (v - 1) % n)
  }

  lemma DecodeInverse(n: int, v: int)
    requires n > 0 && 1 <= v <= n * n
    ensures InGrid(n, Decode(n, v)) && Index(n, Decode(n, v)) + 1 == v
  {
    var r := (v - 1) / n;
    assert r * n + (v - 1) % n == v - 1;
    if r >= n {
      RowsApart(n - 1, r, n);
    }
  }

  lemma DivModUnique(x: int, n: int, q: int, r: int)
    requires n > 0 && x == q * n + r && 0 <= r < n
    ensures x / n == q && x % n == r
  {
    assert x == (x / n) * n + x % n;
    if x / n < q {
      RowsApart(x / n, q, n);
    }
    if q < x / n {
      RowsApart(q, x / n, n);
    }
  }

  /** The row and column that `run` computes, which count from 1. */
  lemma RowAndColumn(n: int, v: int)
    requires n > 0 && 1 <= v <= n * n
    ensures Decode(n, v) == if v % n == 0 then Site(v / n - 1, n - 1) else Site(v / n, v % n - 1)
  {
    assert v == (v / n) * n + v % n;
    if v % n == 0 {
      assert (v / n - 1) * n == (v / n) * n - n;
      DivModUnique(v - 1, n, v / n - 1, n - 1);
    } else {
      DivModUnique(v - 1, n, v / n, v % n - 1);
    }
  }

  /** `order` lists site numbers of the grid without repetition. */
  ghost predicate IsOrder(n: int, order: seq<int>) {
    && (forall k :: 0 <= k < |order| ==> 1 <= order[k] <= n * n)
    && (forall j, k :: 0 <= j < k < |order| ==> order[j] != order[k])
  }

  /** The sites open once the first `j` of `order` have been opened. */
  ghost function OpenedBy(n: int, order: seq<int>, j: nat): set<Site>
    requires n > 0 && j <= |order|
  {
    if j == 0 then {} else OpenedBy(n, order, j - 1) + {Decode(n, order[j - 1])}
  }

  lemma {:induction false} OpenedByMembers(n: int, order: seq<int>, j: nat, x: Site) returns (k: nat)
    requires n > 0 && j <= |order| && x in OpenedBy(n, order, j)
    ensures k < j && x == Decode(n, order[k])
  {
    if x == Decode(n, order[j - 1]) {
      k := j - 1;
    } else {
      k := OpenedByMembers(n, order, j - 1, x);
    }
  }

  lemma {:induction false} OpenedByCount(n: int, order: seq<int>, j: nat)
    requires n > 0 && IsOrder(n, order) && j <= |order|
    ensures |OpenedBy(n, order, j)| == j && Inside(n, OpenedBy(n, order, j))
  {
    if j > 0 {
      OpenedByCount(n, order, j - 1);
      DecodeInverse(n, order[j - 1]);
      if Decode(n, order[j - 1]) in OpenedBy(n, order, j - 1) {
        var k := OpenedByMembers(n, order, j - 1, Decode(n, order[j - 1]));
        DecodeInverse(n, order[k]);
        assert false;
      }
    }
  }

  // ---------- the shuffle ----------

  /** The site numbers in their first order. */
  function Numbers(len: nat): seq<int> {
    seq(len, k => k + 1)
  }

  function Swapped(s: seq<int>, i: int, j: int): seq<int>
    requires 0 <= i < |s| && 0 <= j < |s|
  {
    s[i := s[j]][j := s[i]]
  }

  /** What `uniformInt(i + 1)` may return for the last |picks| of `len` positions i. */
  predicate Picks(len: nat, picks: seq<int>) {
    |picks| <= len && forall k :: 0 <= k < |picks| ==> 0 <= picks[k] <= len - |picks| + k
  }

  /** Each of these positions, the last one first, is swapped with the one picked for it. */
  function Dealt(s: seq<int>, picks: seq<int>): (r: seq<int>)
    requires Picks(|s|, picks)
    ensures |r| == |s|
  {
    if picks == [] then s else Swapped(Dealt(s, picks[1..]), |s| - |picks|, picks[0])
  }

  lemma {:induction false} DealtDistinct(s: seq<int>, picks: seq<int>)
    requires Picks(|s|, picks) && Distinct(s)
    ensures Distinct(Dealt(s, picks))
  {
    if picks != [] {
      DealtDistinct(s, picks[1..]);
    }
  }

  lemma {:induction false} DealtInside(n: int, s: seq<int>, picks: seq<int>)
    requires Picks(|s|, picks) && forall k :: 0 <= k < |s| ==> 1 <= s[k] <= n
    ensures forall k :: 0 <= k < |s| ==> 1 <= Dealt(s, picks)[k] <= n
  {
    if picks != [] {
      DealtInside(n, s, picks[1..]);
    }
  }

  /** Different picks lead to different orders: already the positions dealt differ. */
  lemma {:induction false} PicksDecided(s: seq<int>, p: seq<int>, q: seq<int>)
    requires Distinct(s) && Picks(|s|, p) && Picks(|s|, q) && |p| == |q|
    requires forall k :: |s| - |p| <= k < |s| ==> Dealt(s, p)[k] == Dealt(s, q)[k]
    ensures p == q
  {
    if p != [] {
      var i := |s| - |p|;
      forall k | i < k < |s|
        ensures Dealt(s, p[1..])[k] == Dealt(s, q[1..])[k]
      {
        assert Dealt(s, p)[k] == Dealt(s, p[1..])[k] && Dealt(s, q)[k] == Dealt(s, q[1..])[k];
      }
      PicksDecided(s, p[1..], q[1..]);
      var d := Dealt(s, p[1..]);
      assert d[p[0]] == Dealt(s, p)[i] == Dealt(s, q)[i] == d[q[0]];
      DealtDistinct(s, p[1..]);
      assert p == [p[0]] + p[1..] && q == [q[0]] + q[1..];
    }
  }

  /** What the positions from `i` on should hold is there, and the rest is among the others. */
  ghost predicate OnTheWay(s: seq<int>, order: seq<int>, i: nat)
    requires i <= |s| == |order|
  {
    && (forall k :: i <= k < |s| ==> s[k] == order[k])
    && (forall k :: 0 <= k < i ==> order[k] in s[..i])
  }

  lemma DealOne(s: seq<int>, order: seq<int>, i: nat) returns (pick: nat)
    requires i < |s| == |order| && Distinct(order) && OnTheWay(s, order, i + 1)
    ensures pick <= i && OnTheWay(Swapped(s, i, pick), order, i)
  {
    assert order[i] in s[..i + 1];
    pick :| 0 <= pick <= i && s[pick] == order[i];
    var t := Swapped(s, i, pick);
    forall k | 0 <= k < i
      ensures order[k] in t[..i]
    {
      assert order[k] in s[..i + 1];
      var m :| 0 <= m <= i && s[m] == order[k];
      assert t[..i][if m == i then pick else m] == order[k];
    }
  }

  lemma PicksMore(len: nat, pick: int, later: seq<int>)
    requires Picks(len, later) && |later| < len && 0 <= pick < len - |later|
    ensures Picks(len, [pick] + later)
  {
  }

  lemma DealtMore(s: seq<int>, pick: int, later: seq<int>)
    requires Picks(|s|, later) && |later| < |s| && 0 <= pick < |s| - |later| && Picks(|s|, [pick] + later)
    ensures Dealt(s, [pick] + later) == Swapped(Dealt(s, later), |s| - |later| - 1, pick)
  {
    var picks := [pick] + later;
    assert picks[0] == pick && picks[1..] == later;
    assert Dealt(s, picks) == Swapped(Dealt(s, picks[1..]), |s| - |picks|, picks[0]);
  }

  lemma {:induction false} PicksTowards(s: seq<int>, order: seq<int>, m: nat) returns (picks: seq<int>, dealt: seq<int>)
    requires m <= |s| == |order| && Distinct(order) && OnTheWay(s, order, |s|)
    ensures |picks| == m && Picks(|s|, picks) && dealt == Dealt(s, picks) && OnTheWay(dealt, order, |s| - m)
  {
    if m == 0 {
      picks, dealt := [], s;
    } else {
      var later, before := PicksTowards(s, order, m - 1);
      var pick := DealOne(before, order, |s| - m);
      PicksMore(|s|, pick, later);
      DealtMore(s, pick, later);
      picks, dealt := [pick] + later, Swapped(before, |s| - m, pick);
    }
  }

  lemma NumbersCover(order: seq<int>)
    requires forall k :: 0 <= k < |order| ==> 1 <= order[k] <= |order|
    ensures OnTheWay(Numbers(|order|), order, |order|)
  {
    var s := Numbers(|order|);
    forall k | 0 <= k < |order|
      ensures order[k] in s[..|order|]
    {
      assert s[..|order|][order[k] - 1] == order[k];
    }
  }

  /** The picks that lead to `order` from the first order. */
  ghost predicate LeadsTo(len: nat, picks: seq<int>, order: seq<int>) {
    |picks| == len && Picks(len, picks) && Dealt(Numbers(len), picks) == order
  }

  /** Fisher and Yates: every order of the sites comes from the random numbers, and from only one
      choice of them; so if the numbers are uniform, the orders are. */
  lemma EveryOrderOnce(n: int, order: seq<int>) returns (picks: seq<int>)
    requires n > 0 && IsOrder(n, order) && |order| == n * n
    ensures LeadsTo(n * n, picks, order)
    ensures forall other :: LeadsTo(n * n, other, order) ==> other == picks
  {
    NumbersCover(order);
    var dealt;
    picks, dealt := PicksTowards(Numbers(|order|), order, |order|);
    forall other | LeadsTo(n * n, other, order)
      ensures other == picks
    {
      PicksDecided(Numbers(|order|), other, picks);
    }
  }

  // ---------- the bounds are attained ----------

  /** A trial on `order` opens `count` sites: the last of them is the first to make the grid percolate. */
  ghost predicate StopsAfter(n: int, order: seq<int>, count: nat)
    requires n > 0
  {
    && 0 < count <= |order|
    && Percolates(n, OpenedBy(n, order, count)) && !Percolates(n, OpenedBy(n, order, count - 1))
  }

  /** Column by column. */
  function ByColumn(n: int, k: int): int
    requires n > 0
  {
    Index(n, Site(k % n, k / n)) + 1
  }

  function ColumnOrder(n: nat): (order: seq<int>)
    requires n > 0
    ensures |order| == n * n && forall k :: 0 <= k < n * n ==> order[k] == ByColumn(n, k)
  {
    seq(n * n, k => ByColumn(n, k))
  }

  /** Row by row, but the first row last. */
  function TopLastOrder(n: nat): (order: seq<int>)
    requires n > 0
    ensures |order| == n * n && forall k :: 0 <= k < n * n ==> order[k] == 1 + (if k < n * n - n then k + n else k - (n * n - n))
  {
    RectangleSize(n, n);
    seq(n * n, k => 1 + (if k < n * n - n then k + n else k - (n * n - n)))
  }

  lemma ColumnSite(n: nat, k: int)
    requires n > 0 && 0 <= k < n * n
    ensures InGrid(n, Site(k % n, k / n)) && 1 <= ByColumn(n, k) <= n * n
    ensures Decode(n, ByColumn(n, k)) == Site(k % n, k / n)
  {
    var c, r := k / n, k % n;
    assert k == c * n + r;
    if c >= n {
      RowsApart(n - 1, c, n);
    }
    IndexInRange(n, Site(r, c));
    DivModUnique(r * n + c, n, r, c);
  }

  lemma ColumnSitesDiffer(n: nat, j: int, k: int)
    requires n > 0 && 0 <= j < n * n && 0 <= k < n * n && ByColumn(n, j) == ByColumn(n, k)
    ensures j == k
  {
    ColumnSite(n, j);
    ColumnSite(n, k);
    SameDivMod(j, k, n);
  }

  lemma SameDivMod(j: int, k: int, n: int)
    requires n > 0 && j / n == k / n && j % n == k % n
    ensures j == k
  {
    assert j == (j / n) * n + j % n && k == (k / n) * n + k % n;
  }

  lemma ColumnOrderIsOrder(n: nat)
    requires n > 0
    ensures IsOrder(n, ColumnOrder(n))
  {
    var order := ColumnOrder(n);
    forall k | 0 <= k < |order|
      ensures 1 <= order[k] <= n * n
    {
      ColumnSite(n, k);
    }
    forall j, k | 0 <= j < k < |order|
      ensures order[j] != order[k]
    {
      if order[j] == order[k] {
        ColumnSitesDiffer(n, j, k);
      }
    }
  }

  lemma FirstColumnOpens(n: nat)
    requires n > 0
    ensures n <= n * n && forall r :: 0 <= r <= n - 1 ==> Site(r, 0) in OpenedBy(n, ColumnOrder(n), n)
  {
    RowsApart(0, n, n);
    forall r | 0 <= r <= n - 1
      ensures Site(r, 0) in OpenedBy(n, ColumnOrder(n), n)
    {
      ColumnSite(n, r);
      DivModUnique(r, n, 0, r);
      OpenedContains(n, ColumnOrder(n), n, r);
    }
  }

  /** Opening the first column is enough. */
  lemma StopsEarly(n: nat)
    requires n > 0
    ensures StopsAfter(n, ColumnOrder(n), n)
  {
    var order := ColumnOrder(n);
    ColumnOrderIsOrder(n);
    RectangleSize(n, n);
    FirstColumnOpens(n);
    ColumnFills(OpenedBy(n, order, n), n - 1, 0);
    OpenedByCount(n, order, n - 1);
    if Percolates(n, OpenedBy(n, order, n - 1)) {
      PercolatingNeedsN(n, OpenedBy(n, order, n - 1));
    }
  }

  lemma {:induction false} OpenedContains(n: int, order: seq<int>, j: nat, k: nat)
    requires n > 0 && k < j <= |order|
    ensures Decode(n, order[k]) in OpenedBy(n, order, j)
  {
    if k < j - 1 {
      OpenedContains(n, order, j - 1, k);
    }
  }

  /** Opening all rows but the first is not. */
  lemma StopsLate(n: nat)
    requires n > 0
    ensures IsOrder(n, TopLastOrder(n)) && n * n - n >= 0 && StopsAfter(n, TopLastOrder(n), n * n - n + 1)
  {
    var order, j := TopLastOrder(n), n * n - n;
    RectangleSize(n, n);
    RowsApart(0, n, n);
    if Percolates(n, OpenedBy(n, order, j)) {
      CrossingMeetsRow(n, OpenedBy(n, order, j), 0);
      var x :| x in OpenedBy(n, order, j) && Line(true, x) == 0;
      var k := OpenedByMembers(n, order, j, x);
      RowsBelow(n, k + n);
    }
    StoppingBounds(n, order, j);
    if !Percolates(n, OpenedBy(n, order, j + 1)) {
      StoppingBounds(n, order, j + 1);
    }
  }

  lemma RowsBelow(n: nat, v: nat)
    requires n > 0 && v >= n
    ensures v / n > 0
  {
  }

  /** There are orders, so random numbers, on which a trial stops as early, and as late, as the bounds
      allow. */
  lemma BoundsAttained(n: nat) returns (early: seq<int>, late: seq<int>)
    requires n > 0
    ensures LeadsTo(n * n, early, ColumnOrder(n)) && StopsAfter(n, ColumnOrder(n), n)
    ensures LeadsTo(n * n, late, TopLastOrder(n)) && n * n - n >= 0 && StopsAfter(n, TopLastOrder(n), n * n - n + 1)
  {
    ColumnOrderIsOrder(n);
    StopsEarly(n);
    StopsLate(n);
    early := EveryOrderOnce(n, ColumnOrder(n));
    late := EveryOrderOnce(n, TopLastOrder(n));
  }

  ghost predicate IsFraction(x: real, part: int, whole: int) {
    whole > 0 && x == part as real / whole as real
  }

  // ---------- the class ----------

  class PercolationStats {
    const n: int
    const trials: int
    const meanVals: array<real>
    const sites: array<int>

    ghost predicate Valid() {
      && n > 0 && trials > 0
      && meanVals.Length == trials && sites.Length == n * n
    }

    /** `thresholds` are stopping counts between n and n*n - n + 1, over the number of sites. */
    ghost predicate Thresholds(thresholds: seq<real>)
      requires n > 0
    {
      forall t :: 0 <= t < |thresholds| ==> IsThreshold(thresholds[t])
    }

    ghost predicate IsThreshold(x: real)
      requires n > 0
    {
      exists stop :: n <= stop <= n * n - n + 1 && IsFraction(x, stop, n * n)
    }

    /** The value of a trial on `order` is the count it stopped after, over the number of sites. */
    ghost predicate IsValueOf(x: real, order: seq<int>)
      requires n > 0
    {
      IsOrder(n, order) && exists stop: nat :: StopsAfter(n, order, stop) && IsFraction(x, stop, n * n)
    }

    ghost predicate ValuesOf(values: seq<real>, orders: seq<seq<int>>)
      requires n > 0
    {
      |orders| <= |values| && forall t :: 0 <= t < |orders| ==> IsValueOf(values[t], orders[t])
    }

    constructor (n: int, trials: int)
      requires n > 0 && trials > 0
      ensures Valid() && fresh(meanVals) && fresh(sites) && this.n == n && this.trials == trials
      ensures Thresholds(meanVals[..])
    {
      this.n, this.trials := n, trials;
      meanVals := new real[trials];
      sites := new int[n * n];
      new;
      ghost var _ := Run();
    }

    /** Whatever the random numbers, an order of the site numbers without repetition: the one that
        the numbers picked lead to. */
    method Shuffle() returns (ghost picks: seq<int>)
      requires Valid()
      modifies sites
      ensures LeadsTo(n * n, picks, sites[..])
      ensures IsOrder(n, sites[..])
    {
      var len := sites.Length;
      for i := 0 to len
        invariant forall k :: 0 <= k < i ==> sites[k] == k + 1
      {
        sites[i] := i + 1;
      }
      picks := [];
      assert sites[..] == Numbers(len);
      for i := len downto 0
        invariant |picks| == len - i && Picks(len, picks) && sites[..] == Dealt(Numbers(len), picks)
      {
        var j: int :| 0 <= j <= i;
        ghost var was := sites[..];
        sites[i], sites[j] := sites[j], sites[i];
        assert sites[..] == Swapped(was, i, j);
        assert ([j] + picks)[1..] == picks;
        picks := [j] + picks;
      }
      DealtDistinct(Numbers(len), picks);
      DealtInside(len, Numbers(len), picks);
    }

    method RowCol(site: int) returns (row: int, col: int)
      requires Valid() && 1 <= site <= n * n
      ensures InGrid(n, Site(row - 1, col - 1)) && Site(row - 1, col - 1) == Decode(n, site)
      ensures Index(n, Site(row - 1, col - 1)) + 1 == site
    {
      col := site % n;
      row := site / n;
      RowAndColumn(n, site);
      DecodeInverse(n, site);
      if col == 0 {
        col := n;
      } else {
        row := row + 1;
      }
    }

    /** Opens the `j`-th site of the order and tells whether the grid percolates now. */
    method OpenNext(percolation: Percolation, j: int) returns (done: bool)
      requires Valid() && IsOrder(n, sites[..]) && 0 <= j < sites.Length
      requires percolation.Valid() && percolation.rows == n && sites !in percolation.Footprint()
      requires percolation.sites == OpenedBy(n, sites[..], j)
      modifies percolation.Footprint()
      ensures percolation.Valid() && percolation.sites == OpenedBy(n, sites[..], j + 1)
      ensures done <==> Percolates(n, OpenedBy(n, sites[..], j + 1))
    {
      var row, col := RowCol(sites[j]);
      ghost var order := sites[..];
      assert percolation.sites + {Decode(n, order[j])} == OpenedBy(n, order, j + 1);
      var _ := percolation.Open(row, col);
      assert sites[..] == order;
      done := percolation.PercolatesNow();
    }

    /** One trial, on the current order: the loop always stops by percolating, on the first
        site that makes the grid percolate. */
    method Trial() returns (j: int)
      requires Valid() && IsOrder(n, sites[..])
      ensures 0 <= j < sites.Length
      ensures StopsAfter(n, sites[..], j + 1)
      ensures n <= j + 1 <= n * n - n + 1
    {
      var percolation := new Percolation(n);
      NothingPercolates(n);
      j := OpenUntilPercolation(percolation);
      StoppingBounds(n, sites[..], j);
    }

    /** The inner loop; it has not stopped in time if `j` is the number of sites. */
    method OpenUntilPercolation(percolation: Percolation) returns (j: int)
      requires Valid() && IsOrder(n, sites[..]) && !Percolates(n, {})
      requires percolation.Valid() && percolation.rows == n && percolation.sites == {} && sites !in percolation.Footprint()
      modifies percolation.Footprint()
      ensures 0 <= j <= sites.Length && !Percolates(n, OpenedBy(n, sites[..], j))
      ensures j < sites.Length ==> Percolates(n, OpenedBy(n, sites[..], j + 1))
    {
      ghost var order := sites[..];
      j := 0;
      while j < sites.Length
        invariant 0 <= j <= sites.Length && sites[..] == order
        invariant percolation.Valid() && percolation.sites == OpenedBy(n, order, j)
        invariant !Percolates(n, OpenedBy(n, order, j))
      {
        var done := OpenNext(percolation, j);
        if done {
          break;
        }
        j := j + 1;
      }
    }

    /** Every trial stops on its own order; the values lie between the bounds. */
    method Run() returns (ghost orders: seq<seq<int>>)
      requires Valid()
      modifies meanVals, sites
      ensures |orders| == trials && ValuesOf(meanVals[..], orders)
      ensures Thresholds(meanVals[..])
    {
      RectangleSize(n, n);
      orders := [];
      for i := 0 to trials
        invariant forall t :: 0 <= t < i ==> IsThreshold(meanVals[t])
        invariant |orders| == i && forall t :: 0 <= t < i ==> IsValueOf(meanVals[t], orders[t])
      {
        ghost var _ := Shuffle();
        orders := orders + [sites[..]];
        var j := Trial();
        var xi := (j + 1) as real / sites.Length as real;
        meanVals[i] := xi;
        assert IsFraction(xi, j + 1, n * n) && StopsAfter(n, sites[..], j + 1);
      }
    }
  }

  lemma NothingPercolates(n: int)
    ensures !Percolates(n, {})
  {
  }

  lemma StoppingBounds(n: int, order: seq<int>, j: nat)
    requires n > 0 && IsOrder(n, order) && |order| == n * n && j <= |order|
    requires !Percolates(n, OpenedBy(n, order, j))
    ensures j < |order|
    ensures j + 1 <= n * n - n + 1
    ensures Percolates(n, OpenedBy(n, order, j + 1)) ==> n <= j + 1
  {
    OpenedByCount(n, order, j);
    NonPercolatingLeavesN(n, OpenedBy(n, order, j));
    OpenedByCount(n, order, j + 1);
    if Percolates(n, OpenedBy(n, order, j + 1)) {
      PercolatingNeedsN(n, OpenedBy(n, order, j + 1));
    }
  }

  /** The Java constructor, which throws unless both arguments are positive. */
  method Create(n: int, trials: int) returns (r: Result<PercolationStats>)
    ensures r.Returned? <==> n > 0 && trials > 0
    ensures r.Returned? ==> r.value.n == n && r.value.trials == trials && r.value.Valid()
    ensures r.Returned? ==> r.value.Thresholds(r.value.meanVals[..])
  {
    if n <= 0 || trials <= 0 {
      return IllegalArgument;
    }
    var stats := new PercolationStats(n, trials);
    r := Returned(stats);
  }
}
