/** The sorted list, which really deletes cancelled timers, and the ordered set of time_heap.h,
    which only clears their callbacks, driven by the same calls. */
module TimerRuns {
  import opened Sequences
  import opened TimerOrder

  /** An element of the set: its key is the expiry, then the address; `live` while it has a callback. */
  datatype HeapEntry<T> = HeapEntry(expire: int, addr: int, item: T, live: bool)

  predicate KeyLess<T>(a: HeapEntry<T>, b: HeapEntry<T>) {
    a.expire < b.expire || (a.expire == b.expire && a.addr < b.addr)
  }

  ghost predicate Ascending<T>(h: seq<HeapEntry<T>>) {
    forall i, j :: 0 <= i < j < |h| ==> KeyLess(h[i], h[j])
  }

  /** How many elements come before the key of `x`. */
  function HeapPlace<T>(h: seq<HeapEntry<T>>, x: HeapEntry<T>): (p: nat)
    ensures p <= |h|
    ensures forall i :: 0 <= i < p ==> KeyLess(h[i], x)
    ensures p < |h| ==> !KeyLess(h[p], x)
  {
    if h == [] || !KeyLess(h[0], x) then 0 else 1 + HeapPlace(h[1..], x)
  }

  /** A set takes no second element with the same key. */
  function HeapInsert<T>(h: seq<HeapEntry<T>>, x: HeapEntry<T>): seq<HeapEntry<T>> {
    var p := HeapPlace(h, x);
    if p < |h| && !KeyLess(x, h[p]) then h else h[..p] + [x] + h[p..]
  }

  function HeapCancel<T(==)>(h: seq<HeapEntry<T>>, x: T): seq<HeapEntry<T>> {
    seq(|h|, i requires 0 <= i < |h| => if h[i].item == x then h[i].(live := false) else h[i])
  }

  /** How many elements at the front have expired. */
  function HeapExpired<T>(h: seq<HeapEntry<T>>, now: int): (p: nat)
    ensures p <= |h|
    ensures forall i :: 0 <= i < p ==> h[i].expire <= now
    ensures p < |h| ==> now < h[p].expire
  {
    if h == [] || now < h[0].expire then 0 else 1 + HeapExpired(h[1..], now)
  }

  /** The elements that still have a callback, in order. */
  function Live<T>(h: seq<HeapEntry<T>>): seq<Entry<T>> {
    LiveIn(h, |h|)
  }

  /** The same of the first `n`. */
  function LiveIn<T>(h: seq<HeapEntry<T>>, n: nat): seq<Entry<T>>
    requires n <= |h|
  {
    if n == 0 then [] else LiveIn(h, n - 1) + One(h[n - 1])
  }

  function One<T>(x: HeapEntry<T>): seq<Entry<T>> {
    if x.live then [Entry(x.expire, x.item)] else []
  }

  function ListCancel<T(==)>(s: seq<Entry<T>>, x: T): seq<Entry<T>> {
    if s == [] then [] else if s[0].item == x then s[1..] else [s[0]] + ListCancel(s[1..], x)
  }

  // ---------- runs ----------

  datatype Call<T> =
    | Add(expire: int, addr: int, item: T)
    | Cancel(item: T)
    | Tick(now: int)

  /** A new timer is new to the set, and so is its address. A timer that is not listed may be
      cancelled, to no effect; the clock is not restricted at all. */
  ghost predicate Allowed<T>(h: seq<HeapEntry<T>>, c: Call<T>) {
    c.Add? ==> forall i :: 0 <= i < |h| ==> h[i].item != c.item && h[i].addr != c.addr
  }

  function ListStep<T(==)>(s: seq<Entry<T>>, c: Call<T>): seq<Entry<T>> {
    match c
    case Add(expire, _, item) => Insert(s, Entry(expire, item))
    case Cancel(item) => ListCancel(s, item)
    case Tick(now) => s[Place(s, now)..]
  }

  /** The timers whose callbacks the call runs, in order. */
  function ListRan<T>(s: seq<Entry<T>>, c: Call<T>): seq<Entry<T>> {
    if c.Tick? then s[..Place(s, c.now)] else []
  }

  function HeapStep<T(==)>(h: seq<HeapEntry<T>>, c: Call<T>): seq<HeapEntry<T>> {
    match c
    case Add(expire, addr, item) => HeapInsert(h, HeapEntry(expire, addr, item, true))
    case Cancel(item) => HeapCancel(h, item)
    case Tick(now) => h[HeapExpired(h, now)..]
  }

  function HeapRan<T>(h: seq<HeapEntry<T>>, c: Call<T>): seq<Entry<T>> {
    if c.Tick? then Live(h[..HeapExpired(h, c.now)]) else []
  }

  ghost predicate DistinctInList<T>(s: seq<Entry<T>>) {
    forall i, j :: 0 <= i < j < |s| ==> s[i].item != s[j].item
  }

  ghost predicate DistinctInHeap<T>(h: seq<HeapEntry<T>>) {
    forall i, j :: 0 <= i < j < |h| ==> h[i].item != h[j].item
  }

  /** What links the two structures: both are in order, the timers are distinct, and the list holds
      exactly those of the set that still have their callbacks. */
  ghost predicate Matches<T>(s: seq<Entry<T>>, h: seq<HeapEntry<T>>) {
    && Sorted(s) && DistinctInList(s)
    && Ascending(h) && DistinctInHeap(h)
    && multiset(s) == multiset(Live(h))
  }

  /** The list and the set after the first `k` calls. */
  function ListAfter<T(==)>(calls: seq<Call<T>>, k: nat): seq<Entry<T>>
    requires k <= |calls|
  {
    if k == 0 then [] else ListStep(ListAfter(calls, k - 1), calls[k - 1])
  }

  function HeapAfter<T(==)>(calls: seq<Call<T>>, k: nat): seq<HeapEntry<T>>
    requires k <= |calls|
  {
    if k == 0 then [] else HeapStep(HeapAfter(calls, k - 1), calls[k - 1])
  }

  ghost predicate AllowedRun<T>(calls: seq<Call<T>>) {
    forall k :: 0 <= k < |calls| ==> AllowedAt(calls, k)
  }

  ghost predicate AllowedAt<T>(calls: seq<Call<T>>, k: nat)
    requires k < |calls|
  {
    Allowed(HeapAfter(calls, k), calls[k])
  }

  // ---------- lemmas on the live elements ----------

  lemma {:induction false} LiveSame<T>(g: seq<HeapEntry<T>>, h: seq<HeapEntry<T>>, n: nat)
    requires n <= |g| && n <= |h| && forall i :: 0 <= i < n ==> g[i] == h[i]
    ensures LiveIn(g, n) == LiveIn(h, n)
  {
    if n > 0 {
      LiveSame(g, h, n - 1);
    }
  }

  lemma LivePrefix<T>(h: seq<HeapEntry<T>>, n: nat)
    requires n <= |h|
    ensures Live(h[..n]) == LiveIn(h, n)
  {
    LiveSame(h[..n], h, n);
  }

  lemma {:induction false} LiveMemberIn<T>(h: seq<HeapEntry<T>>, n: nat, e: Entry<T>) returns (i: nat)
    requires n <= |h| && e in LiveIn(h, n)
    ensures i < n && h[i].live && e == Entry(h[i].expire, h[i].item)
  {
    if e in One(h[n - 1]) {
      i := n - 1;
    } else {
      i := LiveMemberIn(h, n - 1, e);
    }
  }

  lemma LiveMembers<T>(h: seq<HeapEntry<T>>, e: Entry<T>) returns (i: nat)
    requires e in Live(h)
    ensures i < |h| && h[i].live && e == Entry(h[i].expire, h[i].item)
  {
    i := LiveMemberIn(h, |h|, e);
  }

  lemma {:induction false} LiveInSorted<T>(h: seq<HeapEntry<T>>, n: nat)
    requires Ascending(h) && n <= |h|
    ensures Sorted(LiveIn(h, n))
  {
    if n > 0 {
      LiveInSorted(h, n - 1);
      var front := LiveIn(h, n - 1);
      forall i | 0 <= i < |front|
        ensures front[i].expire <= h[n - 1].expire
      {
        var k := LiveMemberIn(h, n - 1, front[i]);
        assert KeyLess(h[k], h[n - 1]);
      }
    }
  }

  lemma LiveSorted<T>(h: seq<HeapEntry<T>>)
    requires Ascending(h)
    ensures Sorted(Live(h))
  {
    LiveInSorted(h, |h|);
  }

  lemma {:induction false} LiveBehind<T>(g: seq<HeapEntry<T>>, h: seq<HeapEntry<T>>, n: nat)
    requires n <= |h|
    ensures LiveIn(g + h, |g| + n) == Live(g) + LiveIn(h, n)
  {
    if n == 0 {
      LiveSame(g + h, g, |g|);
    } else {
      LiveBehind(g, h, n - 1);
    }
  }

  lemma LiveConcat<T>(g: seq<HeapEntry<T>>, h: seq<HeapEntry<T>>)
    ensures Live(g + h) == Live(g) + Live(h)
  {
    LiveBehind(g, h, |h|);
  }

  lemma SpliceMultiset<T>(a: seq<T>, x: seq<T>, b: seq<T>)
    ensures multiset(a + x + b) == multiset(a + b) + multiset(x)
  {
  }

  lemma LiveSplice<T>(a: seq<HeapEntry<T>>, x: HeapEntry<T>, b: seq<HeapEntry<T>>)
    ensures multiset(Live(a + [x] + b)) == multiset(Live(a + b)) + multiset(One(x))
  {
    LiveConcat(a + [x], b);
    LiveConcat(a, [x]);
    LiveConcat(a, b);
    assert LiveIn([x], 1) == LiveIn([x], 0) + One(x);
    SpliceMultiset(Live(a), One(x), Live(b));
  }

  lemma LiveAfterInsert<T>(h: seq<HeapEntry<T>>, x: HeapEntry<T>)
    requires forall i :: 0 <= i < |h| ==> h[i].addr != x.addr
    ensures multiset(Live(HeapInsert(h, x))) == multiset(Live(h)) + multiset(One(x))
  {
    var p := HeapPlace(h, x);
    LiveSplice(h[..p], x, h[p..]);
    assert h[..p] + h[p..] == h;
  }

  lemma InsertKeepsAscending<T>(h: seq<HeapEntry<T>>, x: HeapEntry<T>)
    requires Ascending(h)
    ensures Ascending(HeapInsert(h, x))
  {
    var p := HeapPlace(h, x);
    if p < |h| && KeyLess(x, h[p]) {
      assert forall i :: p < i < |h| ==> KeyLess(h[p], h[i]);
    }
  }

  /** Cancelling an element that is alive takes exactly its entry away. */
  lemma {:induction false} LiveAfterCancel<T>(h: seq<HeapEntry<T>>, k: nat)
    requires k < |h| && h[k].live
    requires DistinctInHeap(h)
    ensures multiset(Live(h)) == multiset(Live(HeapCancel(h, h[k].item))) + multiset{Entry(h[k].expire, h[k].item)}
  {
    LiveNulled(h[..k], h[k], h[k + 1..]);
    CancelSplits(h, k);
  }

  lemma LiveNulled<T>(a: seq<HeapEntry<T>>, x: HeapEntry<T>, b: seq<HeapEntry<T>>)
    requires x.live
    ensures multiset(Live(a + [x] + b)) == multiset(Live(a + [x.(live := false)] + b)) + multiset{Entry(x.expire, x.item)}
  {
    LiveSplice(a, x, b);
    LiveSplice(a, x.(live := false), b);
  }

  lemma CancelSplits<T>(h: seq<HeapEntry<T>>, k: nat)
    requires k < |h| && DistinctInHeap(h)
    ensures h == h[..k] + [h[k]] + h[k + 1..]
    ensures HeapCancel(h, h[k].item) == h[..k] + [h[k].(live := false)] + h[k + 1..]
  {
  }

  lemma {:induction false} ListCancelRemoves<T>(s: seq<Entry<T>>, k: nat)
    requires k < |s| && forall i :: 0 <= i < k ==> s[i].item != s[k].item
    ensures ListCancel(s, s[k].item) == RemoveAt(s, k)
    ensures multiset(s) == multiset(ListCancel(s, s[k].item)) + multiset{s[k]}
  {
    if k == 0 {
      assert s == [s[0]] + s[1..];
    } else {
      ListCancelRemoves(s[1..], k - 1);
      assert s == [s[0]] + s[1..];
      assert RemoveAt(s, k) == [s[0]] + RemoveAt(s[1..], k - 1);
    }
  }

  // ---------- one call, then all ----------

  /** Two ways to split the same timers into expired and pending ones are the same split. */
  lemma SplitUnique<T>(a: multiset<Entry<T>>, b: multiset<Entry<T>>, c: multiset<Entry<T>>, d: multiset<Entry<T>>, now: int)
    requires a + b == c + d
    requires forall e :: e in a || e in c ==> e.expire <= now
    requires forall e :: e in b || e in d ==> now < e.expire
    ensures a == c && b == d
  {
    forall e: Entry<T>
      ensures a[e] == c[e] && b[e] == d[e]
    {
      assert (a + b)[e] == (c + d)[e];
    }
  }

  lemma HeapSplits<T>(h: seq<HeapEntry<T>>, now: int)
    requires Ascending(h)
    ensures var q := HeapExpired(h, now);
            && multiset(Live(h)) == multiset(Live(h[..q])) + multiset(Live(h[q..]))
            && (forall e :: e in Live(h[..q]) ==> e.expire <= now)
            && (forall e :: e in Live(h[q..]) ==> now < e.expire)
  {
    var q := HeapExpired(h, now);
    LiveHalves(h, q);
    AllLive(h[..q], now, true);
    LaterUnexpired(h, now);
    AllLive(h[q..], now, false);
  }

  lemma LiveHalves<T>(h: seq<HeapEntry<T>>, q: nat)
    requires q <= |h|
    ensures multiset(Live(h)) == multiset(Live(h[..q])) + multiset(Live(h[q..]))
  {
    LiveConcat(h[..q], h[q..]);
    assert h == h[..q] + h[q..];
  }

  lemma LaterUnexpired<T>(h: seq<HeapEntry<T>>, now: int)
    requires Ascending(h)
    ensures forall i :: HeapExpired(h, now) <= i < |h| ==> now < h[i].expire
  {
    var q := HeapExpired(h, now);
    forall i | q < i < |h|
      ensures now < h[i].expire
    {
      assert KeyLess(h[q], h[i]);
    }
  }

  /** What holds of all elements holds of the live ones. */
  lemma AllLive<T>(h: seq<HeapEntry<T>>, now: int, expired: bool)
    requires forall i :: 0 <= i < |h| ==> (h[i].expire <= now <==> expired)
    ensures forall e :: e in Live(h) ==> (e.expire <= now <==> expired)
  {
    forall e | e in Live(h)
      ensures e.expire <= now <==> expired
    {
      var i := LiveMembers(h, e);
    }
  }

  lemma ListSplits<T>(s: seq<Entry<T>>, now: int)
    requires Sorted(s)
    ensures var p := Place(s, now);
            && multiset(s) == multiset(s[..p]) + multiset(s[p..])
            && (forall e :: e in s[..p] ==> e.expire <= now)
            && (forall e :: e in s[p..] ==> now < e.expire)
  {
    var p := Place(s, now);
    assert s == s[..p] + s[p..];
  }

  lemma SuffixesInOrder<T>(s: seq<Entry<T>>, h: seq<HeapEntry<T>>, p: nat, q: nat)
    requires p <= |s| && q <= |h|
    ensures Sorted(s) ==> Sorted(s[p..])
    ensures DistinctInList(s) ==> DistinctInList(s[p..])
    ensures Ascending(h) ==> Ascending(h[..q]) && Ascending(h[q..])
    ensures DistinctInHeap(h) ==> DistinctInHeap(h[q..])
  {
  }

  /** At a tick both structures run the same callbacks: of the live timers, exactly the expired. */
  lemma TickMatches<T>(s: seq<Entry<T>>, h: seq<HeapEntry<T>>, c: Call<T>)
    requires Matches(s, h) && c.Tick?
    ensures multiset(ListRan(s, c)) == multiset(HeapRan(h, c))
    ensures Matches(ListStep(s, c), HeapStep(h, c))
  {
    var p, q := Place(s, c.now), HeapExpired(h, c.now);
    HeapSplits(h, c.now);
    ListSplits(s, c.now);
    SplitUnique(multiset(s[..p]), multiset(s[p..]), multiset(Live(h[..q])), multiset(Live(h[q..])), c.now);
    SuffixesInOrder(s, h, p, q);
  }

  /** What a tick runs is exactly what is live and expired. */
  lemma TickRunsExpired<T>(s: seq<Entry<T>>, h: seq<HeapEntry<T>>, now: int, e: Entry<T>)
    requires Matches(s, h)
    ensures e in ListRan(s, Call<T>.Tick(now)) <==> e in Live(h) && e.expire <= now
    ensures e in HeapRan(h, Call<T>.Tick(now)) <==> e in Live(h) && e.expire <= now
  {
    HeapSplits(h, now);
    ListSplits(s, now);
    assert e in multiset(s) <==> e in multiset(Live(h));
    assert e in multiset(s[..Place(s, now)]) <==> e in s[..Place(s, now)];
    assert e in multiset(s[Place(s, now)..]) <==> e in s[Place(s, now)..];
    assert e in multiset(Live(h[..HeapExpired(h, now)])) <==> e in Live(h[..HeapExpired(h, now)]);
    assert e in multiset(Live(h[HeapExpired(h, now)..])) <==> e in Live(h[HeapExpired(h, now)..]);
  }

  lemma InsertMultiset<T>(s: seq<Entry<T>>, x: Entry<T>)
    ensures multiset(Insert(s, x)) == multiset(s) + multiset{x}
  {
    var p := Place(s, x.expire);
    assert s == s[..p] + s[p..];
  }

  lemma InsertDistinct<T>(s: seq<Entry<T>>, x: Entry<T>)
    requires DistinctInList(s) && forall i :: 0 <= i < |s| ==> s[i].item != x.item
    ensures DistinctInList(Insert(s, x))
  {
  }

  lemma HeapInsertDistinct<T>(h: seq<HeapEntry<T>>, x: HeapEntry<T>)
    requires DistinctInHeap(h) && forall i :: 0 <= i < |h| ==> h[i].item != x.item
    ensures DistinctInHeap(HeapInsert(h, x))
  {
  }

  lemma AddMatches<T>(s: seq<Entry<T>>, h: seq<HeapEntry<T>>, c: Call<T>)
    requires Matches(s, h) && c.Add? && Allowed(h, c)
    ensures Matches(ListStep(s, c), HeapStep(h, c))
  {
    var e, x := Entry(c.expire, c.item), HeapEntry(c.expire, c.addr, c.item, true);
    forall i | 0 <= i < |s|
      ensures s[i].item != e.item
    {
      assert s[i] in multiset(s) && s[i] in Live(h);
      var k := LiveMembers(h, s[i]);
    }
    InsertKeepsSorted(s, e);
    InsertDistinct(s, e);
    InsertMultiset(s, e);
    InsertKeepsAscending(h, x);
    HeapInsertDistinct(h, x);
    LiveAfterInsert(h, x);
  }

  lemma CancelKeepsOrder<T>(h: seq<HeapEntry<T>>, x: T)
    ensures Ascending(h) ==> Ascending(HeapCancel(h, x))
    ensures DistinctInHeap(h) ==> DistinctInHeap(HeapCancel(h, x))
  {
  }

  lemma RemoveKeepsDistinct<T>(s: seq<Entry<T>>, k: nat)
    requires k < |s| && DistinctInList(s)
    ensures DistinctInList(RemoveAt(s, k))
  {
  }

  lemma CancelMatches<T>(s: seq<Entry<T>>, h: seq<HeapEntry<T>>, c: Call<T>)
    requires Matches(s, h) && c.Cancel?
    ensures Matches(ListStep(s, c), HeapStep(h, c))
  {
    if k: nat :| k < |s| && s[k].item == c.item {
      CancelListed(s, h, c, k);
    } else {
      ListCancelAbsent(s, c.item);
      HeapCancelAbsent(s, h, c.item);
    }
  }

  lemma {:induction false} ListCancelAbsent<T>(s: seq<Entry<T>>, x: T)
    requires forall i :: 0 <= i < |s| ==> s[i].item != x
    ensures ListCancel(s, x) == s
  {
    if s != [] {
      ListCancelAbsent(s[1..], x);
    }
  }

  lemma HeapCancelAbsent<T>(s: seq<Entry<T>>, h: seq<HeapEntry<T>>, x: T)
    requires multiset(s) == multiset(Live(h)) && forall i :: 0 <= i < |s| ==> s[i].item != x
    ensures HeapCancel(h, x) == h
  {
    forall i | 0 <= i < |h| && h[i].live
      ensures h[i].item != x
    {
      LiveListed(h, i);
      assert Entry(h[i].expire, h[i].item) in multiset(s);
    }
  }

  lemma LiveListed<T>(h: seq<HeapEntry<T>>, i: nat)
    requires i < |h| && h[i].live
    ensures Entry(h[i].expire, h[i].item) in multiset(Live(h))
  {
    assert h == h[..i] + [h[i]] + h[i + 1..];
    LiveSplice(h[..i], h[i], h[i + 1..]);
  }

  lemma CancelListed<T>(s: seq<Entry<T>>, h: seq<HeapEntry<T>>, c: Call<T>, k: nat)
    requires Matches(s, h) && c.Cancel? && k < |s| && s[k].item == c.item
    ensures Matches(ListStep(s, c), HeapStep(h, c))
  {
    var i := ListedIsLive(s, h, k);
    ListCancelRemoves(s, k);
    RemoveKeepsSorted(s, k);
    RemoveKeepsDistinct(s, k);
    CancelKeepsOrder(h, c.item);
    LiveAfterCancel(h, i);
    SameRemainder(multiset(ListCancel(s, c.item)), multiset(Live(HeapCancel(h, c.item))), s[k]);
  }

  lemma ListedIsLive<T>(s: seq<Entry<T>>, h: seq<HeapEntry<T>>, k: nat) returns (i: nat)
    requires multiset(s) == multiset(Live(h)) && k < |s|
    ensures i < |h| && h[i].live && s[k] == Entry(h[i].expire, h[i].item)
  {
    assert s[k] in multiset(s) && s[k] in Live(h);
    i := LiveMembers(h, s[k]);
  }

  lemma SameRemainder<T>(a: multiset<T>, b: multiset<T>, x: T)
    requires a + multiset{x} == b + multiset{x}
    ensures a == b
  {
    assert a == a + multiset{x} - multiset{x} && b == b + multiset{x} - multiset{x};
  }

  /** The same callbacks, in order of expiry on both sides. */
  ghost predicate SameRan<T>(a: seq<Entry<T>>, b: seq<Entry<T>>) {
    multiset(a) == multiset(b) && Sorted(a) && Sorted(b)
  }

  lemma StepMatches<T>(s: seq<Entry<T>>, h: seq<HeapEntry<T>>, c: Call<T>)
    requires Matches(s, h) && Allowed(h, c)
    ensures Matches(ListStep(s, c), HeapStep(h, c))
    ensures SameRan(ListRan(s, c), HeapRan(h, c))
  {
    match c
    case Add(_, _, _) => AddMatches(s, h, c);
    case Cancel(_) => CancelMatches(s, h, c);
    case Tick(now) =>
      TickMatches(s, h, c);
      SuffixesInOrder(s, h, 0, HeapExpired(h, now));
      LiveSorted(h[..HeapExpired(h, now)]);
  }

  lemma {:induction false} AlwaysMatch<T>(calls: seq<Call<T>>, k: nat)
    requires AllowedRun(calls) && k <= |calls|
    ensures Matches(ListAfter(calls, k), HeapAfter(calls, k))
  {
    if k > 0 {
      AlwaysMatch(calls, k - 1);
      assert AllowedAt(calls, k - 1);
      StepMatches(ListAfter(calls, k - 1), HeapAfter(calls, k - 1), calls[k - 1]);
    }
  }

  /** On every run of the same calls, starting empty, the list and the set run the same callbacks at
      every call, each in order of expiry. */
  lemma SameCallbacks<T>(calls: seq<Call<T>>, k: nat)
    requires AllowedRun(calls) && k < |calls|
    ensures SameRan(ListRan(ListAfter(calls, k), calls[k]), HeapRan(HeapAfter(calls, k), calls[k]))
  {
    AlwaysMatch(calls, k);
    assert AllowedAt(calls, k);
    StepMatches(ListAfter(calls, k), HeapAfter(calls, k), calls[k]);
  }
}
