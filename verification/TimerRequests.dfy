/** What a run of requests to a timer structure is to run, and that the entries of the sorted list and of
    the ordered set run just that. A timer is known by the request that added it; its user data is what
    the callback gets, and any number of timers may share it. */
module TimerRequests {
  import opened Sequences
  import opened TimerOrder
  import opened TimerRuns
  import H = TimeHeap

  /** `Cancel(id)` cancels the timer that request number `id` added. */
  datatype Request =
    | Add(expire: int, addr: int, user: int)
    | Cancel(id: int)
    | Tick(now: int)

  // ---------- what the requests say ----------

  ghost predicate Added(requests: seq<Request>, id: int, k: nat)
    requires k <= |requests|
  {
    0 <= id < k && requests[id].Add?
  }

  /** When the timer is to run: once added, and neither cancelled nor run by a tick. */
  ghost function Pending(requests: seq<Request>, id: int, k: nat): Option<int>
    requires k <= |requests|
  {
    if k == 0 then None else PendingNext(Pending(requests, id, k - 1), requests[k - 1], id == k - 1, id)
  }

  ghost function PendingNext(before: Option<int>, r: Request, its: bool, id: int): Option<int> {
    match r
    case Add(expire, _, _) => if its then Some(expire) else before
    case Cancel(x) => if x == id then None else before
    case Tick(now) => if before.Some? && before.value <= now then None else before
  }

  /** Still in the ordered set: no tick since found it expired, cancelled or not. */
  ghost predicate Stored(requests: seq<Request>, id: int, k: nat)
    requires k <= |requests|
  {
    Added(requests, id, k) && forall j :: id < j < k && requests[j].Tick? ==> requests[j].now < requests[id].expire
  }

  /** The list frees a timer that ran or was cancelled, so a timer is cancelled only while pending. */
  ghost predicate PossibleForList(requests: seq<Request>) {
    forall k :: 0 <= k < |requests| ==> ListAccepts(requests, k)
  }

  ghost predicate ListAccepts(requests: seq<Request>, k: nat)
    requires k < |requests|
  {
    requests[k].Cancel? ==> Pending(requests, requests[k].id, k).Some?
  }

  /** The set shares its timers, so a timer may be cancelled any time; and what is in the set keeps its
      memory, so a new timer has another address. */
  ghost predicate PossibleForSet(requests: seq<Request>) {
    forall k :: 0 <= k < |requests| ==> SetAccepts(requests, k)
  }

  ghost predicate SetAccepts(requests: seq<Request>, k: nat)
    requires k < |requests|
  {
    && (requests[k].Cancel? ==> Added(requests, requests[k].id, k))
    && (requests[k].Add? ==> forall id :: OtherAddress(requests, id, k))
  }

  ghost predicate OtherAddress(requests: seq<Request>, id: int, k: nat)
    requires k < |requests| && requests[k].Add?
  {
    Stored(requests, id, k) ==> requests[id].addr != requests[k].addr
  }

  /** `ids` is what a request is to run: for a tick, the timers pending with expire <= now, each once and
      in order of expire; for other requests, nothing. */
  ghost predicate RunsDue(ids: seq<int>, requests: seq<Request>, k: nat)
    requires k < |requests|
  {
    && (forall id {:trigger multiset(ids)[id]} :: multiset(ids)[id] == if IsDue(requests, id, k) then 1 else 0)
    && (forall i, j :: 0 <= i < j < |ids| ==> DueTime(requests, ids[i], k) <= DueTime(requests, ids[j], k))
  }

  ghost predicate IsDue(requests: seq<Request>, id: int, k: nat)
    requires k < |requests|
  {
    requests[k].Tick? && Pending(requests, id, k).Some? && Pending(requests, id, k).value <= requests[k].now
  }

  ghost function DueTime(requests: seq<Request>, id: int, k: nat): int
    requires k < |requests|
  {
    if Pending(requests, id, k).Some? then Pending(requests, id, k).value else 0
  }

  /** The callbacks got the user data of these timers, in this order. */
  ghost predicate Sees(ran: seq<int>, ids: seq<int>, requests: seq<Request>) {
    && |ran| == |ids|
    && forall i :: 0 <= i < |ids| ==> Added(requests, ids[i], |requests|) && ran[i] == requests[ids[i]].user
  }

  /** What request `k` lets its callbacks see is right. */
  ghost predicate RanRight(ran: seq<int>, requests: seq<Request>, k: nat)
    requires k < |requests|
  {
    exists ids :: RunsDue(ids, requests, k) && Sees(ran, ids, requests)
  }

  // ---------- the requests as calls on sequences of entries ----------

  function CallOf(r: Request, k: int): Call<int> {
    match r
    case Add(expire, addr, _) => Call.Add(expire, addr, k)
    case Cancel(id) => Call.Cancel(id)
    case Tick(now) => Call.Tick(now)
  }

  function Calls(requests: seq<Request>): (calls: seq<Call<int>>)
    ensures |calls| == |requests| && forall k :: 0 <= k < |calls| ==> calls[k] == CallOf(requests[k], k)
  {
    seq(|requests|, k requires 0 <= k < |requests| => CallOf(requests[k], k))
  }

  function InList(requests: seq<Request>, k: nat): seq<Entry<int>>
    requires k <= |requests|
  {
    ListAfter(Calls(requests), k)
  }

  function InSet(requests: seq<Request>, k: nat): seq<HeapEntry<int>>
    requires k <= |requests|
  {
    HeapAfter(Calls(requests), k)
  }

  lemma NextState(requests: seq<Request>, k: nat)
    requires k < |requests|
    ensures InList(requests, k + 1) == ListStep(InList(requests, k), CallOf(requests[k], k))
    ensures InSet(requests, k + 1) == HeapStep(InSet(requests, k), CallOf(requests[k], k))
  {
  }

  ghost predicate Earlier(s: seq<Entry<int>>, k: nat) {
    forall i :: 0 <= i < |s| ==> s[i].item < k
  }

  lemma AddedMembers(s: seq<Entry<int>>, x: Entry<int>, e: Entry<int>)
    ensures e in Insert(s, x) <==> e in s || e == x
  {
    InsertMultiset(s, x);
    assert e in Insert(s, x) <==> e in multiset(Insert(s, x));
    assert e in s <==> e in multiset(s);
  }

  lemma CancelledMembers(s: seq<Entry<int>>, id: int, e: Entry<int>)
    requires DistinctInList(s)
    ensures e in ListCancel(s, id) <==> e in s && e.item != id
  {
    if i: nat :| i < |s| && s[i].item == id {
      ListCancelRemoves(s, i);
      assert s == s[..i] + [s[i]] + s[i + 1..];
      OthersDiffer(s, i, e);
    } else {
      ListCancelAbsent(s, id);
    }
  }

  lemma OthersDiffer(s: seq<Entry<int>>, i: nat, e: Entry<int>)
    requires DistinctInList(s) && i < |s|
    ensures e in s[..i] || e in s[i + 1..] ==> e.item != s[i].item
  {
    if e in s[..i] {
      var j :| 0 <= j < i && s[j] == e;
    } else if e in s[i + 1..] {
      var j :| 0 <= j < |s| - i - 1 && s[i + 1..][j] == e;
      assert s[i + 1 + j] == e;
    }
  }

  lemma TickedMembers(s: seq<Entry<int>>, now: int, e: Entry<int>)
    requires Sorted(s)
    ensures e in s[..Place(s, now)] <==> e in s && e.expire <= now
    ensures e in s[Place(s, now)..] <==> e in s && now < e.expire
  {
    ListSplits(s, now);
    assert s == s[..Place(s, now)] + s[Place(s, now)..];
  }

  lemma StepMembers(s: seq<Entry<int>>, c: Call<int>, e: Entry<int>)
    requires Sorted(s) && DistinctInList(s)
    ensures e in ListStep(s, c) <==>
              match c
              case Add(expire, _, item) => e in s || e == Entry(expire, item)
              case Cancel(item) => e in s && e.item != item
              case Tick(now) => e in s && now < e.expire
  {
    match c
    case Add(expire, _, item) => AddedMembers(s, Entry(expire, item), e);
    case Cancel(item) => CancelledMembers(s, item, e);
    case Tick(now) => TickedMembers(s, now, e);
  }

  lemma StepInOrder(s: seq<Entry<int>>, c: Call<int>, k: nat)
    requires Sorted(s) && DistinctInList(s) && Earlier(s, k) && (c.Add? ==> c.item == k)
    ensures Sorted(ListStep(s, c)) && DistinctInList(ListStep(s, c)) && Earlier(ListStep(s, c), k + 1)
  {
    match c {
      case Add(expire, _, item) =>
        InsertKeepsSorted(s, Entry(expire, item));
        InsertDistinct(s, Entry(expire, item));
      case Cancel(item) =>
        if i: nat :| i < |s| && s[i].item == item {
          ListCancelRemoves(s, i);
          RemoveKeepsSorted(s, i);
          RemoveKeepsDistinct(s, i);
        } else {
          ListCancelAbsent(s, item);
        }
      case Tick(now) =>
        SuffixesInOrder<int>(s, [], Place(s, now), 0);
    }
    forall i | 0 <= i < |ListStep(s, c)|
      ensures ListStep(s, c)[i].item < k + 1
    {
      StepMembers(s, c, ListStep(s, c)[i]);
    }
  }

  lemma {:induction false} ListInOrder(requests: seq<Request>, k: nat)
    requires k <= |requests|
    ensures Sorted(InList(requests, k)) && DistinctInList(InList(requests, k)) && Earlier(InList(requests, k), k)
  {
    if k > 0 {
      ListInOrder(requests, k - 1);
      StepInOrder(InList(requests, k - 1), CallOf(requests[k - 1], k - 1), k - 1);
      NextState(requests, k - 1);
    }
  }

  lemma ListedNext(s: seq<Entry<int>>, r: Request, k: nat, e: Entry<int>, before: Option<int>)
    requires Sorted(s) && DistinctInList(s) && Earlier(s, k)
    requires e in s <==> before == Some(e.expire)
    ensures e in ListStep(s, CallOf(r, k)) <==> PendingNext(before, r, e.item == k, e.item) == Some(e.expire)
  {
    StepMembers(s, CallOf(r, k), e);
  }

  lemma ListedIsPendingNext(requests: seq<Request>, k: nat, e: Entry<int>)
    requires k < |requests| && (e in InList(requests, k) <==> Pending(requests, e.item, k) == Some(e.expire))
    ensures e in InList(requests, k + 1) <==> Pending(requests, e.item, k + 1) == Some(e.expire)
  {
    ListInOrder(requests, k);
    ListedNext(InList(requests, k), requests[k], k, e, Pending(requests, e.item, k));
    NextState(requests, k);
  }

  /** What the list holds is what is pending. */
  lemma {:induction false} ListedIsPending(requests: seq<Request>, k: nat, e: Entry<int>)
    requires k <= |requests|
    ensures e in InList(requests, k) <==> Pending(requests, e.item, k) == Some(e.expire)
  {
    if k > 0 {
      ListedIsPending(requests, k - 1, e);
      ListedIsPendingNext(requests, k - 1, e);
    }
  }

  lemma {:induction false} PendingIsAdded(requests: seq<Request>, id: int, k: nat)
    requires k <= |requests| && Pending(requests, id, k).Some?
    ensures Added(requests, id, k)
  {
    if Pending(requests, id, k - 1).Some? {
      PendingIsAdded(requests, id, k - 1);
    }
  }

  // ---------- what runs ----------

  function Items(s: seq<Entry<int>>): (r: seq<int>)
    ensures |r| == |s| && forall i :: 0 <= i < |s| ==> r[i] == s[i].item
  {
    seq(|s|, i requires 0 <= i < |s| => s[i].item)
  }

  lemma {:induction false} ItemCount(s: seq<Entry<int>>, id: int)
    requires DistinctInList(s)
    ensures multiset(Items(s))[id] == if exists i :: 0 <= i < |s| && s[i].item == id then 1 else 0
  {
    if s != [] {
      ItemCount(s[1..], id);
      assert Items(s) == [s[0].item] + Items(s[1..]);
      assert forall i :: 1 <= i < |s| ==> s[i] == s[1..][i - 1];
    }
  }

  lemma RemovedItem(s: seq<Entry<int>>, i: nat)
    requires i < |s|
    ensures multiset(s) == multiset(RemoveAt(s, i)) + multiset{s[i]}
    ensures multiset(Items(s)) == multiset(Items(RemoveAt(s, i))) + multiset{s[i].item}
  {
    RemovedOne(s, i);
    RemovedOne(Items(s), i);
    assert Items(RemoveAt(s, i)) == RemoveAt(Items(s), i);
  }

  lemma {:induction false} SameItems(s: seq<Entry<int>>, t: seq<Entry<int>>)
    requires multiset(s) == multiset(t)
    ensures multiset(Items(s)) == multiset(Items(t))
  {
    if s == [] {
      assert |multiset(t)| == 0;
    } else {
      assert s[0] in multiset(t);
      var j :| 0 <= j < |t| && t[j] == s[0];
      RemovedItem(s, 0);
      RemovedItem(t, j);
      SameRemainder(multiset(RemoveAt(s, 0)), multiset(RemoveAt(t, j)), s[0]);
      SameItems(RemoveAt(s, 0), RemoveAt(t, j));
    }
  }

  ghost predicate ArePending(s: seq<Entry<int>>, requests: seq<Request>, k: nat)
    requires k < |requests|
  {
    forall i :: 0 <= i < |s| ==> Pending(requests, s[i].item, k) == Some(s[i].expire)
  }

  /** Entries of pending timers in order of expire have items in order of their times. */
  lemma DueInOrder(s: seq<Entry<int>>, requests: seq<Request>, k: nat)
    requires k < |requests| && Sorted(s) && ArePending(s, requests, k)
    ensures forall i, j :: 0 <= i < j < |s| ==> DueTime(requests, Items(s)[i], k) <= DueTime(requests, Items(s)[j], k)
  {
    assert forall i :: 0 <= i < |s| ==> DueTime(requests, Items(s)[i], k) == s[i].expire;
  }

  function ListRuns(requests: seq<Request>, k: nat): seq<Entry<int>>
    requires k < |requests|
  {
    ListRan(InList(requests, k), Calls(requests)[k])
  }

  function SetRuns(requests: seq<Request>, k: nat): seq<Entry<int>>
    requires k < |requests|
  {
    HeapRan(InSet(requests, k), Calls(requests)[k])
  }

  /** For any requests at all. */
  lemma ListRunsDue(requests: seq<Request>, k: nat)
    requires k < |requests|
    ensures RunsDue(Items(ListRuns(requests, k)), requests, k) && ArePending(ListRuns(requests, k), requests, k)
  {
    var s, ran := InList(requests, k), ListRuns(requests, k);
    ListInOrder(requests, k);
    forall i | 0 <= i < |ran|
      ensures Pending(requests, ran[i].item, k) == Some(ran[i].expire)
    {
      ListedIsPending(requests, k, s[i]);
    }
    DueInOrder(ran, requests, k);
    forall id
      ensures multiset(Items(ran))[id] == if IsDue(requests, id, k) then 1 else 0
    {
      ItemCount(ran, id);
      DueIsRun(requests, k, id);
    }
  }

  lemma DueIsRun(requests: seq<Request>, k: nat, id: int)
    requires k < |requests|
    ensures IsDue(requests, id, k) <==>
              exists i :: 0 <= i < |ListRuns(requests, k)| && ListRuns(requests, k)[i].item == id
  {
    var s, r := InList(requests, k), requests[k];
    ListInOrder(requests, k);
    if IsDue(requests, id, k) {
      var e := Entry(Pending(requests, id, k).value, id);
      ListedIsPending(requests, k, e);
      TickedMembers(s, r.now, e);
      assert e in ListRuns(requests, k);
    }
    forall i | 0 <= i < |ListRuns(requests, k)| && ListRuns(requests, k)[i].item == id
      ensures IsDue(requests, id, k)
    {
      ListedIsPending(requests, k, s[i]);
      TickedMembers(s, r.now, s[i]);
    }
  }

  // ---------- the set holds what is stored ----------

  ghost predicate IsStored(x: HeapEntry<int>, requests: seq<Request>, k: nat)
    requires k <= |requests|
  {
    Stored(requests, x.item, k) && x.addr == requests[x.item].addr && x.expire == requests[x.item].expire
  }

  ghost predicate HoldsStored(h: seq<HeapEntry<int>>, requests: seq<Request>, k: nat)
    requires k <= |requests|
  {
    forall i :: 0 <= i < |h| ==> IsStored(h[i], requests, k)
  }

  lemma StoredFits(h: seq<HeapEntry<int>>, requests: seq<Request>, k: nat)
    requires k < |requests| && HoldsStored(h, requests, k) && SetAccepts(requests, k)
    ensures Allowed(h, CallOf(requests[k], k))
  {
    forall i | requests[k].Add? && 0 <= i < |h|
      ensures h[i].item != k && h[i].addr != requests[k].addr
    {
      assert IsStored(h[i], requests, k) && OtherAddress(requests, h[i].item, k);
    }
  }

  lemma InsertedAt<T>(h: seq<HeapEntry<T>>, x: HeapEntry<T>, i: nat)
    requires i < |HeapInsert(h, x)|
    ensures HeapInsert(h, x)[i] == x || exists j :: 0 <= j < |h| && h[j] == HeapInsert(h, x)[i]
  {
    var p := HeapPlace(h, x);
    if p < |h| && !KeyLess(x, h[p]) {
      assert HeapInsert(h, x)[i] == h[i];
    } else if i < p {
      assert HeapInsert(h, x)[i] == h[i];
    } else if i > p {
      assert HeapInsert(h, x)[i] == h[i - 1];
    }
  }

  lemma StillStored(x: HeapEntry<int>, requests: seq<Request>, k: nat)
    requires k < |requests| && IsStored(x, requests, k)
    requires requests[k].Tick? ==> requests[k].now < x.expire
    ensures IsStored(x, requests, k + 1)
  {
  }

  lemma AddStored(h: seq<HeapEntry<int>>, requests: seq<Request>, k: nat)
    requires k < |requests| && HoldsStored(h, requests, k) && requests[k].Add?
    ensures HoldsStored(HeapInsert(h, HeapEntry(requests[k].expire, requests[k].addr, k, true)), requests, k + 1)
  {
    var x := HeapEntry(requests[k].expire, requests[k].addr, k, true);
    forall i | 0 <= i < |HeapInsert(h, x)|
      ensures IsStored(HeapInsert(h, x)[i], requests, k + 1)
    {
      InsertedAt(h, x, i);
      if j: nat :| j < |h| && h[j] == HeapInsert(h, x)[i] {
        StillStored(h[j], requests, k);
      }
    }
  }

  lemma CancelStored(h: seq<HeapEntry<int>>, requests: seq<Request>, k: nat)
    requires k < |requests| && HoldsStored(h, requests, k) && requests[k].Cancel?
    ensures HoldsStored(HeapCancel(h, requests[k].id), requests, k + 1)
  {
    forall i | 0 <= i < |h|
      ensures IsStored(HeapCancel(h, requests[k].id)[i], requests, k + 1)
    {
      StillStored(h[i], requests, k);
    }
  }

  lemma TickStored(h: seq<HeapEntry<int>>, requests: seq<Request>, k: nat)
    requires k < |requests| && HoldsStored(h, requests, k) && requests[k].Tick? && Ascending(h)
    ensures HoldsStored(h[HeapExpired(h, requests[k].now)..], requests, k + 1)
  {
    var p := HeapExpired(h, requests[k].now);
    forall i | p <= i < |h|
      ensures IsStored(h[i], requests, k + 1)
    {
      assert i == p || KeyLess(h[p], h[i]);
      StillStored(h[i], requests, k);
    }
  }

  lemma SetStep(s: seq<Entry<int>>, h: seq<HeapEntry<int>>, requests: seq<Request>, k: nat)
    requires k < |requests| && Matches(s, h) && HoldsStored(h, requests, k) && SetAccepts(requests, k)
    ensures var c := CallOf(requests[k], k);
            && Matches(ListStep(s, c), HeapStep(h, c)) && HoldsStored(HeapStep(h, c), requests, k + 1)
            && SameRan(ListRan(s, c), HeapRan(h, c))
  {
    StoredFits(h, requests, k);
    StepMatches(s, h, CallOf(requests[k], k));
    match requests[k]
    case Add(_, _, _) => AddStored(h, requests, k);
    case Cancel(_) => CancelStored(h, requests, k);
    case Tick(_) => TickStored(h, requests, k);
  }

  /** The set matches the list and holds what is stored. */
  ghost predicate InStep(s: seq<Entry<int>>, h: seq<HeapEntry<int>>, requests: seq<Request>, k: nat)
    requires k <= |requests|
  {
    Matches(s, h) && HoldsStored(h, requests, k)
  }

  lemma SetFirst(requests: seq<Request>) returns (s: seq<Entry<int>>, h: seq<HeapEntry<int>>)
    ensures s == InList(requests, 0) && h == InSet(requests, 0) && InStep(s, h, requests, 0)
  {
    s, h := [], [];
  }

  lemma SetNext(requests: seq<Request>, k: nat, s: seq<Entry<int>>, h: seq<HeapEntry<int>>)
    returns (s': seq<Entry<int>>, h': seq<HeapEntry<int>>)
    requires k < |requests| && InStep(s, h, requests, k) && SetAccepts(requests, k)
    requires s == InList(requests, k) && h == InSet(requests, k)
    ensures s' == InList(requests, k + 1) && h' == InSet(requests, k + 1) && InStep(s', h', requests, k + 1)
  {
    s', h' := ListStep(s, CallOf(requests[k], k)), HeapStep(h, CallOf(requests[k], k));
    NextState(requests, k);
    SetStep(s, h, requests, k);
  }

  lemma {:induction false} SetInOrder(requests: seq<Request>, k: nat) returns (s: seq<Entry<int>>, h: seq<HeapEntry<int>>)
    requires PossibleForSet(requests) && k <= |requests|
    ensures s == InList(requests, k) && h == InSet(requests, k) && InStep(s, h, requests, k)
  {
    if k == 0 {
      s, h := SetFirst(requests);
    } else {
      s, h := SetInOrder(requests, k - 1);
      assert SetAccepts(requests, k - 1);
      s, h := SetNext(requests, k - 1, s, h);
    }
  }

  lemma SameRunsDue(s: seq<Entry<int>>, h: seq<Entry<int>>, requests: seq<Request>, k: nat)
    requires k < |requests| && SameRan(s, h) && RunsDue(Items(s), requests, k) && ArePending(s, requests, k)
    ensures RunsDue(Items(h), requests, k) && ArePending(h, requests, k)
  {
    SameItems(s, h);
    forall i | 0 <= i < |h|
      ensures Pending(requests, h[i].item, k) == Some(h[i].expire)
    {
      assert h[i] in multiset(s);
      var j :| 0 <= j < |s| && s[j] == h[i];
    }
    DueInOrder(h, requests, k);
  }

  lemma SetRunsDue(requests: seq<Request>, k: nat)
    requires PossibleForSet(requests) && k < |requests|
    ensures RunsDue(Items(SetRuns(requests, k)), requests, k) && ArePending(SetRuns(requests, k), requests, k)
  {
    var inList, inSet := SetInOrder(requests, k);
    assert SetAccepts(requests, k);
    SetStep(inList, inSet, requests, k);
    ListRunsDue(requests, k);
    SameRunsDue(ListRuns(requests, k), SetRuns(requests, k), requests, k);
  }

  // ---------- the timers behind the entries ----------

  /** `t` is `s` with the timers in place of the numbers of the requests that added them. */
  ghost predicate Bound<A>(s: seq<Entry<int>>, handles: map<int, A>, t: seq<Entry<A>>) {
    && |s| == |t|
    && forall i {:trigger t[i]} {:trigger s[i]} :: 0 <= i < |s| ==>
         s[i].item in handles && t[i] == Entry(s[i].expire, handles[s[i].item])
  }

  ghost predicate HeapBound<A>(h: seq<HeapEntry<int>>, handles: map<int, A>, t: seq<HeapEntry<A>>) {
    && |h| == |t|
    && forall i {:trigger t[i]} {:trigger h[i]} :: 0 <= i < |h| ==>
         h[i].item in handles && t[i] == HeapEntry(h[i].expire, h[i].addr, handles[h[i].item], h[i].live)
  }

  lemma BoundInsert<A>(s: seq<Entry<int>>, handles: map<int, A>, t: seq<Entry<A>>, e: int, id: int, x: A)
    requires Bound(s, handles, t) && id !in handles
    ensures Bound(Insert(s, Entry(e, id)), handles[id := x], Insert(t, Entry(e, x)))
  {
    PlaceUnique(t, e, Place(s, e));
  }

  lemma BoundExpired<A>(s: seq<Entry<int>>, handles: map<int, A>, t: seq<Entry<A>>, now: int)
    requires Bound(s, handles, t)
    ensures Place(s, now) == Place(t, now) && Bound(s[Place(s, now)..], handles, t[Place(t, now)..])
  {
    PlaceUnique(t, now, Place(s, now));
  }

  lemma HeapBoundInsert<A>(h: seq<HeapEntry<int>>, handles: map<int, A>, t: seq<HeapEntry<A>>,
                           e: int, addr: int, id: int, x: A)
    requires HeapBound(h, handles, t) && id !in handles
    ensures HeapBound(HeapInsert(h, HeapEntry(e, addr, id, true)), handles[id := x], HeapInsert(t, HeapEntry(e, addr, x, true)))
  {
    H.HeapPlaceUnique(t, HeapEntry(e, addr, x, true), HeapPlace(h, HeapEntry(e, addr, id, true)));
  }

  lemma {:induction false} LiveBound<A>(h: seq<HeapEntry<int>>, handles: map<int, A>, t: seq<HeapEntry<A>>, n: nat)
    requires HeapBound(h, handles, t) && n <= |h|
    ensures Bound(LiveIn(h, n), handles, LiveIn(t, n))
  {
    if n > 0 {
      LiveBound(h, handles, t, n - 1);
    }
  }

  lemma HeapBoundExpired<A>(h: seq<HeapEntry<int>>, handles: map<int, A>, t: seq<HeapEntry<A>>, now: int)
    requires HeapBound(h, handles, t)
    ensures var p := HeapExpired(h, now);
            && p == HeapExpired(t, now) && HeapBound(h[p..], handles, t[p..])
            && Bound(Live(h[..p]), handles, Live(t[..p]))
  {
    var p := HeapExpired(h, now);
    H.HeapExpiredUnique(t, now, p);
    LiveBound(h[..p], handles, t[..p], p);
  }

}
