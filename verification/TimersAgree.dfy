/** The sorted list and the ordered set themselves, driven by the same requests: what their callbacks get
    to see agrees at every tick. */
module TimersAgree {
  import opened Sequences
  import opened TimerOrder
  import opened TimerRuns
  import opened TimerRequests
  import L = SortedTimerList
  import H = TimeHeap

  // ---------- whose timers they are ----------

  /** `users` has the user data of every timer added before request `k`. */
  ghost predicate AreUsers(users: map<int, int>, requests: seq<Request>, k: nat)
    requires k <= |requests|
  {
    && (forall id :: Added(requests, id, k) ==> id in users)
    && (forall id :: id in users ==> Added(requests, id, k) && users[id] == requests[id].user)
  }

  /** The request adds its timer to them, if it adds one. */
  ghost predicate Gives(users: map<int, int>, users': map<int, int>, r: Request, k: int) {
    users' == if r.Add? then users[k := r.user] else users
  }

  ghost predicate RanThese(ran: seq<int>, due: seq<Entry<int>>, users: map<int, int>) {
    |ran| == |due| && forall i :: 0 <= i < |due| ==> due[i].item in users && ran[i] == users[due[i].item]
  }

  lemma UsersNext(users: map<int, int>, users': map<int, int>, requests: seq<Request>, k: nat)
    requires k < |requests| && AreUsers(users, requests, k) && Gives(users, users', requests[k], k)
    ensures AreUsers(users', requests, k + 1)
  {
  }

  lemma SeesThese(ran: seq<int>, due: seq<Entry<int>>, users: map<int, int>, requests: seq<Request>, k: nat)
    requires k < |requests| && AreUsers(users, requests, k + 1) && RanThese(ran, due, users)
    requires RunsDue(Items(due), requests, k)
    ensures RanRight(ran, requests, k)
  {
    assert Sees(ran, Items(due), requests);
  }

  // ---------- the list ----------

  ghost function Nodes(list: L.SortedTimerLst): set<L.UtilTimer>
    reads list
  {
    set t | t in list.nodes
  }

  function UsersOf(handles: map<int, L.UtilTimer>): map<int, int> {
    map id | id in handles :: handles[id].user_data
  }

  method ListAdd(list: L.SortedTimerLst, r: Request, k: int, handles: map<int, L.UtilTimer>, ghost s: seq<Entry<int>>)
    returns (timer: L.UtilTimer)
    requires r.Add? && list.Valid() && Bound(s, handles, list.Entries()) && k !in handles
    modifies list, list.nodes`prev, list.nodes`next
    ensures list.Valid() && fresh(timer) && Nodes(list) <= old(Nodes(list)) + {timer} && timer.user_data == r.user
    ensures Bound(ListStep(s, CallOf(r, k)), handles[k := timer], list.Entries())
  {
    timer := new L.UtilTimer(r.user, r.expire);
    ghost var nodes, t := list.nodes, list.Entries();
    list.AddTimer(timer);
    BoundInsert(s, handles, t, r.expire, k, timer);
    Gained(nodes, list.nodes, timer);
  }

  method ListDelete(list: L.SortedTimerLst, r: Request, ghost k: int, handles: map<int, L.UtilTimer>, ghost s: seq<Entry<int>>)
    requires r.Cancel? && list.Valid() && Bound(s, handles, list.Entries()) && DistinctInList(s)
    requires exists i :: 0 <= i < |s| && s[i].item == r.id
    modifies list, list.nodes`prev, list.nodes`next
    ensures list.Valid() && Nodes(list) <= old(Nodes(list))
    ensures Bound(ListStep(s, CallOf(r, k)), handles, list.Entries())
  {
    ghost var i :| 0 <= i < |s| && s[i].item == r.id;
    ghost var t := list.Entries();
    assert t[i] == Entry(s[i].expire, handles[r.id]) && list.nodes[i] == t[i].item;
    DeleteAt(list, handles[r.id], i);
    CancelAt(s, i);
    BoundRemove(s, handles, t, i);
  }

  method DeleteAt(list: L.SortedTimerLst, timer: L.UtilTimer, ghost i: nat)
    requires list.Valid() && i < |list.nodes| && list.nodes[i] == timer
    modifies list, list.nodes`prev, list.nodes`next
    ensures list.Valid() && list.Entries() == RemoveAt(old(list.Entries()), i)
    ensures Nodes(list) <= old(Nodes(list))
  {
    ghost var nodes := list.nodes;
    list.DelTimer(timer);
    assert L.IndexOf(nodes, timer) == i;
    assert forall t :: t in RemoveAt(nodes, i) ==> t in nodes;
  }

  method ListTick(list: L.SortedTimerLst, r: Request, ghost k: int, ghost handles: map<int, L.UtilTimer>, ghost s: seq<Entry<int>>)
    returns (ran: seq<int>)
    requires r.Tick? && list.Valid() && Bound(s, handles, list.Entries())
    modifies list, list.nodes`prev
    ensures list.Valid() && Nodes(list) <= old(Nodes(list))
    ensures Bound(ListStep(s, CallOf(r, k)), handles, list.Entries())
    ensures RanThese(ran, ListRan(s, CallOf(r, k)), UsersOf(handles))
  {
    ghost var nodes, t := list.nodes, list.Entries();
    BoundExpired(s, handles, t, r.now);
    ran := list.Tick(r.now);
    forall i | 0 <= i < |ran|
      ensures s[i].item in handles && ran[i] == handles[s[i].item].user_data
    {
      assert t[i] == Entry(s[i].expire, handles[s[i].item]) && nodes[i] == t[i].item;
    }
    assert forall u :: u in nodes[Place(t, r.now)..] ==> u in nodes;
  }

  method ListDo(list: L.SortedTimerLst, r: Request, k: int, handles: map<int, L.UtilTimer>, ghost s: seq<Entry<int>>)
    returns (ran: seq<int>, handles': map<int, L.UtilTimer>)
    requires list.Valid() && Bound(s, handles, list.Entries()) && DistinctInList(s) && k !in handles
    requires r.Cancel? ==> exists i :: 0 <= i < |s| && s[i].item == r.id
    modifies list, list.nodes`prev, list.nodes`next
    ensures list.Valid() && fresh(Nodes(list) - old(Nodes(list)))
    ensures Bound(ListStep(s, CallOf(r, k)), handles', list.Entries())
    ensures Gives(UsersOf(handles), UsersOf(handles'), r, k)
    ensures RanThese(ran, ListRan(s, CallOf(r, k)), UsersOf(handles'))
  {
    ran, handles' := [], handles;
    if r.Add? {
      var timer := ListAdd(list, r, k, handles, s);
      handles' := handles[k := timer];
      UsersGiven(handles, timer, r, k);
    } else if r.Cancel? {
      ListDelete(list, r, k, handles, s);
    } else {
      ran := ListTick(list, r, k, handles, s);
    }
  }

  lemma UsersGiven(handles: map<int, L.UtilTimer>, timer: L.UtilTimer, r: Request, k: int)
    requires r.Add? && timer.user_data == r.user
    ensures Gives(UsersOf(handles), UsersOf(handles[k := timer]), r, k)
  {
  }

  lemma BoundRemove<A>(s: seq<Entry<int>>, handles: map<int, A>, t: seq<Entry<A>>, i: nat)
    requires Bound(s, handles, t) && i < |s|
    ensures Bound(RemoveAt(s, i), handles, RemoveAt(t, i))
  {
  }

  lemma CancelAt(s: seq<Entry<int>>, i: nat)
    requires DistinctInList(s) && i < |s|
    ensures ListCancel(s, s[i].item) == RemoveAt(s, i)
  {
    ListCancelRemoves(s, i);
  }

  lemma Gained(s: seq<L.UtilTimer>, s': seq<L.UtilTimer>, timer: L.UtilTimer)
    requires multiset(s') == multiset(s) + multiset(L.Only(timer))
    ensures forall t :: t in s' ==> t in s || t == timer
  {
    forall t | t in s'
      ensures t in s || t == timer
    {
      assert t in multiset(s');
    }
  }

  method ListNext(list: L.SortedTimerLst, r: Request, k: nat, handles: map<int, L.UtilTimer>, ghost requests: seq<Request>)
    returns (ran: seq<int>, handles': map<int, L.UtilTimer>)
    requires k < |requests| && r == requests[k] && ListAccepts(requests, k)
    requires list.Valid() && Bound(InList(requests, k), handles, list.Entries())
    requires AreUsers(UsersOf(handles), requests, k)
    modifies list, Nodes(list)
    ensures list.Valid() && Bound(InList(requests, k + 1), handles', list.Entries())
    ensures AreUsers(UsersOf(handles'), requests, k + 1) && fresh(Nodes(list) - old(Nodes(list)))
    ensures RanRight(ran, requests, k)
  {
    NextState(requests, k);
    ListInOrder(requests, k);
    ListRunsDue(requests, k);
    if r.Cancel? {
      PendingIsListed(requests, k);
    }
    ran, handles' := ListDo(list, r, k, handles, InList(requests, k));
    UsersNext(UsersOf(handles), UsersOf(handles'), requests, k);
    SeesThese(ran, ListRuns(requests, k), UsersOf(handles'), requests, k);
  }

  lemma PendingIsListed(requests: seq<Request>, k: nat)
    requires k < |requests| && ListAccepts(requests, k) && requests[k].Cancel?
    ensures exists i :: 0 <= i < |InList(requests, k)| && InList(requests, k)[i].item == requests[k].id
  {
    var id := requests[k].id;
    var e := Entry(Pending(requests, id, k).value, id);
    ListedIsPending(requests, k, e);
    var i :| 0 <= i < |InList(requests, k)| && InList(requests, k)[i] == e;
  }


  // ---------- the ordered set ----------

  ghost function Elements(heap: H.TimeHeap): set<H.HeapTimer>
    reads heap
  {
    set t | t in heap.timers
  }

  function SetUsersOf(handles: map<int, H.HeapTimer>): map<int, int> {
    map id | id in handles :: handles[id].user_data
  }

  /** No two requests added the same timer. */
  ghost predicate Apart(handles: map<int, H.HeapTimer>) {
    forall i, j :: i in handles && j in handles && handles[i] == handles[j] ==> i == j
  }

  method SetAdd(heap: H.TimeHeap, r: Request, k: int, handles: map<int, H.HeapTimer>, ghost h: seq<HeapEntry<int>>)
    returns (timer: H.HeapTimer)
    requires r.Add? && heap.Valid() && HeapBound(h, handles, heap.View()) && k !in handles
    modifies heap
    ensures heap.Valid() && fresh(timer) && timer.user_data == r.user
    ensures forall t :: t in heap.timers ==> t in old(heap.timers) || t == timer
    ensures HeapBound(HeapStep(h, CallOf(r, k)), handles[k := timer], heap.View())
  {
    timer := new H.HeapTimer(r.expire, r.addr, r.user);
    ghost var t := heap.View();
    AddToSet(heap, timer);
    HeapBoundInsert(h, handles, t, r.expire, r.addr, k, timer);
  }

  method AddToSet(heap: H.TimeHeap, timer: H.HeapTimer)
    requires heap.Valid()
    modifies heap
    ensures heap.Valid() && heap.View() == HeapInsert(old(heap.View()), H.ViewOne(timer))
    ensures forall t :: t in heap.timers ==> t in old(heap.timers) || t == timer
  {
    ghost var timers := heap.timers;
    heap.AddTimer(timer);
    HeapGained(timers, heap.timers, timer);
  }

  method SetDelete(heap: H.TimeHeap, r: Request, ghost k: int, handles: map<int, H.HeapTimer>, ghost h: seq<HeapEntry<int>>)
    requires r.Cancel? && heap.Valid() && HeapBound(h, handles, heap.View()) && Apart(handles) && r.id in handles
    modifies handles.Values
    ensures HeapBound(HeapStep(h, CallOf(r, k)), handles, heap.View())
  {
    HeapBoundCancel(h, handles, heap.View(), r.id);
    heap.DelTimer(handles[r.id]);
  }

  lemma BoundRan(due: seq<Entry<int>>, handles: map<int, H.HeapTimer>, t: seq<Entry<H.HeapTimer>>)
    requires Bound(due, handles, t)
    ensures RanThese(H.Users(t), due, SetUsersOf(handles))
  {
  }

  lemma TickBound(h: seq<HeapEntry<int>>, handles: map<int, H.HeapTimer>, t: seq<HeapEntry<H.HeapTimer>>, r: Request, k: int)
    requires r.Tick? && HeapBound(h, handles, t)
    ensures HeapBound(HeapStep(h, CallOf(r, k)), handles, t[HeapExpired(t, r.now)..])
    ensures RanThese(H.Users(Live(t[..HeapExpired(t, r.now)])), HeapRan(h, CallOf(r, k)), SetUsersOf(handles))
  {
    HeapBoundExpired(h, handles, t, r.now);
    BoundRan(HeapRan(h, CallOf(r, k)), handles, Live(t[..HeapExpired(t, r.now)]));
  }

  method SetTick(heap: H.TimeHeap, r: Request, ghost k: int, ghost handles: map<int, H.HeapTimer>, ghost h: seq<HeapEntry<int>>)
    returns (ran: seq<int>)
    requires r.Tick? && heap.Valid() && HeapBound(h, handles, heap.View())
    modifies heap
    ensures heap.Valid() && HeapBound(HeapStep(h, CallOf(r, k)), handles, heap.View())
    ensures forall t :: t in heap.timers ==> t in old(heap.timers)
    ensures RanThese(ran, HeapRan(h, CallOf(r, k)), SetUsersOf(handles))
  {
    TickBound(h, handles, heap.View(), r, k);
    ran := heap.Tick(r.now);
  }

  method SetDo(heap: H.TimeHeap, r: Request, k: int, handles: map<int, H.HeapTimer>, ghost h: seq<HeapEntry<int>>)
    returns (ran: seq<int>, handles': map<int, H.HeapTimer>)
    requires heap.Valid() && HeapBound(h, handles, heap.View()) && Apart(handles) && k !in handles
    requires r.Cancel? ==> r.id in handles
    modifies heap, handles.Values
    ensures heap.Valid() && HeapBound(HeapStep(h, CallOf(r, k)), handles', heap.View()) && Apart(handles')
    ensures fresh(Elements(heap) - old(Elements(heap))) && fresh(handles'.Values - handles.Values)
    ensures Gives(SetUsersOf(handles), SetUsersOf(handles'), r, k)
    ensures RanThese(ran, HeapRan(h, CallOf(r, k)), SetUsersOf(handles'))
  {
    ran, handles' := [], handles;
    if r.Add? {
      var timer := SetAdd(heap, r, k, handles, h);
      handles' := handles[k := timer];
      SetUsersGiven(handles, timer, r, k);
    } else if r.Cancel? {
      SetDelete(heap, r, k, handles, h);
    } else {
      ran := SetTick(heap, r, k, handles, h);
    }
  }

  lemma SetUsersGiven(handles: map<int, H.HeapTimer>, timer: H.HeapTimer, r: Request, k: int)
    requires r.Add? && timer.user_data == r.user
    ensures Gives(SetUsersOf(handles), SetUsersOf(handles[k := timer]), r, k)
  {
  }

  lemma HeapBoundCancel(h: seq<HeapEntry<int>>, handles: map<int, H.HeapTimer>, t: seq<HeapEntry<H.HeapTimer>>, id: int)
    requires HeapBound(h, handles, t) && Apart(handles) && id in handles
    ensures HeapBound(HeapCancel(h, id), handles, HeapCancel(t, handles[id]))
  {
    forall i | 0 <= i < |h|
      ensures h[i].item in handles && (h[i].item == id <==> t[i].item == handles[id])
    {
      assert t[i].item == handles[h[i].item];
    }
  }

  lemma HeapGained(s: seq<H.HeapTimer>, s': seq<H.HeapTimer>, timer: H.HeapTimer)
    requires H.ViewOf(s') == HeapInsert(H.ViewOf(s), H.ViewOne(timer))
    ensures forall t :: t in s' ==> t in s || t == timer
  {
    forall t | t in s'
      ensures t in s || t == timer
    {
      var i :| 0 <= i < |s'| && s'[i] == t;
      assert H.ViewOf(s')[i].item == t;
      InsertedAt(H.ViewOf(s), H.ViewOne(timer), i);
    }
  }


  method SetNext(heap: H.TimeHeap, r: Request, k: nat, handles: map<int, H.HeapTimer>, ghost requests: seq<Request>)
    returns (ran: seq<int>, handles': map<int, H.HeapTimer>)
    requires PossibleForSet(requests) && k < |requests| && r == requests[k]
    requires heap.Valid() && HeapBound(InSet(requests, k), handles, heap.View()) && Apart(handles)
    requires AreUsers(SetUsersOf(handles), requests, k)
    modifies heap, handles.Values
    ensures heap.Valid() && HeapBound(InSet(requests, k + 1), handles', heap.View()) && Apart(handles')
    ensures AreUsers(SetUsersOf(handles'), requests, k + 1)
    ensures fresh(Elements(heap) - old(Elements(heap))) && fresh(handles'.Values - handles.Values)
    ensures RanRight(ran, requests, k)
  {
    NextState(requests, k);
    SetRunsDue(requests, k);
    assert SetAccepts(requests, k);
    ran, handles' := SetDo(heap, r, k, handles, InSet(requests, k));
    UsersNext(SetUsersOf(handles), SetUsersOf(handles'), requests, k);
    SeesThese(ran, SetRuns(requests, k), SetUsersOf(handles'), requests, k);
  }

  // ---------- whole runs ----------

  ghost predicate AllRight(ran: seq<seq<int>>, requests: seq<Request>) {
    |ran| <= |requests| && forall k :: 0 <= k < |ran| ==> RanRight(ran[k], requests, k)
  }

  lemma OneMoreRight(ran: seq<seq<int>>, now: seq<int>, requests: seq<Request>)
    requires AllRight(ran, requests) && |ran| < |requests| && RanRight(now, requests, |ran|)
    ensures AllRight(ran + [now], requests)
  {
  }

  /** Every run of the list in which only pending timers are cancelled. */
  method ExecuteList(requests: seq<Request>) returns (ran: seq<seq<int>>)
    requires PossibleForList(requests)
    ensures |ran| == |requests| && AllRight(ran, requests)
  {
    var list := new L.SortedTimerLst();
    var handles: map<int, L.UtilTimer> := map[];
    ran := [];
    for k := 0 to |requests|
      invariant fresh(list) && fresh(Nodes(list)) && list.Valid()
      invariant Bound(InList(requests, k), handles, list.Entries()) && AreUsers(UsersOf(handles), requests, k)
      invariant |ran| == k && AllRight(ran, requests)
    {
      assert ListAccepts(requests, k);
      var now;
      now, handles := ListNext(list, requests[k], k, handles, requests);
      OneMoreRight(ran, now, requests);
      ran := ran + [now];
    }
  }

  /** Every run of the ordered set: timers may be cancelled again, or after they ran. */
  method ExecuteSet(requests: seq<Request>) returns (ran: seq<seq<int>>)
    requires PossibleForSet(requests)
    ensures |ran| == |requests| && AllRight(ran, requests)
  {
    var heap := new H.TimeHeap();
    var handles: map<int, H.HeapTimer> := map[];
    ran := [];
    for k := 0 to |requests|
      invariant fresh(heap) && fresh(Elements(heap)) && fresh(handles.Values) && heap.Valid() && Apart(handles)
      invariant HeapBound(InSet(requests, k), handles, heap.View()) && AreUsers(SetUsersOf(handles), requests, k)
      invariant |ran| == k && AllRight(ran, requests)
    {
      var now;
      now, handles := SetNext(heap, requests[k], k, handles, requests);
      OneMoreRight(ran, now, requests);
      ran := ran + [now];
    }
  }

  /** Both structures on the same requests: at every tick, the callbacks of both get the user data of
      exactly the timers that the requests so far left pending and due, each once, in order of expire;
      so they get the same. */
  method Execute(requests: seq<Request>) returns (listRan: seq<seq<int>>, setRan: seq<seq<int>>)
    requires PossibleForList(requests) && PossibleForSet(requests)
    ensures |listRan| == |setRan| == |requests| && AllRight(listRan, requests) && AllRight(setRan, requests)
    ensures forall k :: 0 <= k < |requests| ==> multiset(listRan[k]) == multiset(setRan[k])
  {
    listRan := ExecuteList(requests);
    setRan := ExecuteSet(requests);
    forall k | 0 <= k < |requests|
      ensures multiset(listRan[k]) == multiset(setRan[k])
    {
      assert RanRight(listRan[k], requests, k) && RanRight(setRan[k], requests, k);
      SameUsers(listRan[k], setRan[k], requests, k);
    }
  }

  /** Such runs include a user whose timer is cancelled and who gets another one while the first is still
      in the set. */
  lemma SameUserAgain()
    ensures var requests := [Request.Add(15, 1, 7), Request.Cancel(0), Request.Add(19, 2, 7), Request.Tick(20)];
            && PossibleForList(requests) && PossibleForSet(requests)
            && Stored(requests, 0, 3) && !IsDue(requests, 0, 3) && IsDue(requests, 2, 3)
  {
    var requests := [Request.Add(15, 1, 7), Request.Cancel(0), Request.Add(19, 2, 7), Request.Tick(20)];
    assert Pending(requests, 0, 1) == Some(15) && Pending(requests, 0, 2) == None && Pending(requests, 0, 3) == None;
    assert Pending(requests, 2, 3) == Some(19);
    forall k | 0 <= k < |requests|
      ensures ListAccepts(requests, k) && SetAccepts(requests, k)
    {
      assert k == 0 || k == 1 || k == 2 || k == 3;
      forall id | requests[k].Add?
        ensures OtherAddress(requests, id, k)
      {
        assert Stored(requests, id, k) ==> id == 0;
      }
    }
  }

  lemma SameUsers(a: seq<int>, b: seq<int>, requests: seq<Request>, k: nat)
    requires k < |requests| && RanRight(a, requests, k) && RanRight(b, requests, k)
    ensures multiset(a) == multiset(b)
  {
    var i :| RunsDue(i, requests, k) && Sees(a, i, requests);
    var j :| RunsDue(j, requests, k) && Sees(b, j, requests);
    forall id
      ensures multiset(i)[id] == multiset(j)[id]
    {
    }
    SeesSame(a, i, b, j, requests);
  }

  lemma {:induction false} SeesSame(a: seq<int>, i: seq<int>, b: seq<int>, j: seq<int>, requests: seq<Request>)
    requires Sees(a, i, requests) && Sees(b, j, requests) && multiset(i) == multiset(j)
    ensures multiset(a) == multiset(b)
  {
    if i == [] {
      assert |multiset(j)| == 0;
    } else {
      assert i[0] in multiset(j);
      var p :| 0 <= p < |j| && j[p] == i[0];
      RemovedOne(a, 0);
      RemovedOne(i, 0);
      RemovedOne(b, p);
      RemovedOne(j, p);
      SameRemainder(multiset(RemoveAt(i, 0)), multiset(RemoveAt(j, p)), i[0]);
      SeesSame(RemoveAt(a, 0), RemoveAt(i, 0), RemoveAt(b, p), RemoveAt(j, p), requests);
    }
  }
}
