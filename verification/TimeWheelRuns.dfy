/** Runs of a timing wheel, told by nothing but the calls: which callbacks run at which tick, and that
    no timer gets lost. */
module TimeWheelRuns {
  import opened Sequences
  import opened TimeWheel

  /** `addTimer(timeout)`, `delTimer` of the timer that call number `id` added, `tick()`. */
  datatype Command = Add(timeout: int) | Delete(id: nat) | Turn

  function Ticks(commands: seq<Command>, k: nat): nat
    requires k <= |commands|
  {
    if k == 0 then 0 else Ticks(commands, k - 1) + (if commands[k - 1] == Turn then 1 else 0)
  }

  /** Call `id` came before call `k` and added a timer. */
  predicate Added(commands: seq<Command>, id: nat, k: nat)
    requires k <= |commands|
  {
    id < k && commands[id].Add? && commands[id].timeout >= 0
  }

  predicate Deleted(commands: seq<Command>, id: nat, k: nat)
    requires k <= |commands|
  {
    exists j :: 0 <= j < k && commands[j] == Delete(id)
  }

  /** The ticks between adding the timer and the one it runs on, which is the next one behind them. */
  function Wait(c: Command): nat {
    if c.Add? && c.timeout > 1 then c.timeout else 1
  }

  /** Call `k` is the (max(1, timeout) + 1)-th tick behind the call that added the timer, and nobody
      deleted it before. */
  predicate RunsAt(commands: seq<Command>, id: nat, k: nat)
    requires k < |commands|
  {
    && commands[k] == Turn && Added(commands, id, k) && !Deleted(commands, id, k)
    && Ticks(commands, k + 1) - Ticks(commands, id) == Wait(commands[id]) + 1
  }

  /** Neither deleted nor so old that it has run. */
  predicate Waiting(commands: seq<Command>, id: nat, k: nat)
    requires k <= |commands|
  {
    && Added(commands, id, k) && !Deleted(commands, id, k)
    && Ticks(commands, k) - Ticks(commands, id) <= Wait(commands[id])
  }

  /** As a pointer to a timer demands, only timers still waiting are deleted. */
  predicate Possible(commands: seq<Command>) {
    forall k :: 0 <= k < |commands| ==> PossibleAt(commands, k)
  }

  predicate PossibleAt(commands: seq<Command>, k: nat)
    requires k < |commands|
  {
    commands[k].Delete? ==> Waiting(commands, commands[k].id, k)
  }

  // ---------- what the calls say ----------

  lemma {:induction false} TicksGrow(commands: seq<Command>, j: nat, k: nat)
    requires j <= k <= |commands|
    ensures Ticks(commands, j) <= Ticks(commands, k)
  {
    if j < k {
      TicksGrow(commands, j, k - 1);
    }
  }

  ghost predicate HasRun(commands: seq<Command>, id: nat, k: nat)
    requires k <= |commands|
  {
    exists j :: 0 <= j < k && RunsAt(commands, id, j)
  }

  /** A timer runs at one tick at most, and it has run exactly if it was not deleted and more than
      max(1, timeout) ticks came since it was added; until then it waits. */
  lemma FiresExactlyOnce(commands: seq<Command>, id: nat, k: nat)
    requires Possible(commands) && k <= |commands| && Added(commands, id, k)
    ensures HasRun(commands, id, k) <==>
              !Deleted(commands, id, k) && Ticks(commands, k) - Ticks(commands, id) > Wait(commands[id])
    ensures Waiting(commands, id, k) <==> !Deleted(commands, id, k) && !HasRun(commands, id, k)
    ensures forall i, j :: 0 <= i < j < k ==> !(RunsAt(commands, id, i) && RunsAt(commands, id, j))
  {
    RunsInTime(commands, id, k);
    forall i, j | 0 <= i < j < k
      ensures !(RunsAt(commands, id, i) && RunsAt(commands, id, j))
    {
      if RunsAt(commands, id, i) {
        NotTwice(commands, id, i, j);
      }
    }
  }

  lemma {:induction false} RunsInTime(commands: seq<Command>, id: nat, k: nat)
    requires Possible(commands) && k <= |commands| && Added(commands, id, k)
    ensures HasRun(commands, id, k) <==>
              !Deleted(commands, id, k) && Ticks(commands, k) - Ticks(commands, id) > Wait(commands[id])
  {
    if id == k - 1 {
      NotYet(commands, id);
    } else {
      RunsInTime(commands, id, k - 1);
      RunNext(commands, id, k - 1);
      assert PossibleAt(commands, k - 1);
    }
  }

  lemma NotTwice(commands: seq<Command>, id: nat, i: nat, j: nat)
    requires i < j < |commands| && RunsAt(commands, id, i)
    ensures !RunsAt(commands, id, j)
  {
    TicksGrow(commands, i + 1, j);
  }

  lemma NotYet(commands: seq<Command>, id: nat)
    requires Possible(commands) && id < |commands| && Added(commands, id, id + 1)
    ensures !Deleted(commands, id, id + 1) && !HasRun(commands, id, id + 1)
    ensures Ticks(commands, id + 1) == Ticks(commands, id)
  {
    forall j | 0 <= j < id + 1
      ensures commands[j] != Delete(id)
    {
      assert PossibleAt(commands, j);
    }
  }

  lemma RunNext(commands: seq<Command>, id: nat, k: nat)
    requires k < |commands|
    ensures HasRun(commands, id, k + 1) <==> HasRun(commands, id, k) || RunsAt(commands, id, k)
    ensures Deleted(commands, id, k + 1) <==> Deleted(commands, id, k) || commands[k] == Delete(id)
  {
    if HasRun(commands, id, k) {
      var j :| 0 <= j < k && RunsAt(commands, id, j);
    }
    if Deleted(commands, id, k) {
      var j :| 0 <= j < k && commands[j] == Delete(id);
    }
  }

  // ---------- the wheel itself ----------

  /** The nodes of the wheel are exactly the waiting timers: `handles` finds a timer by the call that
      added it, `ids` the other way round. */
  ghost predicate Holds(nodes: set<TwTimer>, handles: map<nat, TwTimer>, ids: map<TwTimer, nat>,
                        commands: seq<Command>, k: nat)
    requires k <= |commands|
  {
    && (forall t :: t in nodes ==> t in ids && IsTimer(t, ids[t], handles, commands, k))
    && (forall id :: Waiting(commands, id, k) ==> id in handles && handles[id] in nodes && ids[handles[id]] == id)
  }

  ghost predicate IsTimer(t: TwTimer, id: nat, handles: map<nat, TwTimer>, commands: seq<Command>, k: nat)
    requires k <= |commands|
  {
    && id in handles && handles[id] == t && Waiting(commands, id, k)
    && t.due == Ticks(commands, id) + Wait(commands[id])
  }

  /** What call `k` is to run: every timer whose tick it is, once. */
  ghost predicate RunsDue(ran: seq<nat>, commands: seq<Command>, k: nat)
    requires k < |commands|
  {
    Distinct(ran) && forall id :: id in ran <==> RunsAt(commands, id, k)
  }

  /** How many calls added a timer, and how many deleted one. */
  function Adds(commands: seq<Command>, k: nat): nat
    requires k <= |commands|
  {
    if k == 0 then 0 else Adds(commands, k - 1) + (if Added(commands, k - 1, k) then 1 else 0)
  }

  function Deletes(commands: seq<Command>, k: nat): nat
    requires k <= |commands|
  {
    if k == 0 then 0 else Deletes(commands, k - 1) + (if commands[k - 1].Delete? then 1 else 0)
  }

  /** How many callbacks ran in all. */
  function Total(ran: seq<seq<nat>>): nat {
    if ran == [] then 0 else Total(ran[..|ran| - 1]) + |ran[|ran| - 1]|
  }

  lemma WaitingNext(commands: seq<Command>, id: nat, k: nat)
    requires Possible(commands) && k < |commands|
    ensures Waiting(commands, id, k + 1) <==>
              || (id == k && Added(commands, k, k + 1))
              || (Waiting(commands, id, k) && commands[k] != Delete(id) && !RunsAt(commands, id, k))
  {
    RunNext(commands, id, k);
    if id == k && Added(commands, k, k + 1) {
      NotYet(commands, k);
    }
  }

  lemma {:induction false} SetSize(s: seq<TwTimer>)
    requires Distinct(s)
    ensures |set t | t in s| == |s|
  {
    if s != [] {
      var front := s[..|s| - 1];
      SetSize(front);
      assert (set t | t in s) == (set t | t in front) + {s[|s| - 1]};
    }
  }

  lemma HoldsAdded(nodes: set<TwTimer>, timer: TwTimer, handles: map<nat, TwTimer>, ids: map<TwTimer, nat>,
                   commands: seq<Command>, k: nat)
    requires Possible(commands) && k < |commands| && Added(commands, k, k + 1)
    requires Holds(nodes, handles, ids, commands, k) && timer !in nodes
    requires timer.due == Ticks(commands, k) + Wait(commands[k])
    ensures Holds(nodes + {timer}, handles[k := timer], ids[timer := k], commands, k + 1)
  {
    forall id
      ensures Waiting(commands, id, k + 1) <==> id == k || Waiting(commands, id, k)
    {
      WaitingNext(commands, id, k);
    }
    forall id | Waiting(commands, id, k + 1) && id != k
      ensures id in handles && handles[id] in nodes && ids[timer := k][handles[id]] == id
    {
      assert Waiting(commands, id, k);
    }
    forall t | t in nodes
      ensures IsTimer(t, ids[t], handles[k := timer], commands, k + 1)
    {
      assert IsTimer(t, ids[t], handles, commands, k);
    }
    WaitingNext(commands, k, k);
    assert Waiting(commands, k, k + 1) && IsTimer(timer, k, handles[k := timer], commands, k + 1);
  }

  lemma HoldsOthers(nodes: set<TwTimer>, gone: set<TwTimer>, handles: map<nat, TwTimer>, ids: map<TwTimer, nat>,
                    commands: seq<Command>, k: nat)
    requires Possible(commands) && k < |commands| && !Added(commands, k, k + 1)
    requires Holds(nodes, handles, ids, commands, k)
    requires forall t :: t in nodes ==>
               t in ids && (t in gone <==> commands[k] == Delete(ids[t]) || RunsAt(commands, ids[t], k))
    ensures Holds(nodes - gone, handles, ids, commands, k + 1)
  {
    forall id
      ensures Waiting(commands, id, k + 1) <==>
                Waiting(commands, id, k) && commands[k] != Delete(id) && !RunsAt(commands, id, k)
    {
      WaitingNext(commands, id, k);
    }
    forall id | Waiting(commands, id, k + 1)
      ensures id in handles && handles[id] in nodes - gone && ids[handles[id]] == id
    {
      assert handles[id] in nodes && ids[handles[id]] == id;
    }
    forall t | t in nodes - gone
      ensures IsTimer(t, ids[t], handles, commands, k + 1)
    {
      assert IsTimer(t, ids[t], handles, commands, k);
    }
  }

  /** What the calls up to `k` have made of the wheel. */
  ghost predicate Reached(wheel: TimeWheel, handles: map<nat, TwTimer>, ids: map<TwTimer, nat>,
                          commands: seq<Command>, k: nat)
    requires k <= |commands|
    reads wheel, wheel.slots, wheel.Nodes()
  {
    wheel.Valid() && wheel.ticks == Ticks(commands, k) && Holds(wheel.Nodes(), handles, ids, commands, k)
  }

  method AddOne(wheel: TimeWheel, timeout: int, k: nat, handles: map<nat, TwTimer>, ids: map<TwTimer, nat>,
                ghost commands: seq<Command>)
    returns (handles': map<nat, TwTimer>, ids': map<TwTimer, nat>)
    requires Possible(commands) && k < |commands| && commands[k] == Add(timeout)
    requires Reached(wheel, handles, ids, commands, k)
    modifies wheel, wheel.slots, wheel.Nodes()
    ensures Reached(wheel, handles', ids', commands, k + 1) && fresh(wheel.Nodes() - old(wheel.Nodes()))
    ensures |wheel.Nodes()| == |old(wheel.Nodes())| + (if timeout >= 0 then 1 else 0)
  {
    ghost var nodes := wheel.Nodes();
    var timer := wheel.AddTimer(timeout);
    if timer == null {
      handles', ids' := handles, ids;
      HoldsOthers(nodes, {}, handles, ids, commands, k);
      assert nodes - {} == nodes;
    } else {
      handles', ids' := handles[k := timer], ids[timer := k];
      HoldsAdded(nodes, timer, handles, ids, commands, k);
    }
  }

  method DeleteOne(wheel: TimeWheel, id: nat, ghost k: nat, handles: map<nat, TwTimer>, ghost ids: map<TwTimer, nat>,
                   ghost commands: seq<Command>)
    requires Possible(commands) && k < |commands| && commands[k] == Delete(id)
    requires Reached(wheel, handles, ids, commands, k)
    modifies wheel, wheel.slots, wheel.Nodes()
    ensures Reached(wheel, handles, ids, commands, k + 1) && wheel.Nodes() <= old(wheel.Nodes())
    ensures |wheel.Nodes()| == |old(wheel.Nodes())| - 1
  {
    ghost var nodes := wheel.Nodes();
    assert PossibleAt(commands, k);
    wheel.DelTimer(handles[id]);
    HoldsOthers(nodes, {handles[id]}, handles, ids, commands, k);
  }

  method TurnOnce(wheel: TimeWheel, ghost k: nat, ghost handles: map<nat, TwTimer>, ids: map<TwTimer, nat>,
                  ghost commands: seq<Command>)
    returns (ran: seq<nat>)
    requires Possible(commands) && k < |commands| && commands[k] == Turn
    requires Reached(wheel, handles, ids, commands, k)
    modifies wheel, wheel.slots, wheel.Nodes()
    ensures Reached(wheel, handles, ids, commands, k + 1) && wheel.Nodes() <= old(wheel.Nodes())
    ensures RunsDue(ran, commands, k) && |wheel.Nodes()| == |old(wheel.Nodes())| - |ran|
  {
    ghost var nodes := wheel.Nodes();
    var fired := wheel.Tick();
    assert forall t :: t in fired ==> t in nodes;
    ran := IdsOf(fired, ids);
    FiredAreDue(fired, ran, nodes, handles, ids, commands, k);
    SetSize(fired);
    HoldsOthers(nodes, (set t | t in fired), handles, ids, commands, k);
  }

  function IdsOf(fired: seq<TwTimer>, ids: map<TwTimer, nat>): (ran: seq<nat>)
    requires forall t :: t in fired ==> t in ids
    ensures |ran| == |fired| && forall i :: 0 <= i < |fired| ==> ran[i] == ids[fired[i]]
  {
    seq(|fired|, i requires 0 <= i < |fired| => ids[fired[i]])
  }

  lemma FiredAreDue(fired: seq<TwTimer>, ran: seq<nat>, nodes: set<TwTimer>, handles: map<nat, TwTimer>,
                    ids: map<TwTimer, nat>, commands: seq<Command>, k: nat)
    requires Possible(commands) && k < |commands| && commands[k] == Turn
    requires Holds(nodes, handles, ids, commands, k)
    requires Distinct(fired) && forall t :: t in fired ==> t in nodes
    requires forall t :: t in nodes ==> (t in fired <==> t.due == Ticks(commands, k))
    requires |ran| == |fired| && forall i :: 0 <= i < |fired| ==> ran[i] == ids[fired[i]]
    ensures RunsDue(ran, commands, k)
    ensures forall t :: t in nodes ==> (t in fired <==> RunsAt(commands, ids[t], k))
  {
    forall t | t in nodes
      ensures t in fired <==> RunsAt(commands, ids[t], k)
    {
      assert IsTimer(t, ids[t], handles, commands, k);
    }
    forall id
      ensures id in ran <==> RunsAt(commands, id, k)
    {
      if id in ran {
        var i :| 0 <= i < |ran| && ran[i] == id;
        assert fired[i] in nodes;
      }
      if RunsAt(commands, id, k) {
        assert Waiting(commands, id, k);
        var i :| 0 <= i < |fired| && fired[i] == handles[id];
        assert ran[i] == id;
      }
    }
    forall i, j | 0 <= i < j < |ran|
      ensures ran[i] != ran[j]
    {
      assert fired[i] in nodes && fired[j] in nodes && fired[i] != fired[j];
    }
  }

  method DoOne(wheel: TimeWheel, c: Command, k: nat, handles: map<nat, TwTimer>, ids: map<TwTimer, nat>,
               ghost commands: seq<Command>)
    returns (now: seq<nat>, handles': map<nat, TwTimer>, ids': map<TwTimer, nat>)
    requires Possible(commands) && k < |commands| && commands[k] == c
    requires Reached(wheel, handles, ids, commands, k)
    modifies wheel, wheel.slots, wheel.Nodes()
    ensures Reached(wheel, handles', ids', commands, k + 1) && fresh(wheel.Nodes() - old(wheel.Nodes()))
    ensures RunsDue(now, commands, k)
    ensures |wheel.Nodes()| + Deletes(commands, k + 1) + |now| - Adds(commands, k + 1)
         == |old(wheel.Nodes())| + Deletes(commands, k) - Adds(commands, k)
  {
    now, handles', ids' := [], handles, ids;
    match c
    case Add(timeout) => handles', ids' := AddOne(wheel, timeout, k, handles, ids, commands);
    case Delete(id) => DeleteOne(wheel, id, k, handles, ids, commands);
    case Turn => now := TurnOnce(wheel, k, handles, ids, commands);
  }

  /** Each call so far ran exactly what it had to. */
  ghost predicate AllDue(ran: seq<seq<nat>>, commands: seq<Command>) {
    |ran| <= |commands| && forall k :: 0 <= k < |ran| ==> RunsDue(ran[k], commands, k)
  }

  lemma OneMoreDue(ran: seq<seq<nat>>, now: seq<nat>, commands: seq<Command>)
    requires AllDue(ran, commands) && |ran| < |commands| && RunsDue(now, commands, |ran|)
    ensures AllDue(ran + [now], commands) && Total(ran + [now]) == Total(ran) + |now|
  {
    assert (ran + [now])[..|ran|] == ran;
  }

  /** Any run of a wheel: each call runs exactly the timers whose tick it is, each once, what is left on
      the wheel is what is waiting, and every timer added is on the wheel, deleted or has run. */
  method Run(commands: seq<Command>)
    returns (wheel: TimeWheel, ran: seq<seq<nat>>, handles: map<nat, TwTimer>, ids: map<TwTimer, nat>)
    requires Possible(commands)
    ensures |ran| == |commands| && AllDue(ran, commands)
    ensures wheel.Valid() && Holds(wheel.Nodes(), handles, ids, commands, |commands|)
    ensures Adds(commands, |commands|) == |wheel.Nodes()| + Deletes(commands, |commands|) + Total(ran)
  {
    wheel := new TimeWheel();
    ran, handles, ids := [], map[], map[];
    for k := 0 to |commands|
      invariant fresh(wheel) && fresh(wheel.slots) && fresh(wheel.Nodes())
      invariant Reached(wheel, handles, ids, commands, k)
      invariant |ran| == k && AllDue(ran, commands)
      invariant Adds(commands, k) == |wheel.Nodes()| + Deletes(commands, k) + Total(ran)
    {
      var now;
      now, handles, ids := DoOne(wheel, commands[k], k, handles, ids, commands);
      OneMoreDue(ran, now, commands);
      ran := ran + [now];
    }
  }
}
