/** Whole runs of the idle-connection server, told by the events alone. */
module IdleRuns {
  import opened IdleServer

  // ---------- what the events say ----------

  /** An alarm came, and no round of the loop has ended since. */
  ghost predicate AlarmPending(events: seq<Event>, k: nat)
    requires k <= |events|
  {
    exists j :: 0 <= j < k && IsAlarm(events[j]) && NoRoundEnds(events, j, k)
  }

  predicate IsAlarm(e: Event) {
    e.Signals? && e.alarm
  }

  predicate NoRoundEnds(events: seq<Event>, j: nat, k: nat)
    requires k <= |events|
  {
    forall i :: j <= i < k ==> !events[i].EndOfBatch?
  }

  ghost predicate TermSeen(events: seq<Event>, k: nat)
    requires k <= |events|
  {
    exists j :: 0 <= j < k && events[j].Signals? && events[j].term
  }

  /** When something last happened on `fd` in the first `k` events: it was accepted, or data came. */
  ghost function LastActivity(events: seq<Event>, fd: int, k: nat): int
    requires k <= |events|
  {
    if k == 0 then 0
    else
      match events[k - 1]
      case Accept(f, now) => if f == fd then now else LastActivity(events, fd, k - 1)
      case Receive(f, ret, _, now) => if f == fd && ret > 0 then now else LastActivity(events, fd, k - 1)
      case _ => LastActivity(events, fd, k - 1)
  }

  /** Round `k` of the loop ends with an alarm pending, and nothing has happened on `fd` for 3 * TIMESLOT
      seconds. */
  ghost predicate TimesOut(events: seq<Event>, fd: int, k: nat)
    requires k < |events|
  {
    events[k].EndOfBatch? && AlarmPending(events, k) && events[k].now - LastActivity(events, fd, k) >= 3 * TIMESLOT
  }

  /** Event `k` closes the connection: end of file, an error other than EAGAIN, or a timer. */
  ghost predicate Closes(events: seq<Event>, fd: int, k: nat)
    requires k < |events|
  {
    || (events[k].Receive? && events[k].fd == fd && (events[k].ret == 0 || (events[k].ret < 0 && !events[k].again)))
    || TimesOut(events, fd, k)
  }

  ghost predicate OpenSince(events: seq<Event>, fd: int, j: nat, k: nat)
    requires j < k <= |events|
  {
    events[j].Accept? && events[j].fd == fd && forall i :: j < i < k ==> !Closes(events, fd, i)
  }

  /** The connection was accepted and has not been closed. */
  ghost predicate Open(events: seq<Event>, fd: int, k: nat)
    requires k <= |events|
  {
    exists j: nat :: j < k && OpenSince(events, fd, j, k)
  }

  /** Event `k` has the server read the clock. */
  ghost predicate ReadsClock(events: seq<Event>, k: nat)
    requires k < |events|
  {
    match events[k]
    case Accept(_, _) => true
    case Receive(_, ret, _, _) => ret > 0
    case Signals(_, _) => false
    case EndOfBatch(_) => AlarmPending(events, k)
  }

  function TimeOf(e: Event): int {
    if e.Signals? then 0 else e.now
  }

  /** The clock has not run backwards. */
  ghost predicate InTime(events: seq<Event>, start: int, k: nat)
    requires k < |events|
  {
    ReadsClock(events, k) ==>
      start <= TimeOf(events[k]) && forall j :: 0 <= j < k && ReadsClock(events, j) ==> TimeOf(events[j]) <= TimeOf(events[k])
  }

  /** Accept returns a descriptor that is not open; only open connections receive. */
  ghost predicate PossibleAt(events: seq<Event>, start: int, k: nat)
    requires k < |events|
  {
    && InTime(events, start, k)
    && match events[k]
       case Accept(fd, _) => 0 <= fd < FD_LIMIT && !Open(events, fd, k)
       case Receive(fd, _, _, _) => Open(events, fd, k)
       case _ => true
  }

  /** The loop gets to serve event `k`: it looks at stop_server only between two rounds. */
  ghost predicate Gets(events: seq<Event>, k: nat)
    requires k <= |events|
  {
    forall j :: 0 < j <= k && events[j - 1].EndOfBatch? ==> !TermSeen(events, j)
  }

  ghost predicate PossibleRun(events: seq<Event>, start: int) {
    forall k :: 0 <= k < |events| && Gets(events, k) ==> PossibleAt(events, start, k)
  }

  /** What timers close at event `k`: at the end of a round with an alarm pending, exactly the open
      connections that time out, each once and the longest idle first; otherwise nothing. */
  ghost predicate ClosesExactlyIdle(closed: seq<int>, events: seq<Event>, k: nat)
    requires k < |events|
  {
    && (forall fd :: fd in closed <==> Open(events, fd, k) && TimesOut(events, fd, k))
    && (forall i, j :: 0 <= i < j < |closed| ==> closed[i] != closed[j])
    && (forall i, j :: 0 <= i < j < |closed| ==> LastActivity(events, closed[i], k) <= LastActivity(events, closed[j], k))
  }

  // ---------- one event more ----------

  lemma AlarmNext(events: seq<Event>, k: nat)
    requires k < |events|
    ensures AlarmPending(events, k + 1) <==>
              !events[k].EndOfBatch? && (IsAlarm(events[k]) || AlarmPending(events, k))
  {
    if AlarmPending(events, k + 1) {
      var j :| 0 <= j < k + 1 && IsAlarm(events[j]) && NoRoundEnds(events, j, k + 1);
      assert j < k ==> NoRoundEnds(events, j, k);
    }
    if !events[k].EndOfBatch? && AlarmPending(events, k) {
      var j :| 0 <= j < k && IsAlarm(events[j]) && NoRoundEnds(events, j, k);
      assert NoRoundEnds(events, j, k + 1);
    }
    if IsAlarm(events[k]) {
      assert NoRoundEnds(events, k, k + 1);
    }
  }

  lemma TermNext(events: seq<Event>, k: nat)
    requires k < |events|
    ensures TermSeen(events, k + 1) <==> TermSeen(events, k) || (events[k].Signals? && events[k].term)
  {
  }

  lemma OpenNext(events: seq<Event>, fd: int, k: nat)
    requires k < |events|
    ensures Open(events, fd, k + 1) <==>
              (events[k].Accept? && events[k].fd == fd) || (Open(events, fd, k) && !Closes(events, fd, k))
  {
    if Open(events, fd, k + 1) {
      var j: nat :| j < k + 1 && OpenSince(events, fd, j, k + 1);
      assert j < k ==> OpenSince(events, fd, j, k) && !Closes(events, fd, k);
    }
    if Open(events, fd, k) && !Closes(events, fd, k) {
      var j: nat :| j < k && OpenSince(events, fd, j, k);
      assert OpenSince(events, fd, j, k + 1);
    }
    if events[k].Accept? && events[k].fd == fd {
      assert OpenSince(events, fd, k, k + 1);
    }
  }

  // ---------- the server's state and the events ----------

  /** The state says what the events say. */
  ghost predicate Explained(m: Model, events: seq<Event>, start: int, k: nat)
    requires k <= |events|
  {
    && (m.timeout <==> AlarmPending(events, k))
    && (m.stop <==> TermSeen(events, k))
    && (forall fd :: fd in m.last <==> Open(events, fd, k))
    && (forall fd :: fd in m.last ==> m.last[fd] == LastActivity(events, fd, k))
    && ClockRead(m.clock, events, start, k)
  }

  /** The clock shows the start or a reading. */
  ghost predicate ClockRead(clock: int, events: seq<Event>, start: int, k: nat)
    requires k <= |events|
  {
    clock == start || exists j :: 0 <= j < k && ReadsClock(events, j) && clock == TimeOf(events[j])
  }

  lemma ExplainedFirst(events: seq<Event>, start: int)
    ensures Explained(Model(map[], false, false, start), events, start, 0)
  {
  }

  lemma PossibleNow(m: Model, events: seq<Event>, start: int, k: nat)
    requires k < |events| && Explained(m, events, start, k) && PossibleAt(events, start, k)
    ensures Possible(m, events[k])
  {
    if ReadsClock(events, k) && m.clock != start {
      var j :| 0 <= j < k && ReadsClock(events, j) && m.clock == TimeOf(events[j]);
    }
  }

  lemma ClockNext(m: Model, events: seq<Event>, start: int, k: nat)
    requires k < |events| && Explained(m, events, start, k)
    ensures ClockRead(Step(m, events[k]).clock, events, start, k + 1)
  {
    if ReadsClock(events, k) {
      assert Step(m, events[k]).clock == TimeOf(events[k]);
    } else if m.clock != start {
      var j :| 0 <= j < k && ReadsClock(events, j) && m.clock == TimeOf(events[j]);
    }
  }

  lemma IdleTimesOut(m: Model, events: seq<Event>, start: int, k: nat, fd: int)
    requires k < |events| && Explained(m, events, start, k) && events[k].EndOfBatch? && m.timeout
    ensures fd in Idle(m, events[k].now) <==> Open(events, fd, k) && TimesOut(events, fd, k)
  {
    assert fd in m.last <==> Open(events, fd, k);
  }

  lemma LastNext(m: Model, events: seq<Event>, start: int, k: nat, fd: int)
    requires k < |events| && Explained(m, events, start, k) && PossibleAt(events, start, k)
    ensures var m' := Step(m, events[k]);
            && (fd in m'.last <==> Open(events, fd, k + 1))
            && (fd in m'.last ==> m'.last[fd] == LastActivity(events, fd, k + 1))
  {
    OpenNext(events, fd, k);
    assert fd in m.last <==> Open(events, fd, k);
    if events[k].EndOfBatch? && m.timeout {
      IdleTimesOut(m, events, start, k, fd);
    }
  }

  /** Every event of a run takes the server to the state that the events up to it explain. */
  lemma ExplainedNext(m: Model, events: seq<Event>, start: int, k: nat)
    requires k < |events| && Explained(m, events, start, k) && PossibleAt(events, start, k)
    ensures Possible(m, events[k]) && Explained(Step(m, events[k]), events, start, k + 1)
  {
    PossibleNow(m, events, start, k);
    AlarmNext(events, k);
    TermNext(events, k);
    ClockNext(m, events, start, k);
    forall fd
      ensures var m' := Step(m, events[k]);
              && (fd in m'.last <==> Open(events, fd, k + 1))
              && (fd in m'.last ==> m'.last[fd] == LastActivity(events, fd, k + 1))
    {
      LastNext(m, events, start, k, fd);
    }
  }

  lemma ClosesIdleOfRun(closed: seq<int>, m: Model, events: seq<Event>, start: int, k: nat)
    requires k < |events| && Explained(m, events, start, k)
    requires if events[k].EndOfBatch? && m.timeout then ClosesIdle(closed, m, events[k].now) else closed == []
    ensures ClosesExactlyIdle(closed, events, k)
  {
    if events[k].EndOfBatch? && m.timeout {
      forall fd
        ensures fd in closed <==> Open(events, fd, k) && TimesOut(events, fd, k)
      {
        assert fd in closed <==> fd in Idle(m, events[k].now);
        IdleTimesOut(m, events, start, k, fd);
      }
      forall i, j | 0 <= i < j < |closed|
        ensures LastActivity(events, closed[i], k) <= LastActivity(events, closed[j], k)
      {
        assert closed[i] in closed && closed[j] in closed;
        assert closed[i] in Idle(m, events[k].now) && closed[j] in Idle(m, events[k].now);
      }
    }
  }

  // ---------- the server on a run ----------

  ghost predicate AllExact(closed: seq<seq<int>>, events: seq<Event>) {
    |closed| <= |events| && forall k :: 0 <= k < |closed| ==> ClosesExactlyIdle(closed[k], events, k)
  }

  lemma OneMoreExact(closed: seq<seq<int>>, now: seq<int>, events: seq<Event>)
    requires AllExact(closed, events) && |closed| < |events| && ClosesExactlyIdle(now, events, |closed|)
    ensures AllExact(closed + [now], events)
  {
  }

  method Next(server: IdleServer, e: Event, ghost events: seq<Event>, ghost start: int, ghost k: nat) returns (closed: seq<int>)
    requires k < |events| && e == events[k] && PossibleAt(events, start, k)
    requires server.Valid() && Explained(server.View(), events, start, k)
    modifies server, server.users, server.timer_lst, server.Listed()
    ensures server.Valid() && Explained(server.View(), events, start, k + 1)
    ensures fresh(server.Listed() - old(server.Listed())) && ClosesExactlyIdle(closed, events, k)
  {
    ghost var m := server.View();
    ExplainedNext(m, events, start, k);
    closed := server.Serve(e);
    ClosesIdleOfRun(closed, m, events, start, k);
  }

  /** The event the loop ended behind, if it ended: the end of a round, with a term signal seen. */
  ghost predicate EndsAt(events: seq<Event>, n: nat)
    requires n <= |events|
  {
    n > 0 && events[n - 1].EndOfBatch? && TermSeen(events, n)
  }

  method Loop(server: IdleServer, events: seq<Event>, ghost start: int) returns (closed: seq<seq<int>>)
    requires PossibleRun(events, start) && server.Valid() && Explained(server.View(), events, start, 0)
    modifies server, server.users, server.timer_lst, server.Listed()
    ensures |closed| <= |events| && AllExact(closed, events)
    ensures forall j :: 0 <= j < |closed| ==> !EndsAt(events, j)
    ensures |closed| == |events| || EndsAt(events, |closed|)
    ensures server.Valid() && Explained(server.View(), events, start, |closed|)
  {
    closed := [];
    var k := 0;
    while k < |events|
      invariant 0 <= k <= |events| && Gets(events, k)
      invariant server.Valid() && Explained(server.View(), events, start, k)
      invariant fresh(server.Listed() - old(server.Listed()))
      invariant |closed| == k && AllExact(closed, events)
    {
      var now := Next(server, events[k], events, start, k);
      OneMoreExact(closed, now, events);
      closed := closed + [now];
      k := k + 1;
      if events[k - 1].EndOfBatch? && server.stop_server {
        break;
      }
    }
  }

  /** The main loop with its real list of timers, on any possible events: it goes on until a round ends
      with stop_server set, its timers close what is idle and nothing else, and each open connection has
      one timer, which expires 3 * TIMESLOT after the last activity. */
  method Run(events: seq<Event>, start: int) returns (server: IdleServer, closed: seq<seq<int>>)
    requires PossibleRun(events, start)
    ensures |closed| <= |events| && AllExact(closed, events)
    ensures forall j :: 0 <= j < |closed| ==> !EndsAt(events, j)
    ensures |closed| == |events| || EndsAt(events, |closed|)
    ensures server.Valid() && Explained(server.View(), events, start, |closed|)
    ensures forall fd :: Open(events, fd, |closed|) ==> OneTimer(server, fd, LastActivity(events, fd, |closed|) + 3 * TIMESLOT)
    ensures forall t :: t in server.timer_lst.nodes ==> Open(events, t.user_data, |closed|)
  {
    server := new IdleServer(start);
    ExplainedFirst(events, start);
    closed := Loop(server, events, start);
    TimersOfOpen(server, events, start, |closed|);
  }

  /** The connection has one listed timer, and it expires then. */
  ghost predicate OneTimer(server: IdleServer, fd: int, expire: int)
    reads server, server.timer_lst, server.timer_lst.nodes
  {
    exists t :: t in server.timer_lst.nodes && t.user_data == fd && t.expire == expire
                && forall u :: u in server.timer_lst.nodes && u.user_data == fd ==> u == t
  }

  lemma TimersOfOpen(server: IdleServer, events: seq<Event>, start: int, k: nat)
    requires k <= |events| && server.Valid() && Explained(server.View(), events, start, k)
    ensures forall fd :: Open(events, fd, k) ==> OneTimer(server, fd, LastActivity(events, fd, k) + 3 * TIMESLOT)
    ensures forall t :: t in server.timer_lst.nodes ==> Open(events, t.user_data, k)
  {
    forall fd | Open(events, fd, k)
      ensures OneTimer(server, fd, LastActivity(events, fd, k) + 3 * TIMESLOT)
    {
      assert fd in server.View().last && server.ConnectionValid(fd);
      assert forall u :: u in server.timer_lst.nodes && u.user_data == fd ==> server.TimerValid(u);
    }
    forall t | t in server.timer_lst.nodes
      ensures Open(events, t.user_data, k)
    {
      assert server.TimerValid(t) && t.user_data in server.View().last;
    }
  }
}
