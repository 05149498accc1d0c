/** nonactive_connection.cc: a server that closes the connections on which nothing arrived for
    3 * TIMESLOT seconds, by means of the sorted timer list. */
module IdleServer {
  import opened Sequences
  import opened TimerOrder
  import opened SortedTimerList

  const FD_LIMIT := 65535
  const TIMESLOT := 5

  // ---------- what the server is to do, on values ----------

  /** An event of the main loop. `Receive` carries the result of `recv` and whether errno was
      EAGAIN; `EndOfBatch` is the end of one round of the outer loop. All times are clock readings. */
  datatype Event =
    | Accept(fd: int, now: int)
    | Receive(fd: int, ret: int, again: bool, now: int)
    | Signals(alarm: bool, term: bool)
    | EndOfBatch(now: int)

  /** The open connections with the time of their last activity, the two flags, the clock. */
  datatype Model = Model(last: map<int, int>, timeout: bool, stop: bool, clock: int)

  /** Accept returns a descriptor not in use; only open connections receive; where the clock is read, it
      has not run backwards. */
  ghost predicate Possible(m: Model, e: Event) {
    match e
    case Accept(fd, now) => 0 <= fd < FD_LIMIT && fd !in m.last && m.clock <= now
    case Receive(fd, ret, _, now) => fd in m.last && (ret > 0 ==> m.clock <= now)
    case Signals(_, _) => true
    case EndOfBatch(now) => m.timeout ==> m.clock <= now
  }

  ghost function Idle(m: Model, now: int): set<int> {
    set fd | fd in m.last && now - m.last[fd] >= 3 * TIMESLOT
  }

  ghost function Step(m: Model, e: Event): Model {
    match e
    case Accept(fd, now) => m.(last := m.last[fd := now], clock := now)
    case Receive(fd, ret, again, now) =>
      if ret > 0 then m.(last := m.last[fd := now], clock := now)
      else if ret < 0 && again then m
      else m.(last := m.last - {fd})
    case Signals(alarm, term) => m.(timeout := m.timeout || alarm, stop := m.stop || term)
    case EndOfBatch(now) =>
      if m.timeout then m.(last := m.last - Idle(m, now), timeout := false, clock := now) else m
  }

  /** `closed` lists exactly the connections idle for 3 * TIMESLOT seconds or more at `now`, each
      once, the longest idle first. */
  ghost predicate ClosesIdle(closed: seq<int>, m: Model, now: int) {
    && (forall fd :: fd in closed <==> fd in Idle(m, now))
    && (forall i, j :: 0 <= i < j < |closed| ==> closed[i] != closed[j])
    && (forall i, j :: 0 <= i < j < |closed| && closed[i] in m.last && closed[j] in m.last ==>
          m.last[closed[i]] <= m.last[closed[j]])
  }

  // ---------- the server ----------

  class IdleServer {
    const users: array<UtilTimer?>  // the timer field of each ClientData
    const timer_lst: SortedTimerLst
    var timeout: bool
    var stop_server: bool
    ghost var last: map<int, int>
    ghost var clock: int

    ghost function View(): Model
      reads this
    {
      Model(last, timeout, stop_server, clock)
    }

    ghost function Listed(): set<UtilTimer>
      reads timer_lst
    {
      set t | t in timer_lst.nodes
    }

    /** The connection has a listed timer, which expires 3 * TIMESLOT after the last activity. */
    ghost predicate ConnectionValid(fd: int)
      requires fd in last
      reads this, users, timer_lst, timer_lst.nodes
    {
      && 0 <= fd < users.Length && users[fd] != null
      && users[fd] in timer_lst.nodes && users[fd].user_data == fd
      && users[fd].expire == last[fd] + 3 * TIMESLOT && last[fd] <= clock
    }

    /** Every listed timer is that of an open connection. */
    ghost predicate TimerValid(t: UtilTimer)
      reads this, users
    {
      t.user_data in last && 0 <= t.user_data < users.Length && users[t.user_data] == t
    }

    ghost predicate Valid()
      reads this, users, timer_lst, timer_lst.nodes
    {
      && users.Length == FD_LIMIT
      && timer_lst.Valid() && Sorted(timer_lst.Entries())
      && (forall fd :: fd in last ==> ConnectionValid(fd))
      && (forall t :: t in timer_lst.nodes ==> TimerValid(t))
    }

    constructor (now: int)
      ensures Valid() && fresh(users) && fresh(timer_lst) && timer_lst.nodes == []
      ensures View() == Model(map[], false, false, now)
    {
      users := new UtilTimer?[FD_LIMIT](_ => null);
      timer_lst := new SortedTimerLst();
      timeout, stop_server, last, clock := false, false, map[], now;
    }

    method Accept(connfd: int, cur: int)
      requires Valid() && Possible(View(), Event.Accept(connfd, cur))
      modifies this, users, timer_lst, Listed()
      ensures Valid() && fresh(Listed() - old(Listed()))
      ensures View() == Step(old(View()), Event.Accept(connfd, cur))
    {
      var timer := new UtilTimer(connfd, cur + 3 * TIMESLOT);
      users[connfd] := timer;
      Enlist(timer_lst, timer);
      last, clock := last[connfd := cur], cur;
      forall fd | fd in last
        ensures ConnectionValid(fd)
      {
        if fd != connfd {
          assert old(ConnectionValid(fd));
        }
      }
      forall t | t in timer_lst.nodes
        ensures TimerValid(t)
      {
        if t != timer {
          assert old(TimerValid(t));
        }
      }
    }

    /** What the main loop does with the result of `recv`. */
    method Receive(sockfd: int, ret: int, again: bool, cur: int)
      requires Valid() && Possible(View(), Event.Receive(sockfd, ret, again, cur))
      modifies this`last, this`clock, timer_lst, Listed()
      ensures Valid() && Listed() <= old(Listed())
      ensures View() == Step(old(View()), Event.Receive(sockfd, ret, again, cur))
    {
      assert ConnectionValid(sockfd);
      var timer := users[sockfd];
      if ret < 0 {
        if !again {
          Close(sockfd, timer);
        }
      } else if ret == 0 {
        Close(sockfd, timer);
      } else {
        PutOff(sockfd, timer, cur);
      }
    }

    /** Closes a connection and removes its timer. */
    method Close(sockfd: int, timer: UtilTimer)
      requires Valid() && sockfd in last && 0 <= sockfd < users.Length && users[sockfd] == timer
      modifies this`last, timer_lst, Listed()
      ensures Valid() && Listed() <= old(Listed())
      ensures last == old(last) - {sockfd}
    {
      assert ConnectionValid(sockfd);
      ghost var s, i := timer_lst.nodes, IndexOf(timer_lst.nodes, timer);
      RemoveKeepsSorted(timer_lst.Entries(), i);
      timer_lst.DelTimer(timer);
      last := last - {sockfd};
      MembersCut(s, i);
      forall fd | fd in last
        ensures ConnectionValid(fd)
      {
        assert old(ConnectionValid(fd));
      }
      forall t | t in timer_lst.nodes
        ensures TimerValid(t)
      {
        assert old(TimerValid(t));
      }
    }

    /** Something arrived: the timer expires later. */
    method PutOff(sockfd: int, timer: UtilTimer, cur: int)
      requires Valid() && sockfd in last && 0 <= sockfd < users.Length && users[sockfd] == timer && clock <= cur
      modifies this`last, this`clock, timer_lst, Listed()
      ensures Valid() && Listed() <= old(Listed())
      ensures last == old(last)[sockfd := cur] && clock == cur
    {
      assert ConnectionValid(sockfd);
      ghost var s := timer_lst.nodes;
      Postpone(timer_lst, timer, cur + 3 * TIMESLOT);
      last, clock := last[sockfd := cur], cur;
      MembersSame(s, timer_lst.nodes);
      forall fd | fd in last
        ensures ConnectionValid(fd)
      {
        assert old(ConnectionValid(fd));
      }
      forall t | t in timer_lst.nodes
        ensures TimerValid(t)
      {
        assert old(TimerValid(t));
      }
    }

    /** Runs the expired timers, which closes their connections, the longest idle first. */
    method TimerHandler(now: int) returns (closed: seq<int>)
      requires Valid() && clock <= now
      modifies this`last, this`clock, timer_lst, Listed()`prev
      ensures Valid() && clock == now && last == old(last) - Idle(old(View()), now)
      ensures Listed() <= old(Listed())
      ensures ClosesIdle(closed, old(View()), now)
    {
      ghost var s, m, p := timer_lst.nodes, View(), Place(timer_lst.Entries(), now);
      ExpiredAreIdle(now);
      SuffixItems(s, p);
      closed := timer_lst.Tick(now);
      assert closed == UsersOf(s[..p]);
      last, clock := last - Idle(m, now), now;
      forall fd | fd in last
        ensures ConnectionValid(fd)
      {
        assert old(ConnectionValid(fd));
      }
      forall t | t in timer_lst.nodes
        ensures TimerValid(t)
      {
        assert old(TimerValid(t));
      }
    }

    /** The timers in front of the first unexpired one belong to exactly the idle connections. */
    lemma ExpiredAreIdle(now: int)
      requires Valid()
      ensures var s, p := timer_lst.nodes, Place(timer_lst.Entries(), now);
              && ClosesIdle(UsersOf(s[..p]), View(), now)
              && (forall t :: t in s[p..] ==> t in s && t.user_data !in Idle(View(), now))
              && (forall fd :: fd in last && fd !in Idle(View(), now) ==> 0 <= fd < users.Length && users[fd] in s[p..])
    {
      var s, e := timer_lst.nodes, timer_lst.Entries();
      var p := Place(e, now);
      forall i | 0 <= i < |s|
        ensures i < p <==> s[i].user_data in Idle(View(), now)
      {
        assert TimerValid(s[i]) && ConnectionValid(s[i].user_data) && e[i].expire == s[i].expire;
        ExpiredArePrefix(e, now, i);
      }
      forall fd | fd in last
        ensures 0 <= fd < users.Length && users[fd] in s && (IndexOf(s, users[fd]) < p <==> fd in Idle(View(), now))
      {
        assert ConnectionValid(fd);
      }
      forall fd | fd in last && fd !in Idle(View(), now)
        ensures users[fd] in s[p..]
      {
        assert s[p..][IndexOf(s, users[fd]) - p] == users[fd];
      }
      var closed := UsersOf(s[..p]);
      forall fd | fd in Idle(View(), now)
        ensures fd in closed
      {
        assert ConnectionValid(fd) && closed[IndexOf(s, users[fd])] == fd;
      }
      forall i, j | 0 <= i < j < p
        ensures closed[i] != closed[j] && last[closed[i]] <= last[closed[j]]
      {
        assert TimerValid(s[i]) && TimerValid(s[j]) && ConnectionValid(closed[i]) && ConnectionValid(closed[j]);
        assert e[i].expire <= e[j].expire;
      }
    }

    /** One event of the main loop; `closed` lists the connections that a timer closed. */
    method Serve(e: Event) returns (closed: seq<int>)
      requires Valid() && Possible(View(), e)
      modifies this, users, timer_lst, Listed()
      ensures Valid() && fresh(Listed() - old(Listed()))
      ensures View() == Step(old(View()), e)
      ensures if e.EndOfBatch? && old(timeout) then ClosesIdle(closed, old(View()), e.now) else closed == []
    {
      closed := [];
      match e {
        case Accept(fd, now) =>
          Accept(fd, now);
        case Receive(fd, ret, again, now) =>
          Receive(fd, ret, again, now);
        case Signals(alarm, term) =>
          Note(alarm, term);
        case EndOfBatch(now) =>
          closed := EndBatch(now);
      }
    }

    /** What the signals that arrived ask for, for later. */
    method Note(alarm: bool, term: bool)
      requires Valid()
      modifies this`timeout, this`stop_server
      ensures Valid() && View() == Step(old(View()), Signals(alarm, term))
    {
      timeout, stop_server := timeout || alarm, stop_server || term;
      assert forall fd :: fd in last ==> old(ConnectionValid(fd));
      assert forall t :: t in timer_lst.nodes ==> old(TimerValid(t));
    }

    /** The end of one round of the loop. */
    method EndBatch(now: int) returns (closed: seq<int>)
      requires Valid() && (timeout ==> clock <= now)
      modifies this`last, this`clock, this`timeout, timer_lst, Listed()`prev
      ensures Valid() && Listed() <= old(Listed()) && View() == Step(old(View()), EndOfBatch(now))
      ensures if old(timeout) then ClosesIdle(closed, old(View()), now) else closed == []
    {
      closed := [];
      if timeout {
        closed := TimerHandler(now);
        label Handled:
        timeout := false;
        assert forall fd :: fd in last ==> old@Handled(ConnectionValid(fd));
        assert forall t :: t in timer_lst.nodes ==> old@Handled(TimerValid(t));
      }
    }
  }

  method Enlist(timer_lst: SortedTimerLst, timer: UtilTimer)
    requires timer_lst.Valid() && Sorted(timer_lst.Entries())
    requires timer !in timer_lst.nodes && timer.prev == null && timer.next == null
    modifies timer_lst, timer_lst.nodes`prev, timer_lst.nodes`next, timer`prev, timer`next
    ensures timer_lst.Valid() && Sorted(timer_lst.Entries())
    ensures timer in timer_lst.nodes && forall t :: t in old(timer_lst.nodes) ==> t in timer_lst.nodes
    ensures forall t :: t in timer_lst.nodes ==> t in old(timer_lst.nodes) || t == timer
  {
    ghost var s := timer_lst.nodes;
    InsertKeepsSorted(timer_lst.Entries(), Entry(timer.expire, timer));
    timer_lst.AddTimer(timer);
    MembersAdded(s, timer_lst.nodes, timer);
  }

  /** Sets a later expiry and moves the timer to its place. */
  method Postpone(timer_lst: SortedTimerLst, timer: UtilTimer, expire: int)
    requires timer_lst.Valid() && Sorted(timer_lst.Entries()) && timer in timer_lst.nodes && timer.expire <= expire
    modifies timer_lst, timer_lst.nodes`prev, timer_lst.nodes`next, timer`expire
    ensures timer_lst.Valid() && Sorted(timer_lst.Entries()) && timer.expire == expire
    ensures multiset(timer_lst.nodes) == multiset(old(timer_lst.nodes))
  {
    ghost var i := IndexOf(timer_lst.nodes, timer);
    PuttingOffIsFine(timer_lst.Entries(), i, expire);
    SetExpire(timer_lst, timer, i, expire);
    timer_lst.AdjustTimer(timer);
  }

  method SetExpire(timer_lst: SortedTimerLst, timer: UtilTimer, ghost i: nat, expire: int)
    requires timer_lst.Valid() && i < |timer_lst.nodes| && timer_lst.nodes[i] == timer
    modifies timer`expire
    ensures timer_lst.Valid() && timer.expire == expire
    ensures timer_lst.Entries() == old(timer_lst.Entries())[i := Entry(expire, timer)]
  {
    ghost var s, e := timer_lst.nodes, timer_lst.Entries();
    timer.expire := expire;
    ghost var e' := timer_lst.Entries();
    forall k | 0 <= k < |s|
      ensures e'[k] == e[i := Entry(expire, timer)][k]
    {
      assert e'[k] == Entry(s[k].expire, s[k]) && (k != i ==> s[k] != timer);
    }
  }

  function UsersOf(s: seq<UtilTimer>): (r: seq<int>)
    ensures |r| == |s| && forall i :: 0 <= i < |s| ==> r[i] == s[i].user_data
  {
    seq(|s|, i requires 0 <= i < |s| => s[i].user_data)
  }

  lemma SuffixItems(s: seq<UtilTimer>, p: nat)
    requires p <= |s|
    ensures forall t :: t in s[p..] ==> t in s
  {
  }

  lemma MembersAdded(s: seq<UtilTimer>, s': seq<UtilTimer>, timer: UtilTimer)
    requires multiset(s') == multiset(s) + multiset{timer}
    ensures timer in s' && (forall t :: t in s ==> t in s') && (forall t :: t in s' ==> t in s || t == timer)
  {
    assert forall t :: t in s' ==> t in multiset(s');
    forall t | t in s
      ensures t in s'
    {
      assert t in multiset(s) && t in multiset(s');
    }
    assert timer in multiset(s');
  }

  lemma MembersSame(s: seq<UtilTimer>, s': seq<UtilTimer>)
    requires multiset(s') == multiset(s)
    ensures (forall t :: t in s ==> t in s') && (forall t :: t in s' ==> t in s)
  {
    assert forall t :: t in s' ==> t in multiset(s');
    assert forall t :: t in s ==> t in multiset(s);
  }

  lemma MembersCut(s: seq<UtilTimer>, i: nat)
    requires i < |s| && Distinct(s)
    ensures forall t :: t in RemoveAt(s, i) ==> t in s && t != s[i]
    ensures forall t :: t in s && t != s[i] ==> t in RemoveAt(s, i)
  {
  }
}
