/** Whole runs of the chat room's parent process, told by the events alone. */
module ChatRuns {
  import opened ChatRoom

  // ---------- which children live ----------

  /** Event `j` forks a child: accept and fork succeed, and fewer than USER_LIMIT children live. */
  ghost predicate ForkedAt(events: seq<Event>, j: nat)
    requires j < |events|
    decreases j, 2
  {
    events[j].Connect? && events[j].connfd >= 0 && events[j].forkedPid > 0 && |Living(events, j)| < USER_LIMIT
  }

  ghost predicate ReapedWithin(events: seq<Event>, pid: int, j: nat, n: nat)
    requires n <= |events|
  {
    exists i :: j <= i < n && events[i].Exits? && pid in events[i].pids
  }

  /** The events that forked the children living after the first `k` events: forked, and not reaped. */
  ghost function LivingForks(events: seq<Event>, k: nat): (forks: set<nat>)
    requires k <= |events|
    ensures forall j :: j in forks ==> j < k && events[j].Connect?
    decreases k, 0
  {
    set j: nat | j < k && ForkedAt(events, j) && !ReapedWithin(events, events[j].forkedPid, j + 1, k)
  }

  /** Their pids. */
  ghost function Living(events: seq<Event>, k: nat): set<int>
    requires k <= |events|
    decreases k, 1
  {
    set j | j in LivingForks(events, k) :: events[j].forkedPid
  }

  /** The child that event `j` forks: its index, and so its segment, is the number of children before. */
  ghost function ChildOf(events: seq<Event>, j: nat): Child
    requires j < |events| && events[j].Connect?
  {
    Child(events[j].forkedPid, events[j].pipe, |Living(events, j)|)
  }

  ghost predicate IsLiving(events: seq<Event>, k: nat, c: Child)
    requires k <= |events|
  {
    exists j :: j in LivingForks(events, k) && c == ChildOf(events, j)
  }

  /** Where the server asks for them, pids and pipes are new; waitpid returns living children, each once. */
  ghost predicate PossibleAt(events: seq<Event>, k: nat)
    requires k < |events|
  {
    match events[k]
    case Connect(connfd, pid, pipe) =>
      connfd >= 0 && |Living(events, k)| < USER_LIMIT ==>
        pid != 0 && pid < PROCESS_LIMIT && pid !in Living(events, k) && NewPipe(events, k, pipe)
    case Exits(pids) =>
      (forall i :: 0 <= i < |pids| ==> pids[i] in Living(events, k)) && forall i, j :: 0 <= i < j < |pids| ==> pids[i] != pids[j]
    case _ => true
  }

  ghost predicate NewPipe(events: seq<Event>, k: nat, pipe: int)
    requires k <= |events|
  {
    forall j :: j in LivingForks(events, k) ==> ChildOf(events, j).pipe != pipe
  }

  ghost predicate PossibleRun(events: seq<Event>) {
    forall k :: 0 <= k < |events| ==> PossibleAt(events, k)
  }

  // ---------- when the server stops ----------

  ghost predicate TermSeen(events: seq<Event>, k: nat)
    requires k <= |events|
  {
    exists i :: 0 <= i < k && events[i] == Terminate
  }

  /** Event `j` decides to stop: a SIGTERM without living children, or an exit behind a SIGTERM that leaves
      none. */
  ghost predicate DecidesAt(events: seq<Event>, j: nat)
    requires j < |events|
  {
    || (events[j] == Terminate && Living(events, j) == {})
    || (events[j].Exits? && TermSeen(events, j) && Living(events, j + 1) == {})
  }

  ghost predicate StopDecided(events: seq<Event>, k: nat)
    requires k <= |events|
  {
    exists j: nat :: j < k && DecidesAt(events, j)
  }

  /** A SIGTERM came while children lived. */
  ghost predicate TermNoted(events: seq<Event>, k: nat)
    requires k <= |events|
  {
    exists i: nat :: i < k && events[i] == Terminate && Living(events, i) != {}
  }

  // ---------- one event more ----------

  lemma ReapedNext(events: seq<Event>, pid: int, j: nat, k: nat)
    requires j <= k < |events|
    ensures ReapedWithin(events, pid, j, k + 1) <==>
              ReapedWithin(events, pid, j, k) || (events[k].Exits? && pid in events[k].pids)
  {
  }

  lemma ForksNext(events: seq<Event>, k: nat, j: nat)
    requires k < |events|
    ensures j in LivingForks(events, k + 1) <==>
              || (j == k && ForkedAt(events, k))
              || (j in LivingForks(events, k) && !(events[k].Exits? && events[j].forkedPid in events[k].pids))
  {
    if j < k {
      if ForkedAt(events, j) {
        ReapedNext(events, events[j].forkedPid, j + 1, k);
      }
    }
  }

  lemma LivingMember(events: seq<Event>, k: nat, pid: int)
    requires k <= |events|
    ensures pid in Living(events, k) <==> exists j :: j in LivingForks(events, k) && events[j].forkedPid == pid
  {
  }

  /** A connection that is accepted and forked while fewer than USER_LIMIT children live has a living
      child; one that exits lives no more; nothing else changes who lives. */
  lemma LivingNext(events: seq<Event>, k: nat, pid: int)
    requires k < |events|
    ensures pid in Living(events, k + 1) <==>
              match events[k]
              case Connect(connfd, forkedPid, _) =>
                pid in Living(events, k) ||
                (connfd >= 0 && forkedPid > 0 && |Living(events, k)| < USER_LIMIT && pid == forkedPid)
              case Exits(pids) => pid in Living(events, k) && pid !in pids
              case _ => pid in Living(events, k)
  {
    LivingMember(events, k, pid);
    LivingMember(events, k + 1, pid);
    if pid in Living(events, k + 1) {
      var j :| j in LivingForks(events, k + 1) && events[j].forkedPid == pid;
      ForksNext(events, k, j);
    }
    if j :| j in LivingForks(events, k) && events[j].forkedPid == pid {
      ForksNext(events, k, j);
    }
    if ForkedAt(events, k) && events[k].forkedPid == pid {
      ForksNext(events, k, k);
    }
  }

  lemma ChildrenNext(events: seq<Event>, k: nat, c: Child)
    requires k < |events|
    ensures IsLiving(events, k + 1, c) <==>
              || (ForkedAt(events, k) && c == ChildOf(events, k))
              || (IsLiving(events, k, c) && !(events[k].Exits? && c.pid in events[k].pids))
  {
    if IsLiving(events, k + 1, c) {
      var j :| j in LivingForks(events, k + 1) && c == ChildOf(events, j);
      ForksNext(events, k, j);
    }
    if j :| j in LivingForks(events, k) && c == ChildOf(events, j) {
      ForksNext(events, k, j);
    }
    if ForkedAt(events, k) && c == ChildOf(events, k) {
      ForksNext(events, k, k);
    }
  }

  // ---------- the tables and the events ----------

  /** The tables say what the events say. */
  ghost predicate Explained(m: Model, events: seq<Event>, k: nat)
    requires k <= |events|
  {
    && Sound(m)
    && (forall c :: c in m.table <==> IsLiving(events, k, c))
    && (m.terminate <==> TermNoted(events, k))
    && (m.stop <==> StopDecided(events, k))
  }

  lemma ExplainedFirst(events: seq<Event>)
    ensures Explained(Model([], false, false), events, 0)
  {
    forall c
      ensures !IsLiving(events, 0, c)
    {
    }
  }

  lemma TableHoldsTheLiving(m: Model, events: seq<Event>, k: nat, pid: int)
    requires k <= |events| && Explained(m, events, k)
    ensures HasPid(m.table, pid) <==> pid in Living(events, k)
  {
    LivingMember(events, k, pid);
    if HasPid(m.table, pid) {
      var c := m.table[IndexOf(m.table, pid)];
      assert c in m.table && IsLiving(events, k, c);
      var j :| j in LivingForks(events, k) && c == ChildOf(events, j);
    }
    if pid in Living(events, k) {
      var j :| j in LivingForks(events, k) && events[j].forkedPid == pid;
      var c := ChildOf(events, j);
      assert IsLiving(events, k, c);
      var i :| 0 <= i < |m.table| && m.table[i] == c;
    }
  }

  lemma {:induction false} TableSize(table: seq<Child>, pids: set<int>)
    requires Unique(table) && forall pid :: pid in pids <==> HasPid(table, pid)
    ensures |table| == |pids|
  {
    if table == [] {
      forall pid
        ensures pid !in pids
      {
        assert !HasPid(table, pid);
      }
      assert pids == {};
    } else {
      var front, last := table[..|table| - 1], table[|table| - 1].pid;
      assert table[|table| - 1].pid == last && HasPid(table, last);
      forall pid
        ensures pid in pids - {last} <==> HasPid(front, pid)
      {
        if HasPid(front, pid) {
          assert table[IndexOf(front, pid)].pid == pid;
        }
        if HasPid(table, pid) && pid != last {
          assert front[IndexOf(table, pid)].pid == pid;
        }
      }
      TableSize(front, pids - {last});
    }
  }

  /** The table has one entry for each living child, and room for USER_LIMIT of them. */
  lemma TableCountsTheLiving(m: Model, events: seq<Event>, k: nat)
    requires k <= |events| && Explained(m, events, k)
    ensures |m.table| == |Living(events, k)| <= USER_LIMIT
    ensures m.table == [] <==> Living(events, k) == {}
  {
    forall pid
      ensures pid in Living(events, k) <==> HasPid(m.table, pid)
    {
      TableHoldsTheLiving(m, events, k, pid);
    }
    TableSize(m.table, Living(events, k));
  }

  lemma PossibleNow(m: Model, events: seq<Event>, k: nat)
    requires k < |events| && Explained(m, events, k) && PossibleAt(events, k)
    ensures Possible(m, events[k])
  {
    TableCountsTheLiving(m, events, k);
    match events[k]
    case Connect(connfd, pid, pipe) =>
      TableHoldsTheLiving(m, events, k, pid);
      forall i | 0 <= i < |m.table| && connfd >= 0 && |m.table| < USER_LIMIT
        ensures m.table[i].pipe != pipe
      {
        assert m.table[i] in m.table && IsLiving(events, k, m.table[i]);
      }
    case Exits(pids) =>
      forall i | 0 <= i < |pids|
        ensures HasPid(m.table, pids[i])
      {
        TableHoldsTheLiving(m, events, k, pids[i]);
      }
    case _ =>
  }

  lemma ForksExplained(m: Model, events: seq<Event>, k: nat)
    requires k < |events| && Explained(m, events, k)
    ensures Forks(m, events[k]) <==> ForkedAt(events, k)
  {
    TableCountsTheLiving(m, events, k);
  }

  lemma ChildExplained(m: Model, events: seq<Event>, k: nat, c: Child)
    requires k < |events| && Explained(m, events, k)
    ensures c in Step(m, events[k]).table <==> IsLiving(events, k + 1, c)
  {
    ChildrenNext(events, k, c);
    ForksExplained(m, events, k);
    TableCountsTheLiving(m, events, k);
    assert c in m.table <==> IsLiving(events, k, c);
    if events[k].Exits? {
      ReapAllSound(m, events[k].pids);
    }
  }

  lemma TermNext(events: seq<Event>, k: nat)
    requires k < |events|
    ensures TermNoted(events, k + 1) <==> TermNoted(events, k) || (events[k] == Terminate && Living(events, k) != {})
    ensures StopDecided(events, k + 1) <==> StopDecided(events, k) || DecidesAt(events, k)
    ensures TermSeen(events, k) ==> TermNoted(events, k) || StopDecided(events, k)
    ensures TermNoted(events, k) ==> TermSeen(events, k)
  {
    if StopDecided(events, k) {
      var j: nat :| j < k && DecidesAt(events, j);
    }
    if TermNoted(events, k) {
      var i: nat :| i < k && events[i] == Terminate && Living(events, i) != {};
    }
    if TermSeen(events, k) && !TermNoted(events, k) {
      var i :| 0 <= i < k && events[i] == Terminate;
      assert DecidesAt(events, i);
    }
  }

  /** Every event of a run takes the tables to what the events up to it explain. */
  lemma ExplainedNext(m: Model, events: seq<Event>, k: nat)
    requires k < |events| && Explained(m, events, k) && PossibleAt(events, k)
    ensures Possible(m, events[k]) && Explained(Step(m, events[k]), events, k + 1)
  {
    var m' := Step(m, events[k]);
    PossibleNow(m, events, k);
    StepSound(m, events[k]);
    forall c
      ensures c in m'.table <==> IsLiving(events, k + 1, c)
    {
      ChildExplained(m, events, k, c);
    }
    TermNext(events, k);
    TableCountsTheLiving(m, events, k);
    if events[k].Exits? {
      EmptyExplained(m'.table, events, k + 1);
    }
  }

  lemma EmptyExplained(table: seq<Child>, events: seq<Event>, k: nat)
    requires k <= |events| && forall c :: c in table <==> IsLiving(events, k, c)
    ensures table == [] <==> Living(events, k) == {}
  {
    if table != [] {
      assert table[0] in table && IsLiving(events, k, table[0]);
      var j :| j in LivingForks(events, k) && table[0] == ChildOf(events, j);
      assert events[j].forkedPid in Living(events, k);
    }
    if pid :| pid in Living(events, k) {
      LivingMember(events, k, pid);
      var j :| j in LivingForks(events, k) && events[j].forkedPid == pid;
      assert IsLiving(events, k, ChildOf(events, j));
    }
  }

  // ---------- how a run ends ----------

  /** Every child forked by event `k` or later is reaped by a still later event. */
  ghost predicate LateChildrenReaped(events: seq<Event>, k: nat, n: nat)
    requires n <= |events|
  {
    forall j :: k <= j < n && ForkedAt(events, j) ==> ReapedWithin(events, events[j].forkedPid, j + 1, n)
  }

  lemma LivesUntilReaped(events: seq<Event>, j: nat, n: nat)
    requires j < n <= |events| && ForkedAt(events, j)
    ensures events[j].forkedPid in Living(events, n) || ReapedWithin(events, events[j].forkedPid, j + 1, n)
  {
    if !ReapedWithin(events, events[j].forkedPid, j + 1, n) {
      assert j in LivingForks(events, n);
    }
  }

  lemma LivedBefore(events: seq<Event>, j: nat, k: nat, n: nat)
    requires k <= n <= |events| && j in LivingForks(events, n)
    ensures j < k ==> events[j].forkedPid in Living(events, k)
  {
    if j < k {
      assert j in LivingForks(events, k);
    }
  }

  /** After a moment without children, nobody is alive exactly if every child forked since was reaped. */
  lemma EmptyAgain(events: seq<Event>, k: nat, n: nat)
    requires k <= n <= |events| && Living(events, k) == {}
    ensures Living(events, n) == {} <==> LateChildrenReaped(events, k, n)
  {
    if pid :| pid in Living(events, n) {
      LivingMember(events, n, pid);
      var j :| j in LivingForks(events, n) && events[j].forkedPid == pid;
      LivedBefore(events, j, k, n);
      assert ForkedAt(events, j) && !ReapedWithin(events, events[j].forkedPid, j + 1, n);
    }
    forall j | k <= j < n && ForkedAt(events, j)
      ensures ReapedWithin(events, events[j].forkedPid, j + 1, n) || Living(events, n) != {}
    {
      LivesUntilReaped(events, j, n);
    }
  }

  /** At the event that decides to stop no child is left. */
  lemma StopsWithoutChildren(events: seq<Event>, k: nat)
    requires k < |events| && DecidesAt(events, k)
    ensures Living(events, k + 1) == {}
  {
    forall pid | events[k] == Terminate
      ensures pid in Living(events, k + 1) <==> pid in Living(events, k)
    {
      LivingNext(events, k, pid);
    }
  }

  /** But the rest of the batch is still served, and may fork: a run that has decided to stop, with a child
      alive. */
  lemma StoppedWithAChild()
    ensures var events := [Terminate, Connect(8, 100, 9)];
            PossibleRun(events) && StopDecided(events, 2) && 100 in Living(events, 2)
  {
    var events := [Terminate, Connect(8, 100, 9)];
    assert LivingForks(events, 0) == {} && Living(events, 0) == {};
    assert LivingForks(events, 1) == {} && Living(events, 1) == {};
    assert DecidesAt(events, 0);
    LivingNext(events, 1, 100);
  }

  // ---------- the shared memory ----------

  /** No two living children write to the same segment. */
  ghost predicate Own(events: seq<Event>, k: nat)
    requires k <= |events|
  {
    forall i, j :: i in LivingForks(events, k) && j in LivingForks(events, k) && i < j ==>
      ChildOf(events, i).segment != ChildOf(events, j).segment
  }

  /** The child that event `j` forks gets a segment that no living child uses. */
  ghost predicate FindsSegmentFree(events: seq<Event>, j: nat)
    requires j < |events|
  {
    forall i :: i in LivingForks(events, j) ==> ChildOf(events, i).segment != |Living(events, j)|
  }

  lemma LivesAtFork(events: seq<Event>, i: nat, j: nat, k: nat)
    requires i < j < k <= |events| && i in LivingForks(events, k)
    ensures i in LivingForks(events, j)
  {
    assert ForkedAt(events, i) && !ReapedWithin(events, events[i].forkedPid, i + 1, k);
  }

  /** In every run, the living children have segments of their own throughout if and only if every fork
      finds the segment g_user_count unused. */
  lemma OwnThroughout(events: seq<Event>)
    ensures (forall k :: 0 <= k <= |events| ==> Own(events, k)) <==>
            (forall j :: 0 <= j < |events| && ForkedAt(events, j) ==> FindsSegmentFree(events, j))
  {
    if forall k :: 0 <= k <= |events| ==> Own(events, k) {
      forall j, i | 0 <= j < |events| && ForkedAt(events, j) && i in LivingForks(events, j)
        ensures ChildOf(events, i).segment != |Living(events, j)|
      {
        assert Own(events, j + 1);
        ForksNext(events, j, i);
        ForksNext(events, j, j);
      }
    }
    if forall j :: 0 <= j < |events| && ForkedAt(events, j) ==> FindsSegmentFree(events, j) {
      forall k, i, j | 0 <= k <= |events| && i in LivingForks(events, k) && j in LivingForks(events, k) && i < j
        ensures ChildOf(events, i).segment != ChildOf(events, j).segment
      {
        LivesAtFork(events, i, j, k);
        assert ForkedAt(events, j) && FindsSegmentFree(events, j);
      }
    }
  }

  function TwoClientsOneLeaves(): seq<Event> {
    [Connect(8, 100, 9), Connect(10, 101, 11), Exits([100]), Connect(12, 102, 13)]
  }

  lemma TwoClientsForks()
    ensures var events := TwoClientsOneLeaves();
            && LivingForks(events, 0) == {} && LivingForks(events, 1) == {0} && LivingForks(events, 2) == {0, 1}
            && LivingForks(events, 3) == {1} && LivingForks(events, 4) == {1, 3}
  {
    var events := TwoClientsOneLeaves();
    for k := 0 to 4
      invariant LivingForks(events, 0) == {}
      invariant k >= 1 ==> LivingForks(events, 1) == {0}
      invariant k >= 2 ==> LivingForks(events, 2) == {0, 1}
      invariant k >= 3 ==> LivingForks(events, 3) == {1}
      invariant k >= 4 ==> LivingForks(events, 4) == {1, 3}
    {
      assert k == 0 ==> Living(events, k) == {};
      assert k == 1 ==> Living(events, k) == {100};
      assert k == 2 ==> Living(events, k) == {100, 101};
      assert k == 3 ==> Living(events, k) == {101};
      forall j: nat
        ensures j in LivingForks(events, k + 1) <==>
                  || (j == k && ForkedAt(events, k))
                  || (j in LivingForks(events, k) && !(events[k].Exits? && events[j].forkedPid in events[k].pids))
      {
        ForksNext(events, k, j);
      }
    }
  }

  /** A run after which two living children write to the same segment. */
  lemma TwoChildrenOneSegment()
    ensures var events := TwoClientsOneLeaves();
            && PossibleRun(events) && !Own(events, 4)
            && LivingForks(events, 4) == {1, 3} && ChildOf(events, 1).segment == ChildOf(events, 3).segment == 1
  {
    var events := TwoClientsOneLeaves();
    TwoClientsForks();
    assert Living(events, 0) == {} && Living(events, 1) == {100} && Living(events, 2) == {100, 101} && Living(events, 3) == {101};
  }

  // ---------- the main loop ----------

  /** The events of all batches, in the order in which the loop serves them. */
  function Flat(batches: seq<seq<Event>>): seq<Event> {
    if batches == [] then [] else Flat(batches[..|batches| - 1]) + batches[|batches| - 1]
  }

  ghost predicate Stopped(events: seq<Event>) {
    StopDecided(events, |events|)
  }

  /** The loop gets to serve the first `n` batches: stop_server is looked at before each of them only. */
  ghost predicate Enters(batches: seq<seq<Event>>, n: nat)
    requires n <= |batches|
  {
    forall b :: 0 <= b < n ==> !Stopped(Flat(batches[..b]))
  }

  /** Later events change nothing about earlier ones. */
  lemma {:induction false} PrefixLiving(events: seq<Event>, more: seq<Event>, k: nat)
    requires k <= |events|
    ensures LivingForks(events + more, k) == LivingForks(events, k) && Living(events + more, k) == Living(events, k)
    ensures k < |events| ==> (ForkedAt(events + more, k) <==> ForkedAt(events, k))
  {
    var all := events + more;
    forall j: nat | j < k
      ensures j in LivingForks(all, k) <==> j in LivingForks(events, k)
    {
      PrefixLiving(events, more, j);
      if all[j].Connect? {
        PrefixReaped(events, more, all[j].forkedPid, j + 1, k);
      }
    }
    assert LivingForks(all, k) == LivingForks(events, k);
  }

  lemma PrefixReaped(events: seq<Event>, more: seq<Event>, pid: int, j: nat, k: nat)
    requires k <= |events|
    ensures ReapedWithin(events + more, pid, j, k) <==> ReapedWithin(events, pid, j, k)
  {
    if ReapedWithin(events, pid, j, k) {
      var i :| j <= i < k && events[i].Exits? && pid in events[i].pids;
      assert (events + more)[i] == events[i];
    }
  }

  lemma PrefixDecides(events: seq<Event>, more: seq<Event>, k: nat)
    requires k < |events|
    ensures DecidesAt(events + more, k) <==> DecidesAt(events, k)
  {
    PrefixLiving(events, more, k);
    PrefixLiving(events, more, k + 1);
    if TermSeen(events, k) {
      var i :| 0 <= i < k && events[i] == Terminate;
      assert (events + more)[i] == Terminate;
    }
  }

  lemma PrefixExplained(m: Model, events: seq<Event>, more: seq<Event>)
    requires Explained(m, events, |events|)
    ensures Explained(m, events + more, |events|)
  {
    var all, k := events + more, |events|;
    PrefixLiving(events, more, k);
    forall c
      ensures IsLiving(all, k, c) <==> IsLiving(events, k, c)
    {
      PrefixChildren(events, more, k, c);
    }
    forall j: nat | j < k
      ensures DecidesAt(all, j) <==> DecidesAt(events, j)
      ensures Living(all, j) == Living(events, j)
    {
      PrefixDecides(events, more, j);
      PrefixLiving(events, more, j);
    }
    assert StopDecided(all, k) <==> StopDecided(events, k);
    if TermNoted(events, k) {
      var i: nat :| i < k && events[i] == Terminate && Living(events, i) != {};
      assert all[i] == Terminate && Living(all, i) != {};
    }
  }

  lemma PrefixChildren(events: seq<Event>, more: seq<Event>, k: nat, c: Child)
    requires k <= |events|
    ensures IsLiving(events + more, k, c) <==> IsLiving(events, k, c)
  {
    PrefixLiving(events, more, k);
    forall j | j in LivingForks(events, k)
      ensures ChildOf(events + more, j) == ChildOf(events, j)
    {
      PrefixLiving(events, more, j);
    }
  }

  /** Whom event `k` tells: data, every living child but the sender; a SIGTERM, every living child. */
  ghost predicate TellsRight(told: seq<int>, events: seq<Event>, k: nat)
    requires k < |events|
  {
    && (forall i, j :: 0 <= i < j < |told| ==> told[i] != told[j])
    && match events[k]
       case Data(sockfd) => forall p :: p in told <==> p != sockfd && IsPipe(events, k, p)
       case Terminate => forall pid :: pid in told <==> pid in Living(events, k)
       case _ => told == []
  }

  /** A living child has this pipe. */
  ghost predicate IsPipe(events: seq<Event>, k: nat, p: int)
    requires k <= |events|
  {
    exists j :: j in LivingForks(events, k) && events[j].pipe == p
  }

  lemma PipesExplained(m: Model, events: seq<Event>, k: nat, p: int)
    requires k <= |events| && Explained(m, events, k)
    ensures HasPipe(m.table, |m.table|, p) <==> IsPipe(events, k, p)
  {
    if HasPipe(m.table, |m.table|, p) {
      var i :| 0 <= i < |m.table| && m.table[i].pipe == p;
      assert m.table[i] in m.table && IsLiving(events, k, m.table[i]);
      var j :| j in LivingForks(events, k) && m.table[i] == ChildOf(events, j);
    }
    if IsPipe(events, k, p) {
      var j :| j in LivingForks(events, k) && events[j].pipe == p;
      assert IsLiving(events, k, ChildOf(events, j));
      var i :| 0 <= i < |m.table| && m.table[i] == ChildOf(events, j);
    }
  }

  lemma ToldRight(told: seq<int>, m: Model, events: seq<Event>, k: nat)
    requires k < |events| && Explained(m, events, k)
    requires events[k].Data? ==> Others(told, m.table, events[k].sockfd)
    requires events[k].Terminate? ==> Everyone(told, m.table)
    requires events[k].Connect? || events[k].Exits? ==> told == []
    ensures TellsRight(told, events, k)
  {
    forall p
      ensures HasPipe(m.table, |m.table|, p) <==> IsPipe(events, k, p)
    {
      PipesExplained(m, events, k, p);
    }
    forall pid
      ensures HasPid(m.table, pid) <==> pid in Living(events, k)
    {
      TableHoldsTheLiving(m, events, k, pid);
    }
  }

  /** `told` says whom the events from `s` on told. */
  ghost predicate ToldFrom(told: seq<seq<int>>, events: seq<Event>, s: nat) {
    s + |told| <= |events| && forall i :: 0 <= i < |told| ==> TellsRight(told[i], events, s + i)
  }

  lemma ToldOne(told: seq<seq<int>>, now: seq<int>, events: seq<Event>, s: nat)
    requires ToldFrom(told, events, s) && s + |told| < |events| && TellsRight(now, events, s + |told|)
    ensures ToldFrom(told + [now], events, s)
  {
  }

  lemma ToldMore(told: seq<seq<int>>, more: seq<seq<int>>, before: seq<Event>, batch: seq<Event>)
    requires |told| == |before| && |more| == |batch|
    requires ToldFrom(told, before, 0) && ToldFrom(more, before + batch, |before|)
    ensures ToldFrom(told + more, before + batch, 0)
  {
    forall i | 0 <= i < |told + more|
      ensures TellsRight((told + more)[i], before + batch, i)
    {
      if i < |told| {
        PrefixTells(told[i], before, batch, i);
      } else {
        assert TellsRight(more[i - |told|], before + batch, |before| + (i - |told|));
      }
    }
  }

  lemma PrefixTells(told: seq<int>, events: seq<Event>, more: seq<Event>, k: nat)
    requires k < |events| && TellsRight(told, events, 0 + k)
    ensures TellsRight(told, events + more, k)
  {
    PrefixLiving(events, more, k);
    forall p
      ensures IsPipe(events + more, k, p) <==> IsPipe(events, k, p)
    {
      PrefixPipe(events, more, k, p);
    }
  }

  lemma PrefixPipe(events: seq<Event>, more: seq<Event>, k: nat, p: int)
    requires k <= |events|
    ensures IsPipe(events + more, k, p) <==> IsPipe(events, k, p)
  {
    PrefixLiving(events, more, k);
    assert forall j :: j in LivingForks(events, k) ==> (events + more)[j] == events[j];
  }

  /** When the loop ends, an event of the last batch has decided it, and the server leaves no child behind
      if and only if each connection behind that event in the batch either does not fork or has its child
      reaped later in the batch. */
  lemma EndsWithoutChildren(batches: seq<seq<Event>>) returns (k: nat)
    requires batches != [] && Enters(batches, |batches|) && Stopped(Flat(batches))
    ensures |Flat(batches[..|batches| - 1])| <= k < |Flat(batches)| && DecidesAt(Flat(batches), k)
    ensures Living(Flat(batches), |Flat(batches)|) == {} <==> LateChildrenReaped(Flat(batches), k + 1, |Flat(batches)|)
  {
    var served, events := Flat(batches[..|batches| - 1]), Flat(batches);
    assert !Stopped(served);
    k :| k < |events| && DecidesAt(events, k);
    if k < |served| {
      PrefixDecides(served, batches[|batches| - 1], k);
    }
    StopsWithoutChildren(events, k);
    EmptyAgain(events, k + 1, |events|);
  }

  method ServeOne(parent: Parent, e: Event, ghost events: seq<Event>, ghost k: nat) returns (told: seq<int>)
    requires k < |events| && e == events[k] && PossibleAt(events, k)
    requires parent.Valid() && Explained(parent.View(), events, k)
    modifies parent, parent.g_users, parent.sub_process
    ensures parent.Valid() && Explained(parent.View(), events, k + 1) && TellsRight(told, events, k)
  {
    ghost var m := parent.View();
    ExplainedNext(m, events, k);
    told := Serve(parent, e);
    ToldRight(told, m, events, k);
  }

  /** One pass of the loop: the events of a batch, behind those served before. */
  method ServeBatch(parent: Parent, batch: seq<Event>, ghost before: seq<Event>) returns (told: seq<seq<int>>)
    requires PossibleRun(before + batch)
    requires parent.Valid() && Explained(parent.View(), before, |before|)
    modifies parent, parent.g_users, parent.sub_process
    ensures parent.Valid() && Explained(parent.View(), before + batch, |before + batch|)
    ensures |told| == |batch| && ToldFrom(told, before + batch, |before|)
  {
    ghost var events := before + batch;
    PrefixExplained(parent.View(), before, batch);
    told := [];
    for i := 0 to |batch|
      invariant parent.Valid() && Explained(parent.View(), events, |before| + i)
      invariant |told| == i && ToldFrom(told, events, |before|)
    {
      assert PossibleAt(events, |before| + i);
      var now := ServeOne(parent, batch[i], events, |before| + i);
      ToldOne(told, now, events, |before|);
      told := told + [now];
    }
  }

  /** The main loop with its real tables, on any batches of events. It goes on until a batch has an event
      that decides to stop; every event tells exactly whom it should, once; and when the loop ends, no
      child is left exactly if those forked behind the deciding event were reaped. */
  method Run(batches: seq<seq<Event>>) returns (n: nat, told: seq<seq<int>>, left: int)
    requires forall b :: 0 <= b <= |batches| && Enters(batches, b) ==> PossibleRun(Flat(batches[..b]))
    ensures n <= |batches| && Enters(batches, n) && (n == |batches| || Stopped(Flat(batches[..n])))
    ensures |told| == |Flat(batches[..n])| && ToldFrom(told, Flat(batches[..n]), 0)
    ensures left == |Living(Flat(batches[..n]), |Flat(batches[..n])|)| <= USER_LIMIT
    ensures Stopped(Flat(batches[..n])) ==>
              exists k: nat :: k < |Flat(batches[..n])| && DecidesAt(Flat(batches[..n]), k)
                && (left == 0 <==> LateChildrenReaped(Flat(batches[..n]), k + 1, |Flat(batches[..n])|))
  {
    var parent := new Parent();
    n, told := 0, [];
    assert Flat(batches[..0]) == [];
    ExplainedFirst([]);
    while !parent.stop_server && n < |batches|
      invariant n <= |batches| && Enters(batches, n)
      invariant parent.Valid() && fresh(parent) && fresh(parent.g_users) && fresh(parent.sub_process)
      invariant Explained(parent.View(), Flat(batches[..n]), |Flat(batches[..n])|)
      invariant |told| == |Flat(batches[..n])| && ToldFrom(told, Flat(batches[..n]), 0)
    {
      ghost var before := Flat(batches[..n]);
      assert batches[..n + 1][..n] == batches[..n] && Flat(batches[..n + 1]) == before + batches[n];
      assert Enters(batches, n + 1);
      var more := ServeBatch(parent, batches[n], before);
      ToldMore(told, more, before, batches[n]);
      told := told + more;
      n := n + 1;
    }
    left := parent.g_user_count;
    TableCountsTheLiving(parent.View(), Flat(batches[..n]), |Flat(batches[..n])|);
    if parent.stop_server {
      StoppedLate(batches, n);
      ghost var k := EndsWithoutChildren(batches[..n]);
    }
  }

  lemma StoppedLate(batches: seq<seq<Event>>, n: nat)
    requires n <= |batches| && Enters(batches, n) && Stopped(Flat(batches[..n]))
    ensures n > 0 && Enters(batches[..n], n)
  {
    assert forall b :: 0 <= b < n ==> batches[..n][..b] == batches[..b];
  }
}
