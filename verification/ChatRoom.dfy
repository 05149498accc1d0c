/** chatroom_server.cc: the tables of the parent process, which forks one child per client. */
module ChatRoom {

  const USER_LIMIT := 5
  const PROCESS_LIMIT := 655350

  // ---------- the tables on values ----------

  /** A child in the table: its process, the parent's end of the pipe to it, and the segment of the
      shared memory it writes to, which is its index at the time of the fork. */
  datatype Child = Child(pid: int, pipe: int, segment: int)

  /** `forkedPid` is what fork returned to the parent: negative if it failed. `Exits` is a SIGCHLD
      with what the calls of waitpid return; `Data` is data on the pipe `sockfd`. */
  datatype Event =
    | Connect(connfd: int, forkedPid: int, pipe: int)
    | Exits(pids: seq<int>)
    | Terminate
    | Data(sockfd: int)

  datatype Model = Model(table: seq<Child>, terminate: bool, stop: bool)

  ghost predicate HasPid(table: seq<Child>, pid: int) {
    exists i :: 0 <= i < |table| && table[i].pid == pid
  }

  /** One of the first `n` children has the pipe `p`. */
  ghost predicate HasPipe(table: seq<Child>, n: nat, p: int)
    requires n <= |table|
  {
    exists i :: 0 <= i < n && table[i].pipe == p
  }

  ghost predicate Forks(m: Model, e: Event) {
    e.Connect? && e.connfd >= 0 && |m.table| < USER_LIMIT && e.forkedPid > 0
  }

  /** Where fork is called, pids and descriptors in use are not handed out again; waitpid returns children
      only, each once. */
  ghost predicate Possible(m: Model, e: Event) {
    match e
    case Connect(connfd, pid, pipe) =>
      connfd >= 0 && |m.table| < USER_LIMIT ==>
        pid != 0 && pid < PROCESS_LIMIT && !HasPid(m.table, pid) && forall i :: 0 <= i < |m.table| ==> m.table[i].pipe != pipe
    case Exits(pids) =>
      (forall i :: 0 <= i < |pids| ==> HasPid(m.table, pids[i])) && forall i, j :: 0 <= i < j < |pids| ==> pids[i] != pids[j]
    case _ => true
  }

  ghost function IndexOf(table: seq<Child>, pid: int): (i: nat)
    requires HasPid(table, pid)
    ensures i < |table| && table[i].pid == pid
  {
    var i :| 0 <= i < |table| && table[i].pid == pid;
    i
  }

  /** The last entry takes the place of the `d`-th. */
  function SwapOut(table: seq<Child>, d: nat): seq<Child>
    requires d < |table|
  {
    table[d := table[|table| - 1]][..|table| - 1]
  }

  ghost function Reap(table: seq<Child>, pid: int): seq<Child> {
    if HasPid(table, pid) then SwapOut(table, IndexOf(table, pid)) else table
  }

  ghost function ReapAll(table: seq<Child>, pids: seq<int>): seq<Child> {
    if pids == [] then table else Reap(ReapAll(table, pids[..|pids| - 1]), pids[|pids| - 1])
  }

  ghost function Step(m: Model, e: Event): Model {
    match e
    case Connect(_, pid, pipe) =>
      if Forks(m, e) then m.(table := m.table + [Child(pid, pipe, |m.table|)]) else m
    case Exits(pids) =>
      var table := ReapAll(m.table, pids);
      m.(table := table, stop := m.stop || (m.terminate && table == []))
    case Terminate =>
      if m.table == [] then m.(stop := true) else m.(terminate := true)
    case Data(_) => m
  }

  /** Pids and pipes are distinct, and the table is never over full. */
  ghost predicate Sound(m: Model) {
    && |m.table| <= USER_LIMIT
    && (forall i :: 0 <= i < |m.table| ==> 0 < m.table[i].pid < PROCESS_LIMIT)
    && Unique(m.table)
  }

  ghost predicate Unique(table: seq<Child>) {
    forall i, j :: 0 <= i < j < |table| ==> table[i].pid != table[j].pid && table[i].pipe != table[j].pipe
  }

  lemma SwapOutMembers(table: seq<Child>, d: nat, pid: int)
    requires d < |table| && Unique(table)
    ensures Unique(SwapOut(table, d))
    ensures HasPid(SwapOut(table, d), pid) <==> HasPid(table, pid) && pid != table[d].pid
    ensures forall c :: c in SwapOut(table, d) <==> c in table && c != table[d]
    ensures forall i :: 0 <= i < |table| - 1 ==> SwapOut(table, d)[i] == if i == d then table[|table| - 1] else table[i]
  {
    var t := SwapOut(table, d);
    if HasPid(table, pid) && pid != table[d].pid {
      var i := IndexOf(table, pid);
      assert t[if i == |table| - 1 then d else i].pid == pid;
    }
    if HasPid(t, pid) {
      var i := IndexOf(t, pid);
      assert table[if i == d then |table| - 1 else i].pid == pid;
    }
    forall c | c in table && c != table[d]
      ensures c in t
    {
      var i :| 0 <= i < |table| && table[i] == c;
      assert t[if i == |table| - 1 then d else i] == c;
    }
  }

  lemma {:induction false} ReapAllSound(m: Model, pids: seq<int>)
    requires Sound(m)
    ensures Sound(m.(table := ReapAll(m.table, pids)))
    ensures forall pid :: HasPid(ReapAll(m.table, pids), pid) <==> HasPid(m.table, pid) && pid !in pids
    ensures forall c :: c in ReapAll(m.table, pids) <==> c in m.table && c.pid !in pids
  {
    if pids != [] {
      var front, pid := pids[..|pids| - 1], pids[|pids| - 1];
      ReapAllSound(m, front);
      var t := ReapAll(m.table, front);
      assert pids == front + [pid];
      if HasPid(t, pid) {
        forall q
          ensures HasPid(SwapOut(t, IndexOf(t, pid)), q) <==> HasPid(t, q) && q != pid
        {
          SwapOutMembers(t, IndexOf(t, pid), q);
        }
        SwapOutMembers(t, IndexOf(t, pid), pid);
      }
    }
  }

  lemma ReapStep(m: Model, pids: seq<int>, i: nat)
    requires Sound(m) && Possible(m, Event.Exits(pids)) && i < |pids|
    ensures HasPid(ReapAll(m.table, pids[..i]), pids[i])
    ensures ReapAll(m.table, pids[..i + 1]) == Reap(ReapAll(m.table, pids[..i]), pids[i])
  {
    ReapAllSound(m, pids[..i]);
    assert HasPid(m.table, pids[i]) && pids[i] !in pids[..i];
    assert pids[..i + 1][..i] == pids[..i];
  }

  lemma StepSound(m: Model, e: Event)
    requires Sound(m) && Possible(m, e)
    ensures Sound(Step(m, e))
  {
    match e
    case Exits(pids) => ReapAllSound(m, pids);
    case Connect(_, pid, _) =>
      forall i | 0 <= i < |m.table| && Forks(m, e)
        ensures m.table[i].pid != pid
      {
        assert HasPid(m.table, m.table[i].pid);
      }
    case _ =>
  }

  // ---------- the shared memory ----------

  ghost predicate OwnSegments(table: seq<Child>) {
    forall i, j :: 0 <= i < j < |table| ==> table[i].segment != table[j].segment
  }

  /** While every child still stands at the index it was forked with, reaping one and forking another
      leaves the children with segments of their own exactly if the reaped one stood last. */
  lemma SegmentsCollide(table: seq<Child>, d: nat, pid: int, pipe: int)
    requires d < |table| && forall i :: 0 <= i < |table| ==> table[i].segment == i
    ensures var rest := SwapOut(table, d);
            OwnSegments(rest + [Child(pid, pipe, |rest|)]) <==> d == |table| - 1
  {
    var rest := SwapOut(table, d);
    var all := rest + [Child(pid, pipe, |rest|)];
    if d < |table| - 1 {
      assert all[d].segment == |table| - 1 == all[|table| - 1].segment;
    }
  }

  // ---------- the parent process ----------

  /** The entries of g_users that matter here; `pipe` is pipefd[0]. */
  datatype ClientData = ClientData(connfd: int, pid: int, pipe: int)

  class Parent {
    const g_users: array<ClientData>
    const sub_process: array<int>
    var g_user_count: int
    var terminate: bool
    var stop_server: bool
    ghost var table: seq<Child>

    ghost function View(): Model
      reads this
    {
      Model(table, terminate, stop_server)
    }

    /** The entry and the two-way mapping of the `i`-th child. */
    ghost predicate Mapped(i: int)
      requires 0 <= i < |table| <= g_users.Length && sub_process.Length == PROCESS_LIMIT
      reads this, g_users, sub_process
    {
      && g_users[i].pid == table[i].pid && g_users[i].pipe == table[i].pipe
      && 0 < table[i].pid < PROCESS_LIMIT && sub_process[table[i].pid] == i
    }

    ghost predicate Valid()
      reads this, g_users, sub_process
    {
      && g_users.Length == USER_LIMIT + 1 && sub_process.Length == PROCESS_LIMIT
      && g_user_count == |table| && Sound(View())
      && forall i :: 0 <= i < |table| ==> Mapped(i)
    }

    constructor ()
      ensures Valid() && fresh(g_users) && fresh(sub_process)
      ensures View() == Model([], false, false)
    {
      g_users := new ClientData[USER_LIMIT + 1](_ => ClientData(0, 0, 0));
      sub_process := new int[PROCESS_LIMIT](_ => -1);
      g_user_count, terminate, stop_server, table := 0, false, false, [];
    }

    /** A new client; at the limit, or if accept or fork fails, the tables stay as they are. */
    method Connect(connfd: int, forkedPid: int, pipe: int)
      requires Valid() && Possible(View(), Event.Connect(connfd, forkedPid, pipe))
      modifies this`g_user_count, this`table, g_users, sub_process
      ensures Valid() && View() == Step(old(View()), Event.Connect(connfd, forkedPid, pipe))
    {
      StepSound(View(), Event.Connect(connfd, forkedPid, pipe));
      if connfd < 0 {
        return;
      }
      if g_user_count >= USER_LIMIT {
        return;
      }
      ghost var before := table;
      g_users[g_user_count] := g_users[g_user_count].(connfd := connfd, pipe := pipe);
      if forkedPid > 0 {
        g_users[g_user_count] := g_users[g_user_count].(pid := forkedPid);
        sub_process[forkedPid] := g_user_count;
        g_user_count := g_user_count + 1;
        table := table + [Child(forkedPid, pipe, |table|)];
      }
      forall i | 0 <= i < |table|
        ensures Mapped(i)
      {
        if i < |before| {
          assert old(Mapped(i)) && HasPid(before, before[i].pid);
        }
      }
    }

    /** One child reaped: its entry is overwritten by the last one, whose mapping is corrected. If it
        was the last entry itself, its pid stays mapped to the index. */
    method ReapOne(pid: int)
      requires Valid() && HasPid(table, pid)
      modifies this`g_user_count, this`table, g_users, sub_process
      ensures Valid() && table == Reap(old(table), pid)
      ensures 0 < pid < PROCESS_LIMIT
      ensures sub_process[pid] == if IndexOf(old(table), pid) == |table| then |table| else -1
    {
      ghost var d := IndexOf(table, pid);
      assert Mapped(d);
      var del_user := sub_process[pid];
      sub_process[pid] := -1;
      if del_user < 0 || del_user > USER_LIMIT {
        assert false;
        return;
      }
      ghost var before := table;
      assert old(Mapped(|before| - 1));
      g_user_count := g_user_count - 1;
      g_users[del_user] := g_users[g_user_count];
      sub_process[g_users[del_user].pid] := del_user;
      table := SwapOut(table, d);
      SwapOutMembers(before, d, pid);
      forall i | 0 <= i < |table|
        ensures Mapped(i)
      {
        assert old(Mapped(i));
      }
    }

    /** SIGCHLD: `pids` is what the calls of waitpid return, in order. */
    method Exits(pids: seq<int>)
      requires Valid() && Possible(View(), Event.Exits(pids))
      modifies this`g_user_count, this`table, this`stop_server, g_users, sub_process
      ensures Valid() && View() == Step(old(View()), Event.Exits(pids))
    {
      ghost var m := View();
      for i := 0 to |pids|
        invariant Valid() && table == ReapAll(m.table, pids[..i]) && stop_server == old(stop_server)
      {
        ReapStep(m, pids, i);
        ReapOne(pids[i]);
      }
      assert pids[..|pids|] == pids;
      ReapAllSound(m, pids);
      if terminate && g_user_count == 0 {
        stop_server := true;
      }
    }

    /** SIGTERM or SIGINT: `killed` lists the pids the signal is passed on to. */
    method Terminate() returns (killed: seq<int>)
      requires Valid()
      modifies this`terminate, this`stop_server
      ensures Valid() && View() == Step(old(View()), Event.Terminate)
      ensures forall pid :: pid in killed <==> HasPid(table, pid)
      ensures forall i, j :: 0 <= i < j < |killed| ==> killed[i] != killed[j]
    {
      killed := [];
      if g_user_count == 0 {
        stop_server := true;
        return;
      }
      for i := 0 to g_user_count
        invariant |killed| == i && forall j :: 0 <= j < i ==> killed[j] == table[j].pid
      {
        assert Mapped(i);
        killed := killed + [g_users[i].pid];
      }
      forall pid | HasPid(table, pid)
        ensures pid in killed
      {
        assert killed[IndexOf(table, pid)] == pid;
      }
      terminate := true;
      assert forall i :: 0 <= i < |table| ==> old(Mapped(i));
      forall i | 0 <= i < |table|
        ensures Mapped(i)
      {
        assert old(Mapped(i));
      }
    }

    /** Data on the pipe of one child: `sent` lists the pipes of the children that are told. */
    method Broadcast(sockfd: int) returns (sent: seq<int>)
      requires Valid()
      ensures forall p :: p in sent <==> p != sockfd && HasPipe(table, |table|, p)
      ensures forall i, j :: 0 <= i < j < |sent| ==> sent[i] != sent[j]
    {
      sent := [];
      for j := 0 to g_user_count
        invariant forall p :: p in sent <==> p != sockfd && HasPipe(table, j, p)
        invariant forall i, k :: 0 <= i < k < |sent| ==> sent[i] != sent[k]
      {
        assert Mapped(j) && !HasPipe(table, j, table[j].pipe);
        assert forall p :: HasPipe(table, j + 1, p) <==> HasPipe(table, j, p) || p == table[j].pipe;
        if g_users[j].pipe != sockfd {
          sent := sent + [g_users[j].pipe];
        }
      }
    }
  }

  /** The parent process on one event: `told` are the pipes it writes to, or the pids it signals. */
  method Serve(parent: Parent, e: Event) returns (told: seq<int>)
    requires parent.Valid() && Possible(parent.View(), e)
    modifies parent, parent.g_users, parent.sub_process
    ensures parent.Valid() && parent.View() == Step(old(parent.View()), e)
    ensures e.Data? ==> Others(told, old(parent.table), e.sockfd)
    ensures e.Terminate? ==> Everyone(told, old(parent.table))
    ensures e.Connect? || e.Exits? ==> told == []
  {
    told := [];
    match e
    case Connect(connfd, forkedPid, pipe) => parent.Connect(connfd, forkedPid, pipe);
    case Exits(pids) => parent.Exits(pids);
    case Terminate => told := parent.Terminate();
    case Data(sockfd) => told := parent.Broadcast(sockfd);
  }

  /** `told` are the pipes of all children but the one that sent the data. */
  ghost predicate Others(told: seq<int>, table: seq<Child>, sockfd: int) {
    && (forall i, j :: 0 <= i < j < |told| ==> told[i] != told[j])
    && (forall p :: p in told <==> p != sockfd && HasPipe(table, |table|, p))
  }

  /** `told` are the pids of all children. */
  ghost predicate Everyone(told: seq<int>, table: seq<Child>) {
    && (forall i, j :: 0 <= i < j < |told| ==> told[i] != told[j])
    && (forall pid :: pid in told <==> HasPid(table, pid))
  }
}
