/** timer_list.h: timers in a doubly linked list, in ascending order of expiry. */
module SortedTimerList {
  import opened Sequences
  import opened TimerOrder

  class UtilTimer {
    var expire: int
    const user_data: int
    var prev: UtilTimer?
    var next: UtilTimer?

    constructor (user_data: int, expire: int)
      ensures this.user_data == user_data && this.expire == expire && prev == null && next == null
    {
      this.user_data, this.expire, prev, next := user_data, expire, null, null;
    }
  }

  ghost predicate NodeAt(s: seq<UtilTimer>, i: int)
    requires 0 <= i < |s|
    reads s`prev, s`next
  {
    && s[i].prev == (if i == 0 then null else s[i - 1])
    && s[i].next == (if i == |s| - 1 then null else s[i + 1])
  }

  ghost function IndexOf(s: seq<UtilTimer>, t: UtilTimer): (i: nat)
    requires t in s
    ensures i < |s| && s[i] == t
  {
    var i :| 0 <= i < |s| && s[i] == t;
    i
  }

  /** The timers with their expiries. */
  ghost function EntriesOf(s: seq<UtilTimer>): (r: seq<Entry<UtilTimer>>)
    reads s`expire
    ensures |r| == |s| && forall i {:trigger r[i]} :: 0 <= i < |s| ==> r[i] == Entry(s[i].expire, s[i])
  {
    EntriesExist(s);
    var r :| IsEntries(s, r);
    r
  }

  ghost predicate IsEntries(s: seq<UtilTimer>, r: seq<Entry<UtilTimer>>)
    reads s`expire
  {
    |r| == |s| && forall i {:trigger r[i]} :: 0 <= i < |s| ==> r[i] == Entry(s[i].expire, s[i])
  }

  lemma {:induction false} EntriesExist(s: seq<UtilTimer>)
    ensures exists r :: IsEntries(s, r)
  {
    if s == [] {
      assert IsEntries(s, []);
    } else {
      EntriesExist(s[1..]);
      var r :| IsEntries(s[1..], r);
      assert IsEntries(s, [Entry(s[0].expire, s[0])] + r);
    }
  }

  lemma EntriesInserted(s: seq<UtilTimer>, p: nat, timer: UtilTimer)
    requires p <= |s|
    ensures EntriesOf(s[..p] + [timer] + s[p..]) == InsertAt(EntriesOf(s), p, Entry(timer.expire, timer))
  {
    var t, e := s[..p] + [timer] + s[p..], EntriesOf(s);
    var a, b := EntriesOf(t), InsertAt(e, p, Entry(timer.expire, timer));
    forall i | 0 <= i < |t|
      ensures a[i] == b[i]
    {
      if i < p {
        assert t[i] == s[i] && b[i] == e[i];
      } else if i > p {
        assert t[i] == s[i - 1] && b[i] == e[i - 1];
      }
    }
  }

  lemma EntriesDropped(s: seq<UtilTimer>, p: nat)
    requires p <= |s|
    ensures EntriesOf(s[p..]) == EntriesOf(s)[p..]
  {
  }

  lemma EntriesPushed(s: seq<UtilTimer>, timer: UtilTimer)
    requires s == [] || timer.expire < s[0].expire
    ensures EntriesOf([timer] + s) == Insert(EntriesOf(s), Entry(timer.expire, timer))
  {
    EntriesInserted(s, 0, timer);
    assert s[..0] + [timer] + s[0..] == [timer] + s;
    PlaceUnique(EntriesOf(s), timer.expire, 0);
  }

  lemma EntriesRemoved(s: seq<UtilTimer>, i: nat)
    requires i < |s| && Distinct(s)
    ensures s[i] !in RemoveAt(s, i)
    ensures EntriesOf(RemoveAt(s, i)) == RemoveAt(EntriesOf(s), i)
  {
    var t, e := RemoveAt(s, i), EntriesOf(s);
    forall k | 0 <= k < |t|
      ensures EntriesOf(t)[k] == RemoveAt(e, i)[k]
    {
      if k < i {
        assert t[k] == s[k];
      } else {
        assert t[k] == s[k + 1];
      }
    }
  }

  lemma SpliceItems(s: seq<UtilTimer>, p: nat, timer: UtilTimer)
    requires p <= |s|
    ensures multiset(s[..p] + [timer] + s[p..]) == multiset(s) + multiset{timer}
  {
    assert s == s[..p] + s[p..];
  }

  lemma CutItems(s: seq<UtilTimer>, i: nat)
    requires i < |s|
    ensures multiset(s) == multiset(RemoveAt(s, i)) + multiset{s[i]}
  {
    assert s == s[..i] + [s[i]] + s[i + 1..];
  }

  ghost function Only(timer: UtilTimer?): set<UtilTimer> {
    if timer == null then {} else {timer}
  }

  class SortedTimerLst {
    var head: UtilTimer?
    var tail: UtilTimer?
    ghost var nodes: seq<UtilTimer>

    /** The list is well linked from `head`; `tail` means something only while it is not empty. */
    ghost predicate Valid()
      reads this, nodes`prev, nodes`next
    {
      && head == (if nodes == [] then null else nodes[0])
      && (nodes != [] ==> tail == nodes[|nodes| - 1])
      && Distinct(nodes)
      && forall i :: 0 <= i < |nodes| ==> NodeAt(nodes, i)
    }

    ghost function Entries(): seq<Entry<UtilTimer>>
      reads this, nodes`expire
    {
      EntriesOf(nodes)
    }

    constructor ()
      ensures Valid() && nodes == []
    {
      head, tail, nodes := null, null, [];
    }

    method AddTimer(timer: UtilTimer?)
      requires Valid()
      requires timer != null ==> timer !in nodes && timer.prev == null && timer.next == null
      modifies this, nodes`prev, nodes`next, Only(timer)`prev, Only(timer)`next
      ensures Valid()
      ensures multiset(nodes) == multiset(old(nodes)) + multiset(Only(timer))
      ensures Entries() == if timer == null then old(Entries()) else Insert(old(Entries()), Entry(timer.expire, timer))
    {
      if timer == null {
        return;
      }
      ghost var s := nodes;
      if head == null {
        head, tail := timer, timer;
        nodes := [timer] + s;
        EntriesPushed(s, timer);
        return;
      }
      if timer.expire < head.expire {
        PushFront(timer);
        EntriesPushed(s, timer);
        return;
      }
      AddAfterHead(timer);
      MovingIsReinsertion(EntriesOf(s), Entry(timer.expire, timer));
    }

    /** Links `timer` in before the head. */
    method PushFront(timer: UtilTimer)
      requires Valid() && nodes != [] && timer !in nodes && timer.prev == null
      modifies this, nodes`prev, timer`next
      ensures Valid() && nodes == [timer] + old(nodes)
    {
      ghost var s := nodes;
      assert NodeAt(s, 0);
      timer.next := head;
      head.prev := timer;
      head := timer;
      nodes := [timer] + s;
      forall i | 0 <= i < |nodes|
        ensures NodeAt(nodes, i)
      {
        assert i > 0 ==> old(NodeAt(s, i - 1));
      }
    }

    /** Links `timer` in between the `k`-th timer and the one behind it, if there is one. */
    method LinkIn(timer: UtilTimer, prev: UtilTimer, next: UtilTimer?, ghost k: nat)
      requires Valid() && timer !in nodes && k < |nodes|
      requires prev == nodes[k] && next == (if k == |nodes| - 1 then null else nodes[k + 1])
      modifies this`tail, this`nodes, nodes`prev, nodes`next, timer`prev, timer`next
      ensures Valid() && nodes == old(nodes)[..k + 1] + [timer] + old(nodes)[k + 1..]
    {
      ghost var s := nodes;
      prev.next := timer;
      timer.next := next;
      timer.prev := prev;
      if next == null {
        tail := timer;
      } else {
        next.prev := timer;
      }
      nodes := s[..k + 1] + [timer] + s[k + 1..];
      forall i | 0 <= i < |nodes|
        ensures NodeAt(nodes, i)
      {
        assert i <= k ==> old(NodeAt(s, i));
        assert i > k + 1 ==> old(NodeAt(s, i - 1));
      }
    }

    method Splice(timer: UtilTimer, prev: UtilTimer, next: UtilTimer?, ghost k: nat)
      requires Valid() && timer !in nodes && k < |nodes|
      requires prev == nodes[k] && next == (if k == |nodes| - 1 then null else nodes[k + 1])
      modifies this`tail, this`nodes, nodes`prev, nodes`next, timer`prev, timer`next
      ensures Valid() && multiset(nodes) == multiset(old(nodes)) + multiset{timer}
      ensures Entries() == InsertAt(old(Entries()), k + 1, Entry(timer.expire, timer))
    {
      ghost var s := nodes;
      LinkIn(timer, prev, next, k);
      EntriesInserted(s, k + 1, timer);
      SpliceItems(s, k + 1, timer);
    }

    /** The private overload: puts `timer` in front of the first later timer behind the head. */
    method AddAfterHead(timer: UtilTimer)
      requires Valid() && nodes != [] && timer !in nodes
      modifies this, nodes`prev, nodes`next, timer`prev, timer`next
      ensures Valid() && multiset(nodes) == multiset(old(nodes)) + multiset{timer}
      ensures Entries() == [old(Entries())[0]] + Insert(old(Entries())[1..], Entry(timer.expire, timer))
    {
      var prev := head;
      assert NodeAt(nodes, 0);
      var next := prev.next;
      ghost var k := 0;
      while next != null
        invariant 0 <= k < |nodes|
        invariant prev == nodes[k] && next == (if k == |nodes| - 1 then null else nodes[k + 1])
        invariant forall i :: 1 <= i <= k ==> nodes[i].expire <= timer.expire
        decreases |nodes| - k
      {
        if timer.expire < next.expire {
          break;
        }
        prev := next;
        next := next.next;
        k := k + 1;
        assert NodeAt(nodes, k);
      }
      PlaceBehindHead(Entries(), k, Entry(timer.expire, timer));
      Splice(timer, prev, next, k);
    }

    /** Takes the head out of the list. */
    method DropHead()
      requires Valid() && nodes != []
      modifies this`head, this`nodes, nodes`prev
      ensures Valid() && nodes == old(nodes)[1..]
    {
      ghost var s := nodes;
      assert NodeAt(s, 0);
      head := head.next;
      if head != null {
        head.prev := null;
      }
      nodes := s[1..];
      forall i | 0 <= i < |nodes|
        ensures NodeAt(nodes, i)
      {
        assert old(NodeAt(s, i + 1));
      }
    }

    /** Takes the `i`-th timer, which has neighbours on both sides, out of the list. */
    method DropInner(timer: UtilTimer, ghost i: nat)
      requires Valid() && 0 < i < |nodes| - 1 && nodes[i] == timer
      modifies this`nodes, nodes`prev, nodes`next
      ensures Valid() && nodes == RemoveAt(old(nodes), i)
    {
      ghost var s := nodes;
      assert NodeAt(s, i) && NodeAt(s, i - 1) && NodeAt(s, i + 1);
      timer.prev.next := timer.next;
      timer.next.prev := timer.prev;
      nodes := RemoveAt(s, i);
      forall k | 0 <= k < |nodes|
        ensures NodeAt(nodes, k)
      {
        assert k < i ==> old(NodeAt(s, k));
        assert k >= i ==> old(NodeAt(s, k + 1));
      }
    }

    method DropTail()
      requires Valid() && |nodes| >= 2
      modifies this`tail, this`nodes, nodes`next
      ensures Valid() && nodes == old(nodes)[..|old(nodes)| - 1]
    {
      ghost var s := nodes;
      assert NodeAt(s, |s| - 1) && NodeAt(s, |s| - 2);
      tail := tail.prev;
      tail.next := null;
      nodes := s[..|s| - 1];
      forall k | 0 <= k < |nodes|
        ensures NodeAt(nodes, k)
      {
        assert old(NodeAt(s, k));
      }
    }

    /** To be called after the expiry of a listed timer was changed. */
    method AdjustTimer(timer: UtilTimer?)
      requires Valid() && (timer == null || timer in nodes)
      modifies this, nodes`prev, nodes`next
      ensures Valid() && multiset(nodes) == multiset(old(nodes))
      ensures timer == null ==> nodes == old(nodes)
      ensures timer != null ==> Entries() == Adjust(old(Entries()), IndexOf(old(nodes), timer))
    {
      if timer == null {
        return;
      }
      ghost var s, i := nodes, IndexOf(nodes, timer);
      assert NodeAt(s, i);
      var next_timer := timer.next;
      if next_timer == null || timer.expire < next_timer.expire {
        return;
      }
      TakeOut(timer, i);
      AddAfterHead(timer);
    }

    /** How `adjustTimer` takes out a timer that has one behind it. */
    method LinkOut(timer: UtilTimer, ghost i: nat)
      requires Valid() && i < |nodes| - 1 && nodes[i] == timer
      modifies this`head, this`nodes, nodes`prev, nodes`next
      ensures Valid() && nodes == RemoveAt(old(nodes), i)
    {
      if timer == head {
        DropHead();
        timer.next := null;
      } else {
        DropInner(timer, i);
      }
    }

    method TakeOut(timer: UtilTimer, ghost i: nat)
      requires Valid() && i < |nodes| - 1 && nodes[i] == timer
      modifies this`head, this`nodes, nodes`prev, nodes`next
      ensures Valid() && timer !in nodes && nodes == RemoveAt(old(nodes), i)
      ensures multiset(old(nodes)) == multiset(nodes) + multiset{timer}
      ensures Entries() == RemoveAt(old(Entries()), i)
    {
      ghost var s := nodes;
      LinkOut(timer, i);
      EntriesRemoved(s, i);
      CutItems(s, i);
    }

    method DelTimer(timer: UtilTimer?)
      requires Valid() && (timer == null || timer in nodes)
      modifies this, nodes`prev, nodes`next
      ensures Valid()
      ensures timer == null ==> nodes == old(nodes)
      ensures timer != null ==> nodes == RemoveAt(old(nodes), IndexOf(old(nodes), timer))
      ensures timer != null ==> Entries() == RemoveAt(old(Entries()), IndexOf(old(nodes), timer))
    {
      if timer == null {
        return;
      }
      ghost var s, i := nodes, IndexOf(nodes, timer);
      EntriesRemoved(s, i);
      Cut(timer, i);
    }

    /** The links of a deletion. */
    method Cut(timer: UtilTimer, ghost i: nat)
      requires Valid() && i < |nodes| && nodes[i] == timer
      modifies this, nodes`prev, nodes`next
      ensures Valid() && nodes == RemoveAt(old(nodes), i)
    {
      ghost var s := nodes;
      if timer == head && timer == tail {
        head, tail := null, null;
        nodes := [];
      } else if timer == head {
        DropHead();
      } else if timer == tail {
        DropTail();
      } else {
        DropInner(timer, i);
      }
      assert nodes == RemoveAt(s, i);
    }

    /** Runs the callbacks of the timers in front of the first one that expires after `now`, and
        deletes them; `ran` lists their user data in the order of the calls. */
    method Tick(now: int) returns (ran: seq<int>)
      requires Valid()
      modifies this, nodes`prev
      ensures Valid()
      ensures nodes == old(nodes)[Place(old(Entries()), now)..]
      ensures Entries() == old(Entries())[Place(old(Entries()), now)..]
      ensures |ran| == Place(old(Entries()), now) && forall i :: 0 <= i < |ran| ==> ran[i] == old(nodes)[i].user_data
    {
      ran := [];
      if head == null {
        return;
      }
      ghost var s := nodes;
      var cur := head;
      while cur != null
        invariant Valid() && cur == head && |ran| <= |s| && nodes == s[|ran|..]
        invariant forall i :: 0 <= i < |ran| ==> ran[i] == s[i].user_data && s[i].expire <= now
        decreases |nodes|
      {
        if now < cur.expire {
          break;
        }
        ran := ran + [cur.user_data];
        DropHead();
        cur := head;
      }
      PlaceUnique(EntriesOf(s), now, |ran|);
      EntriesDropped(s, |ran|);
    }
  }
}
