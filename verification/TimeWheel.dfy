/** time_wheel.h: a wheel of 60 slots, each the head of a doubly linked chain of timers. */
module TimeWheel {
  import opened Sequences

  const N := 60  // slots on the wheel
  const SI := 1  // seconds a slot stands for

  /** `due` is the number of the `tick` call, counted from 0, on which the timer is to fire. */
  class TwTimer {
    var rotation: int
    const time_slot: int
    var next: TwTimer?
    var prev: TwTimer?
    ghost const due: nat

    constructor (rot: int, ts: int, ghost due: nat)
      ensures rotation == rot && time_slot == ts && next == null && prev == null && this.due == due
    {
      rotation, time_slot, next, prev, this.due := rot, ts, null, null, due;
    }
  }

  // ---------- chains ----------

  ghost predicate NodeAt(s: seq<TwTimer>, i: int)
    requires 0 <= i < |s|
    reads s`next, s`prev
  {
    && s[i].prev == (if i == 0 then null else s[i - 1])
    && s[i].next == (if i == |s| - 1 then null else s[i + 1])
  }

  /** `head` starts a well-formed, acyclic doubly linked chain made of exactly `s`. */
  ghost predicate Linked(head: TwTimer?, s: seq<TwTimer>)
    reads s`next, s`prev
  {
    && head == (if s == [] then null else s[0])
    && Distinct(s)
    && forall i :: 0 <= i < |s| ==> NodeAt(s, i)
  }

  /** The timers of `s` that fire on tick `now`, in order. */
  ghost function Due(s: seq<TwTimer>, now: nat): seq<TwTimer> {
    if s == [] then [] else Due(s[..|s| - 1], now) + (if s[|s| - 1].due == now then [s[|s| - 1]] else [])
  }

  /** The timers of `s` that stay, in order. */
  ghost function NotDue(s: seq<TwTimer>, now: nat): seq<TwTimer> {
    if s == [] then [] else NotDue(s[..|s| - 1], now) + (if s[|s| - 1].due == now then [] else [s[|s| - 1]])
  }

  lemma {:induction false} DueMembers(s: seq<TwTimer>, now: nat)
    ensures forall t :: t in Due(s, now) ==> t in s && t.due == now
    ensures forall t :: t in NotDue(s, now) ==> t in s && t.due != now
    ensures forall t :: t in s ==> t in if t.due == now then Due(s, now) else NotDue(s, now)
    ensures Distinct(s) ==> Distinct(Due(s, now)) && Distinct(NotDue(s, now))
  {
    if s != [] {
      DueMembers(s[..|s| - 1], now);
      assert s == s[..|s| - 1] + [s[|s| - 1]];
    }
  }

  ghost function NodesOf(chains: seq<seq<TwTimer>>): set<TwTimer> {
    set j, t | 0 <= j < |chains| && t in chains[j] :: t
  }

  lemma ChainInNodes(chains: seq<seq<TwTimer>>, j: int)
    requires 0 <= j < |chains|
    ensures forall t :: t in chains[j] ==> t in NodesOf(chains)
    ensures forall i :: 0 <= i < |chains[j]| ==> chains[j][i] in NodesOf(chains)
  {
  }

  lemma NodesAfterPush(chains: seq<seq<TwTimer>>, j: int, timer: TwTimer)
    requires 0 <= j < |chains|
    ensures NodesOf(chains[j := [timer] + chains[j]]) == NodesOf(chains) + {timer}
  {
    var after := chains[j := [timer] + chains[j]];
    ChainInNodes(after, j);
    forall t | t in NodesOf(chains)
      ensures t in NodesOf(after)
    {
      var i :| 0 <= i < |chains| && t in chains[i];
      assert t in after[i];
    }
  }

  lemma NodesAfterCut(chains: seq<seq<TwTimer>>, j: int, k: int)
    requires 0 <= j < |chains| && 0 <= k < |chains[j]|
    requires forall i :: 0 <= i < |chains| ==> OwnTimers(chains[i], i)
    ensures NodesOf(chains[j := RemoveAt(chains[j], k)]) == NodesOf(chains) - {chains[j][k]}
  {
    var after := chains[j := RemoveAt(chains[j], k)];
    forall t | t in NodesOf(chains) && t != chains[j][k]
      ensures t in NodesOf(after)
    {
      var i :| 0 <= i < |chains| && t in chains[i];
      assert t in after[i];
    }
    assert OwnTimers(chains[j], j);
    forall t | t in NodesOf(after)
      ensures t in NodesOf(chains) && t != chains[j][k]
    {
      var i :| 0 <= i < |chains| && t in after[i];
      assert t in chains[i] && chains[j][k] in chains[j] && OwnTimers(chains[i], i);
    }
  }

  lemma NodesShrink(chains: seq<seq<TwTimer>>, j: int, k: int)
    requires 0 <= j < |chains| && 0 <= k < |chains[j]|
    ensures NodesOf(chains[j := RemoveAt(chains[j], k)]) <= NodesOf(chains)
  {
    var after := chains[j := RemoveAt(chains[j], k)];
    forall t | t in NodesOf(after)
      ensures t in NodesOf(chains)
    {
      var i :| 0 <= i < |chains| && t in after[i];
      assert t in chains[i];
    }
  }

  /** `t` is among the first `p` timers of `s`. */
  ghost predicate Visited(s: seq<TwTimer>, p: nat, t: TwTimer)
    requires p <= |s|
  {
    exists i :: 0 <= i < p && s[i] == t
  }

  /** How many of the first `p` timers stay, and what is left of the chain after visiting them. */
  ghost function Kept(s: seq<TwTimer>, p: nat, now: nat): (k: nat)
    requires p <= |s|
    ensures k <= p
  {
    if p == 0 then 0 else Kept(s, p - 1, now) + (if s[p - 1].due == now then 0 else 1)
  }

  ghost function Remaining(s: seq<TwTimer>, p: nat, now: nat): (chain: seq<TwTimer>)
    requires p <= |s|
    ensures |chain| == |s| - p + Kept(s, p, now)
  {
    if p == 0 then s
    else if s[p - 1].due == now then RemoveAt(Remaining(s, p - 1, now), Kept(s, p - 1, now))
    else Remaining(s, p - 1, now)
  }

  lemma {:induction false} RemainingSplits(s: seq<TwTimer>, p: nat, now: nat)
    requires p <= |s|
    ensures Remaining(s, p, now) == NotDue(s[..p], now) + s[p..]
    ensures Kept(s, p, now) == |NotDue(s[..p], now)|
  {
    if p > 0 {
      RemainingSplits(s, p - 1, now);
      assert s[..p][..p - 1] == s[..p - 1] && s[p - 1..] == [s[p - 1]] + s[p..];
    }
  }

  /** At the `p`-th visit: where the timer stands in what is left of the chain, and what follows. */
  lemma TraversalStep(s: seq<TwTimer>, p: nat, now: nat)
    requires p < |s| && Distinct(s)
    ensures !Visited(s, p, s[p])
    ensures forall t :: Visited(s, p + 1, t) <==> Visited(s, p, t) || t == s[p]
    ensures var chain, k := Remaining(s, p, now), Kept(s, p, now);
            && chain[k] == s[p]
            && (if p + 1 == |s| then k == |chain| - 1 else k < |chain| - 1 && chain[k + 1] == s[p + 1])
            && Remaining(s, p + 1, now) == if s[p].due == now then RemoveAt(chain, k) else chain
  {
    RemainingSplits(s, p, now);
  }

  lemma NodesAfterTick(chains: seq<seq<TwTimer>>, j: int, now: nat)
    requires 0 <= j < |chains| && forall i :: 0 <= i < |chains| ==> OwnTimers(chains[i], i)
    ensures NodesOf(chains[j := NotDue(chains[j], now)]) == NodesOf(chains) - (set t | t in Due(chains[j], now))
  {
    var after := chains[j := NotDue(chains[j], now)];
    DueMembers(chains[j], now);
    forall t | t in NodesOf(chains) && t !in Due(chains[j], now)
      ensures t in NodesOf(after)
    {
      var i :| 0 <= i < |chains| && t in chains[i];
      assert t in after[i];
    }
    forall t | t in NodesOf(after)
      ensures t in NodesOf(chains) && t !in Due(chains[j], now)
    {
      var i :| 0 <= i < |chains| && t in after[i];
      assert t in chains[i] && OwnTimers(chains[i], i) && OwnTimers(chains[j], j);
    }
  }

  // ---------- the wheel ----------

  /** Before tick `now`, with the wheel at slot `cur`: the rotations left and the distance from the
      current slot add up to the ticks left. */
  ghost predicate LeftOver(t: TwTimer, rotation: int, now: nat, cur: int) {
    && rotation >= 0
    && t.due == now + rotation * N + (if t.time_slot >= cur then t.time_slot - cur else t.time_slot - cur + N)
  }

  lemma LeftOverNext(t: TwTimer, rotation: int, now: nat, cur: int)
    requires LeftOver(t, rotation, now, cur) && t.due != now && 0 <= cur < N && 0 <= t.time_slot < N
    ensures LeftOver(t, if t.time_slot == cur then rotation - 1 else rotation, now + 1, (cur + 1) % N)
  {
  }

  /** The chains and rotations at the start of a tick that has to be served at slot `cur`. */
  ghost predicate Snapshot(before: seq<seq<TwTimer>>, rotations: map<TwTimer, int>, now: nat, cur: int) {
    && |before| == N && 0 <= cur < N && rotations.Keys == NodesOf(before)
    && (forall j :: 0 <= j < N ==> OwnTimers(before[j], j))
    && (forall t {:trigger LeftOver(t, rotations[t], now, cur)} :: t in rotations ==> LeftOver(t, rotations[t], now, cur))
  }

  ghost predicate OwnTimers(s: seq<TwTimer>, j: int) {
    Distinct(s) && forall t :: t in s ==> t.time_slot == j
  }

  /** A timer of the current slot is due exactly when it has no rotations left, and all due timers
      are in that slot. */
  lemma DueHere(before: seq<seq<TwTimer>>, rotations: map<TwTimer, int>, now: nat, cur: int)
    requires Snapshot(before, rotations, now, cur)
    ensures forall t :: t in before[cur] ==> t in rotations && (rotations[t] > 0 <==> t.due != now)
    ensures forall t :: t in rotations && t.due == now ==> t in before[cur]
  {
    ChainInNodes(before, cur);
    assert OwnTimers(before[cur], cur);
    forall t | t in before[cur]
      ensures t in rotations && (rotations[t] > 0 <==> t.due != now)
    {
      assert LeftOver(t, rotations[t], now, cur);
    }
    forall t | t in rotations && t.due == now
      ensures t in before[cur]
    {
      var j :| 0 <= j < |before| && t in before[j];
      assert LeftOver(t, rotations[t], now, cur) && OwnTimers(before[j], j);
    }
  }

  /** What the end of a tick makes of the nodes and the rotations. */
  lemma AfterTick(before: seq<seq<TwTimer>>, rotations: map<TwTimer, int>, now: nat, c: int)
    requires Snapshot(before, rotations, now, c)
    ensures var left := NodesOf(before[c := Remaining(before[c], |before[c]|, now)]);
            && left == rotations.Keys - (set t | t in Due(before[c], now))
            && forall t :: t in left ==>
                 LeftOver(t, if Visited(before[c], |before[c]|, t) && t.due != now then rotations[t] - 1 else rotations[t],
                          now + 1, (c + 1) % N)
    ensures Distinct(Due(before[c], now)) && forall t :: t in Due(before[c], now) ==> t in rotations
    ensures forall t :: t in rotations ==> (t.due == now <==> t in Due(before[c], now))
  {
    var s := before[c];
    assert OwnTimers(s, c);
    DueHere(before, rotations, now, c);
    DueMembers(s, now);
    RemainingSplits(s, |s|, now);
    assert s[..|s|] == s && Remaining(s, |s|, now) == NotDue(s, now);
    NodesAfterTick(before, c, now);
    forall t | t in rotations && t.due != now
      ensures LeftOver(t, if Visited(s, |s|, t) && t.due != now then rotations[t] - 1 else rotations[t], now + 1, (c + 1) % N)
    {
      var j :| 0 <= j < |before| && t in before[j];
      assert OwnTimers(before[j], j) && LeftOver(t, rotations[t], now, c);
      LeftOverNext(t, rotations[t], now, c);
      assert Visited(s, |s|, t) <==> t in s;
    }
  }

  class TimeWheel {
    const slots: array<TwTimer?>
    var cur_slot: int
    ghost var chains: seq<seq<TwTimer>>  // the timers of each slot, in order
    ghost var ticks: nat  // how often the wheel has turned

    ghost function Nodes(): set<TwTimer>
      reads this`chains
    {
      NodesOf(chains)
    }

    ghost predicate SlotLinked(j: int)
      requires 0 <= j < |chains| == slots.Length
      reads this`chains, slots, Nodes()`next, Nodes()`prev
    {
      ChainInNodes(chains, j);
      Linked(slots[j], chains[j]) && forall t :: t in chains[j] ==> t.time_slot == j
    }

    /** All 60 slots head well-formed chains, disjoint because every node carries its slot number. */
    ghost predicate Links()
      reads this`chains, slots, Nodes()`next, Nodes()`prev
    {
      && slots.Length == |chains| == N
      && forall j :: 0 <= j < N ==> SlotLinked(j)
    }

    ghost predicate OnTime(t: TwTimer)
      reads this, t
    {
      LeftOver(t, t.rotation, ticks, cur_slot)
    }

    ghost predicate Valid()
      reads this, slots, Nodes()
    {
      && Links() && 0 <= cur_slot < N
      && forall t :: t in Nodes() ==> OnTime(t)
    }

    constructor ()
      ensures Valid() && fresh(slots) && cur_slot == 0
      ensures ticks == 0 && Nodes() == {}
    {
      slots := new TwTimer?[N];
      cur_slot, chains, ticks := 0, seq(N, i => []), 0;
      new;
      for i := 0 to N
        invariant forall j :: 0 <= j < i ==> slots[j] == null
        invariant chains == seq(N, i => []) && ticks == 0 && cur_slot == 0
      {
        slots[i] := null;
      }
    }

    /** Links a new timer in before the head of slot `ts`. */
    method PushFront(ts: int, timer: TwTimer)
      requires Links() && 0 <= ts < N
      requires timer !in Nodes() && timer.next == null && timer.prev == null && timer.time_slot == ts
      modifies this`chains, slots, timer`next, chains[ts]`prev
      ensures Links() && chains == old(chains)[ts := [timer] + old(chains[ts])]
    {
      ghost var s := chains[ts];
      assert SlotLinked(ts);
      ChainInNodes(chains, ts);
      if slots[ts] == null {
        slots[ts] := timer;
      } else {
        assert NodeAt(s, 0);
        timer.next := slots[ts];
        slots[ts].prev := timer;
        slots[ts] := timer;
      }
      chains := chains[ts := [timer] + s];
      forall i | 0 <= i < |s| + 1
        ensures NodeAt(chains[ts], i)
      {
        assert i > 0 ==> old(NodeAt(s, i - 1));
      }
      forall j | 0 <= j < N
        ensures SlotLinked(j)
      {
        if j != ts {
          assert old(SlotLinked(j));
          forall i | 0 <= i < |chains[j]|
            ensures NodeAt(chains[j], i)
          {
            assert old(NodeAt(chains[j], i)) && chains[j][i].time_slot == j;
          }
        }
      }
    }

    /** Takes the `k`-th timer of slot `ts` out of its chain. */
    method Unlink(ts: int, timer: TwTimer, ghost k: int)
      requires Links() && 0 <= ts < N && 0 <= k < |chains[ts]| && chains[ts][k] == timer
      modifies this`chains, slots, chains[ts]`next, chains[ts]`prev
      ensures Links() && chains == old(chains)[ts := RemoveAt(old(chains[ts]), k)]
      ensures timer.next == old(timer.next)
    {
      ghost var s := chains[ts];
      assert SlotLinked(ts) && NodeAt(s, k);
      assert k > 0 ==> NodeAt(s, k - 1);
      assert k < |s| - 1 ==> NodeAt(s, k + 1);
      if timer == slots[ts] {
        slots[ts] := timer.next;
        if slots[ts] != null {
          slots[ts].prev := null;
        }
      } else {
        timer.prev.next := timer.next;
        if timer.next != null {
          timer.next.prev := timer.prev;
        }
      }
      chains := chains[ts := RemoveAt(s, k)];
      forall i | 0 <= i < |s| - 1
        ensures NodeAt(chains[ts], i)
      {
        assert i < k ==> old(NodeAt(s, i));
        assert i >= k ==> old(NodeAt(s, i + 1));
      }
      forall j | 0 <= j < N
        ensures SlotLinked(j)
      {
        if j != ts {
          assert old(SlotLinked(j));
          forall i | 0 <= i < |chains[j]|
            ensures NodeAt(chains[j], i)
          {
            assert old(NodeAt(chains[j], i)) && chains[j][i].time_slot == j;
          }
        }
      }
    }

    /** The new timer is due max(1, timeout / SI) ticks after the next one. */
    method AddTimer(timeout: int) returns (timer: TwTimer?)
      requires Valid()
      modifies this, slots, Nodes()
      ensures Valid() && cur_slot == old(cur_slot) && ticks == old(ticks)
      ensures timeout < 0 ==> timer == null && chains == old(chains)
      ensures timeout >= 0 ==>
                && timer != null && fresh(timer)
                && timer.due == ticks + (if timeout < SI then 1 else timeout / SI)
                && Nodes() == old(Nodes()) + {timer}
    {
      if timeout < 0 {
        return null;
      }
      var wait := if timeout < SI then 1 else timeout / SI;
      var rotation := wait / N;
      var ts := (cur_slot + wait % N) % N;
      timer := new TwTimer(rotation, ts, ticks + wait);
      ChainInNodes(chains, ts);
      PushFront(ts, timer);
      NodesAfterPush(old(chains), ts, timer);
      assert OnTime(timer);
      assert forall t :: t in old(Nodes()) ==> old(OnTime(t));
    }

    /** Deletes a timer that is on the wheel. */
    method DelTimer(timer: TwTimer?)
      requires Valid() && (timer == null || timer in Nodes())
      modifies this, slots, Nodes()
      ensures Valid() && cur_slot == old(cur_slot) && ticks == old(ticks)
      ensures Nodes() == if timer == null then old(Nodes()) else old(Nodes()) - {timer}
    {
      if timer == null {
        return;
      }
      ghost var j :| 0 <= j < N && timer in chains[j];
      ChainInNodes(chains, j);
      forall i | 0 <= i < N
        ensures OwnTimers(chains[i], i)
      {
        assert SlotLinked(i);
      }
      assert SlotLinked(j);
      ghost var k :| 0 <= k < |chains[j]| && chains[j][k] == timer;
      Unlink(timer.time_slot, timer, k);
      NodesAfterCut(old(chains), j, k);
      assert forall t :: t in Nodes() ==> old(OnTime(t));
    }

    /** What the traversal of the current slot has done after `p` timers, seen from the chains and
        rotations it started with: the due timers are out of the chain, the others have one rotation
        less, and no other slot or timer was touched. `tmp` is the next timer to visit. */
    ghost predicate Traversed(before: seq<seq<TwTimer>>, rotations: map<TwTimer, int>, p: nat, now: nat, tmp: TwTimer?)
      requires Snapshot(before, rotations, now, cur_slot) && p <= |before[cur_slot]|
      reads this`chains, this`cur_slot, rotations.Keys`rotation
    {
      && tmp == (if p == |before[cur_slot]| then null else before[cur_slot][p])
      && chains == before[cur_slot := Remaining(before[cur_slot], p, now)]
      && Nodes() <= rotations.Keys
      && forall t :: t in rotations ==> RotationAfter(t, rotations[t], before[cur_slot], p, now)
    }

    static ghost predicate RotationAfter(t: TwTimer, rotation: int, s: seq<TwTimer>, p: nat, now: nat)
      requires p <= |s|
      reads t`rotation
    {
      t.rotation == if Visited(s, p, t) && t.due != now then rotation - 1 else rotation
    }

    /** One turn of the traversal, at the `p`-th timer of the slot: its callback runs if it is due. */
    method Visit(tmp: TwTimer, ran: seq<TwTimer>,
                 ghost before: seq<seq<TwTimer>>, ghost rotations: map<TwTimer, int>, ghost p: nat, ghost now: nat)
      returns (next: TwTimer?, ran': seq<TwTimer>)
      requires Links() && Snapshot(before, rotations, now, cur_slot) && p < |before[cur_slot]|
      requires Traversed(before, rotations, p, now, tmp)
      modifies this`chains, slots, Nodes()
      ensures Links() && Traversed(before, rotations, p + 1, now, next)
      ensures ran' == if tmp.due == now then ran + [tmp] else ran
    {
      assert OwnTimers(before[cur_slot], cur_slot);
      DueHere(before, rotations, now, cur_slot);
      assert RotationAfter(tmp, rotations[tmp], before[cur_slot], p, now);
      TraversalStep(before[cur_slot], p, now);
      if tmp.rotation > 0 {
        next := Keep(tmp, before, rotations, p, now);
        ran' := ran;
      } else {
        next, ran' := Fire(tmp, ran, before, rotations, p, now);
      }
    }

    lemma NextToVisit(before: seq<seq<TwTimer>>, rotations: map<TwTimer, int>, p: nat, now: nat, tmp: TwTimer)
      requires Links() && Snapshot(before, rotations, now, cur_slot) && p < |before[cur_slot]|
      requires Traversed(before, rotations, p, now, tmp)
      ensures Kept(before[cur_slot], p, now) < |chains[cur_slot]|
      ensures chains[cur_slot][Kept(before[cur_slot], p, now)] == tmp
      ensures tmp.next == if p + 1 == |before[cur_slot]| then null else before[cur_slot][p + 1]
    {
      var chain, kept := chains[cur_slot], Kept(before[cur_slot], p, now);
      assert OwnTimers(before[cur_slot], cur_slot);
      TraversalStep(before[cur_slot], p, now);
      assert chain == Remaining(before[cur_slot], p, now) && SlotLinked(cur_slot) && NodeAt(chain, kept);
    }

    /** The timer stays for another round. */
    method Keep(tmp: TwTimer, ghost before: seq<seq<TwTimer>>, ghost rotations: map<TwTimer, int>, ghost p: nat, ghost now: nat)
      returns (next: TwTimer?)
      requires Links() && Snapshot(before, rotations, now, cur_slot) && p < |before[cur_slot]|
      requires Traversed(before, rotations, p, now, tmp)
      requires tmp.due != now
      modifies this`chains, slots, Nodes()
      ensures Links() && Traversed(before, rotations, p + 1, now, next)
    {
      assert OwnTimers(before[cur_slot], cur_slot);
      TraversalStep(before[cur_slot], p, now);
      DueHere(before, rotations, now, cur_slot);
      ChainInNodes(chains, cur_slot);
      NextToVisit(before, rotations, p, now, tmp);
      next := tmp.next;
      tmp.rotation := tmp.rotation - 1;
      forall j | 0 <= j < N
        ensures SlotLinked(j)
      {
        assert old(SlotLinked(j));
      }
      forall t | t in rotations
        ensures RotationAfter(t, rotations[t], before[cur_slot], p + 1, now)
      {
        assert old(RotationAfter(t, rotations[t], before[cur_slot], p, now));
      }
    }

    /** The callback runs and the timer leaves the chain. */
    method Fire(tmp: TwTimer, ran: seq<TwTimer>,
                ghost before: seq<seq<TwTimer>>, ghost rotations: map<TwTimer, int>, ghost p: nat, ghost now: nat)
      returns (next: TwTimer?, ran': seq<TwTimer>)
      requires Links() && Snapshot(before, rotations, now, cur_slot) && p < |before[cur_slot]|
      requires Traversed(before, rotations, p, now, tmp)
      requires tmp.due == now
      modifies this`chains, slots, Nodes()
      ensures Links() && Traversed(before, rotations, p + 1, now, next)
      ensures ran' == ran + [tmp]
    {
      assert OwnTimers(before[cur_slot], cur_slot);
      TraversalStep(before[cur_slot], p, now);
      DueHere(before, rotations, now, cur_slot);
      ChainInNodes(chains, cur_slot);
      NextToVisit(before, rotations, p, now, tmp);
      ran' := ran + [tmp];
      next := tmp.next;
      Unlink(cur_slot, tmp, Kept(before[cur_slot], p, now));
      NodesShrink(old(chains), cur_slot, Kept(before[cur_slot], p, now));
      forall t | t in rotations
        ensures RotationAfter(t, rotations[t], before[cur_slot], p + 1, now)
      {
        assert old(RotationAfter(t, rotations[t], before[cur_slot], p, now));
      }
    }

    /** Walks along the chain of the current slot. */
    method Traverse(ghost before: seq<seq<TwTimer>>, ghost rotations: map<TwTimer, int>, ghost now: nat)
      returns (ran: seq<TwTimer>)
      requires Links() && Snapshot(before, rotations, now, cur_slot)
      requires Traversed(before, rotations, 0, now, slots[cur_slot])
      modifies this`chains, slots, rotations.Keys
      ensures Links() && Traversed(before, rotations, |before[cur_slot]|, now, null)
      ensures ran == Due(before[cur_slot], now)
    {
      ghost var s := before[cur_slot];
      var tmp := slots[cur_slot];
      ghost var p := 0;
      ran := [];
      while tmp != null
        invariant p <= |s| && Links() && Traversed(before, rotations, p, now, tmp)
        invariant ran == Due(s[..p], now)
        decreases |s| - p
      {
        assert s[..p + 1][..p] == s[..p];
        tmp, ran := Visit(tmp, ran, before, rotations, p, now);
        p := p + 1;
      }
      assert s[..|s|] == s;
    }

    /** Runs the callbacks of the timers of the current slot that have no rotations left, takes
        these timers out of the chain while walking along it, and moves on to the next slot. `ran`
        lists the timers whose callbacks ran: all those due now, each once. */
    method Tick() returns (ran: seq<TwTimer>)
      requires Valid()
      modifies this, slots, Nodes()
      ensures Valid() && cur_slot == (old(cur_slot) + 1) % N && ticks == old(ticks) + 1
      ensures ran == Due(old(chains[cur_slot]), old(ticks)) && Distinct(ran)
      ensures forall t :: t in ran ==> t in old(Nodes())
      ensures forall t :: t in old(Nodes()) ==> (t in ran <==> t.due == old(ticks))
      ensures Nodes() == old(Nodes()) - (set t | t in ran)
    {
      ghost var before := chains;
      ghost var rotations := map t | t in Nodes() :: t.rotation;
      TakeSnapshot(rotations);
      ran := Traverse(before, rotations, ticks);
      Advance(before, rotations);
    }

    lemma TakeSnapshot(rotations: map<TwTimer, int>)
      requires Valid() && rotations.Keys == Nodes() && forall t :: t in rotations ==> rotations[t] == t.rotation
      ensures Snapshot(chains, rotations, ticks, cur_slot)
      ensures Traversed(chains, rotations, 0, ticks, slots[cur_slot])
    {
      var s := chains[cur_slot];
      assert chains[cur_slot := s] == chains;
      forall j | 0 <= j < N
        ensures OwnTimers(chains[j], j)
      {
        assert SlotLinked(j);
      }
      assert SlotLinked(cur_slot);
      forall t | t in rotations
        ensures LeftOver(t, rotations[t], ticks, cur_slot)
      {
        assert OnTime(t);
      }
    }

    /** The step to the next slot, once the whole slot has been visited. */
    method Advance(ghost before: seq<seq<TwTimer>>, ghost rotations: map<TwTimer, int>)
      requires Links() && Snapshot(before, rotations, ticks, cur_slot)
      requires Traversed(before, rotations, |before[cur_slot]|, ticks, null)
      modifies this`cur_slot, this`ticks
      ensures Valid() && cur_slot == (old(cur_slot) + 1) % N && ticks == old(ticks) + 1
      ensures var ran := Due(before[old(cur_slot)], old(ticks));
              && Distinct(ran) && (forall t :: t in ran ==> t in rotations)
              && Nodes() == rotations.Keys - (set t | t in ran)
              && forall t :: t in rotations ==> (t.due == old(ticks) <==> t in ran)
    {
      ghost var c, now := cur_slot, ticks;
      AfterTick(before, rotations, now, c);
      cur_slot, ticks := (cur_slot + 1) % N, ticks + 1;
      forall t | t in Nodes()
        ensures OnTime(t)
      {
        assert old(RotationAfter(t, rotations[t], before[c], |before[c]|, now));
      }
      forall j | 0 <= j < N
        ensures SlotLinked(j)
      {
        assert old(SlotLinked(j));
      }
    }
  }
}
