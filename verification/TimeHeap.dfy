/** time_heap.h: timers in a std::set, ordered by expiry and address; deleting a timer only clears
    its callback. */
module TimeHeap {
  import opened TimerOrder
  import opened TimerRuns

  /** `addr` is what comparing the raw pointers looks at; `cb_func` says whether there is a callback. */
  class HeapTimer {
    const expire: int
    const addr: int
    const user_data: int
    var cb_func: bool

    constructor (expire: int, addr: int, user_data: int)
      ensures this.expire == expire && this.addr == addr && this.user_data == user_data && cb_func
    {
      this.expire, this.addr, this.user_data, cb_func := expire, addr, user_data, true;
    }
  }

  /** HeapTimer::Comparator. */
  predicate Less(lhs: HeapTimer?, rhs: HeapTimer?) {
    if lhs == null && rhs == null then false
    else if lhs == null then true
    else if rhs == null then false
    else if lhs.expire < rhs.expire then true
    else if rhs.expire < lhs.expire then false
    else lhs.addr < rhs.addr
  }

  /** On timers with addresses of their own, the comparator is a strict total order with the null
      pointer first, which is what std::set asks for. */
  lemma ComparatorIsStrictTotal(a: HeapTimer?, b: HeapTimer?, c: HeapTimer?)
    requires a != null && b != null && a.addr == b.addr ==> a == b
    ensures !Less(a, a)
    ensures Less(a, b) ==> !Less(b, a)
    ensures Less(a, b) && Less(b, c) ==> Less(a, c)
    ensures a == b || Less(a, b) || Less(b, a)
    ensures a == null && b != null ==> Less(a, b)
    ensures a != null && b != null && a.expire < b.expire ==> Less(a, b)
    ensures a != null && b != null && a.expire == b.expire && a.addr < b.addr ==> Less(a, b)
  {
  }

  ghost function ViewOne(t: HeapTimer): HeapEntry<HeapTimer>
    reads t
  {
    HeapEntry(t.expire, t.addr, t, t.cb_func)
  }

  ghost function ViewOf(s: seq<HeapTimer>): (h: seq<HeapEntry<HeapTimer>>)
    reads s
    ensures |h| == |s| && forall i :: 0 <= i < |s| ==> h[i] == ViewOne(s[i])
  {
    seq(|s|, i requires 0 <= i < |s| reads s => ViewOne(s[i]))
  }

  /** Where std::set puts a new element. */
  function SetPlace(s: seq<HeapTimer>, t: HeapTimer): (p: nat)
    ensures p <= |s|
    ensures forall i :: 0 <= i < p ==> Less(s[i], t)
    ensures p < |s| ==> !Less(s[p], t)
  {
    if s == [] || !Less(s[0], t) then 0 else 1 + SetPlace(s[1..], t)
  }

  lemma {:induction false} HeapPlaceUnique<T>(h: seq<HeapEntry<T>>, x: HeapEntry<T>, p: nat)
    requires p <= |h| && forall i :: 0 <= i < p ==> KeyLess(h[i], x)
    requires p < |h| ==> !KeyLess(h[p], x)
    ensures HeapPlace(h, x) == p
  {
    if p > 0 {
      HeapPlaceUnique(h[1..], x, p - 1);
    }
  }

  lemma {:induction false} HeapExpiredUnique<T>(h: seq<HeapEntry<T>>, now: int, p: nat)
    requires p <= |h| && forall i :: 0 <= i < p ==> h[i].expire <= now
    requires p < |h| ==> now < h[p].expire
    ensures HeapExpired(h, now) == p
  {
    if p > 0 {
      HeapExpiredUnique(h[1..], now, p - 1);
    }
  }

  /** The user data handed to the callbacks. */
  function Users(s: seq<Entry<HeapTimer>>): (r: seq<int>)
    ensures |r| == |s| && forall i :: 0 <= i < |s| ==> r[i] == s[i].item.user_data
  {
    seq(|s|, i requires 0 <= i < |s| => s[i].item.user_data)
  }

  ghost predicate Ordered(s: seq<HeapTimer>) {
    forall i, j :: 0 <= i < j < |s| ==> Less(s[i], s[j])
  }

  /** std::set::insert: nothing happens if an equivalent element is there. */
  function SetInsert(s: seq<HeapTimer>, t: HeapTimer): seq<HeapTimer> {
    var p := SetPlace(s, t);
    if p < |s| && !Less(t, s[p]) then s else s[..p] + [t] + s[p..]
  }

  lemma SetInsertOrdered(s: seq<HeapTimer>, t: HeapTimer)
    requires Ordered(s)
    ensures Ordered(SetInsert(s, t))
  {
    var p := SetPlace(s, t);
    if p < |s| && Less(t, s[p]) {
      assert forall i :: p < i < |s| ==> Less(s[p], s[i]);
    }
  }

  lemma SetInsertView(s: seq<HeapTimer>, t: HeapTimer)
    ensures ViewOf(SetInsert(s, t)) == HeapInsert(ViewOf(s), ViewOne(t))
  {
    var p, h, x := SetPlace(s, t), ViewOf(s), ViewOne(t);
    HeapPlaceUnique(h, x, p);
    if p == |s| || Less(t, s[p]) {
      var s', h' := s[..p] + [t] + s[p..], h[..p] + [x] + h[p..];
      forall i | 0 <= i < |s'|
        ensures h'[i] == ViewOne(s'[i])
      {
        if i < p {
          assert h'[i] == h[i] && s'[i] == s[i];
        } else if i > p {
          assert h'[i] == h[i - 1] && s'[i] == s[i - 1];
        }
      }
      assert ViewOf(s') == h';
    }
  }

  lemma ExpiredView(s: seq<HeapTimer>, now: int, p: nat)
    requires p <= |s| && forall i :: 0 <= i < p ==> s[i].expire <= now
    requires p < |s| ==> now < s[p].expire
    ensures HeapExpired(ViewOf(s), now) == p
    ensures ViewOf(s[p..]) == ViewOf(s)[p..]
  {
    HeapExpiredUnique(ViewOf(s), now, p);
    assert ViewOf(s[p..]) == ViewOf(s)[p..];
  }

  lemma RanStep(h: seq<HeapEntry<HeapTimer>>, p: nat)
    requires p < |h|
    ensures Users(Live(h[..p + 1])) == Users(Live(h[..p])) + (if h[p].live then [h[p].item.user_data] else [])
  {
    LivePrefix(h, p);
    LivePrefix(h, p + 1);
  }

  class TimeHeap {
    var timers: seq<HeapTimer>

    ghost function View(): seq<HeapEntry<HeapTimer>>
      reads this, timers
    {
      ViewOf(timers)
    }

    /** The set is strictly ascending in the order of the comparator. */
    ghost predicate Valid()
      reads this
    {
      Ordered(timers)
    }

    constructor ()
      ensures Valid() && timers == []
    {
      timers := [];
    }

    method AddTimer(timer: HeapTimer?)
      requires Valid()
      modifies this
      ensures Valid()
      ensures View() == if timer == null then old(View()) else HeapInsert(old(View()), ViewOne(timer))
    {
      if timer == null {
        return;
      }
      SetInsertOrdered(timers, timer);
      SetInsertView(timers, timer);
      timers := SetInsert(timers, timer);
    }

    /** The timer stays in the set and loses its callback. */
    method DelTimer(timer: HeapTimer?)
      requires Valid()
      modifies if timer == null then {} else {timer}
      ensures timers == old(timers)
      ensures View() == if timer == null then old(View()) else HeapCancel(old(View()), timer)
    {
      if timer == null {
        return;
      }
      ghost var h := HeapCancel(View(), timer);
      timer.cb_func := false;
      assert ViewOf(timers) == h;
    }

    method Top() returns (t: HeapTimer?)
      requires Valid()
      ensures t == null <==> timers == []
      ensures t != null ==> t in timers && forall u :: u in timers ==>
                u == t || t.expire < u.expire || (t.expire == u.expire && t.addr < u.addr)
    {
      if timers == [] {
        return null;
      }
      t := timers[0];
    }

    method PopTimer()
      requires Valid()
      modifies this
      ensures Valid() && timers == if old(timers) == [] then [] else old(timers)[1..]
    {
      if timers == [] {
        return;
      }
      timers := timers[1..];
    }

    /** Takes the expired timers out of the set from the front and runs the callbacks that are left. */
    method Tick(now: int) returns (ran: seq<int>)
      requires Valid()
      modifies this
      ensures Valid()
      ensures View() == old(View())[HeapExpired(old(View()), now)..]
      ensures ran == Users(Live(old(View())[..HeapExpired(old(View()), now)]))
    {
      ghost var s, h := timers, View();
      ghost var p := 0;
      ran := [];
      while timers != []
        invariant 0 <= p <= |s| && timers == s[p..] && Valid()
        invariant forall i :: 0 <= i < p ==> s[i].expire <= now
        invariant ran == Users(Live(h[..p]))
        decreases |timers|
      {
        var t := timers[0];
        assert t == s[p] && h[p] == ViewOne(t);
        if t.expire > now {
          break;
        }
        RanStep(h, p);
        if t.cb_func {
          ran := ran + [t.user_data];
        }
        PopTimer();
        p := p + 1;
      }
      ExpiredView(s, now, p);
    }
  }
}
