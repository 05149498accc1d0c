/** The operations of code_3_8.cpp as one thread sees them, on the mutex objects themselves: another
    thread never writes a mutex that this one owns (HierarchicalMutex proves it of every interleaving),
    so between two operations nothing that `Valid` mentions changes. */
module HierarchicalLocks {
  import Protocol = HierarchicalMutex

  class ThreadLocal {
    var this_thread_hierarchy_value: nat
    ghost var held: seq<HierarchicalMutex>  // in acquisition order

    constructor ()
      ensures Valid() && held == [] && this_thread_hierarchy_value == Protocol.ULONG_MAX
    {
      this_thread_hierarchy_value, held := Protocol.ULONG_MAX, [];
    }

    /** The level with just the first k mutexes held. */
    ghost function LevelWith(k: nat): nat
      requires k <= |held|
      reads this`held
    {
      if k == 0 then Protocol.ULONG_MAX else held[k - 1].hierarchy_value
    }

    /** The k-th mutex is this thread's, lies below the ones before it and remembers the level. */
    ghost predicate Rung(k: nat)
      requires k < |held|
      reads this`held, held
    {
      && held[k].owner == this
      && held[k].hierarchy_value < LevelWith(k)
      && held[k].previous_hierarchy_value == LevelWith(k)
    }

    ghost predicate Valid()
      reads this, held
    {
      && this_thread_hierarchy_value == LevelWith(|held|)
      && forall k :: 0 <= k < |held| ==> Rung(k)
    }

    lemma {:induction false} Descending(j: nat, k: nat)
      requires Valid() && j < k < |held|
      ensures held[k].hierarchy_value < held[j].hierarchy_value
    {
      assert Rung(k);
      if j < k - 1 {
        Descending(j, k - 1);
      }
    }

    /** The level is below that of every mutex held but the last. */
    lemma LastIsLowest(m: HierarchicalMutex)
      requires Valid() && m in held
      ensures this_thread_hierarchy_value <= m.hierarchy_value
      ensures this_thread_hierarchy_value == m.hierarchy_value <==> m == held[|held| - 1]
    {
      var j :| 0 <= j < |held| && held[j] == m;
      if j < |held| - 1 {
        Descending(j, |held| - 1);
      }
    }
  }

  datatype Outcome = Threw | Asleep | Taken

  class HierarchicalMutex {
    const hierarchy_value: nat
    var previous_hierarchy_value: nat
    var owner: ThreadLocal?  // of internal_mutex

    constructor (value: nat)
      ensures hierarchy_value == value && owner == null && previous_hierarchy_value == 0
    {
      hierarchy_value, previous_hierarchy_value, owner := value, 0, null;
    }

    method Update(me: ThreadLocal)
      modifies this, me
      ensures previous_hierarchy_value == old(me.this_thread_hierarchy_value)
      ensures me.this_thread_hierarchy_value == hierarchy_value
      ensures owner == old(owner) && me.held == old(me.held)
    {
      previous_hierarchy_value := me.this_thread_hierarchy_value;
      me.this_thread_hierarchy_value := hierarchy_value;
    }

    /** Any call of `lock`. The thread falls asleep in it when another thread owns the mutex; its own
        mutexes never pass the check. */
    method Lock(me: ThreadLocal) returns (outcome: Outcome)
      requires me.Valid() && (owner == me ==> this in me.held)
      modifies this, me
      ensures me.Valid()
      ensures outcome == Threw <==> old(me.this_thread_hierarchy_value) <= hierarchy_value
      ensures outcome == Asleep <==> old(me.this_thread_hierarchy_value) > hierarchy_value && old(owner) != null
      ensures outcome != Taken ==> unchanged(this) && unchanged(me)
      ensures outcome == Taken ==> owner == me && me.held == old(me.held) + [this]
      ensures outcome == Taken ==> previous_hierarchy_value == old(me.this_thread_hierarchy_value)
      ensures old(this in me.held) ==> outcome == Threw
      ensures outcome == Asleep ==> owner != me
    {
      if this in me.held {
        me.LastIsLowest(this);
      }
      if me.this_thread_hierarchy_value <= hierarchy_value {
        return Threw;
      }
      if owner != null {
        return Asleep;
      }
      Take(me);
      outcome := Taken;
    }

    /** Past the check and with the mutex free. */
    method Take(me: ThreadLocal)
      requires me.Valid() && owner == null && hierarchy_value < me.this_thread_hierarchy_value
      modifies this, me
      ensures me.Valid()
      ensures owner == me && me.held == old(me.held) + [this]
      ensures previous_hierarchy_value == old(me.this_thread_hierarchy_value)
    {
      forall k | 0 <= k < |me.held|
        ensures me.held[k] != this
      {
        assert me.Rung(k);
      }
      owner := me;
      Update(me);
      me.held := me.held + [this];
      forall k | 0 <= k < |me.held|
        ensures me.Rung(k)
      {
        assert k < |me.held| - 1 ==> old(me.Rung(k));
      }
    }

    /** `try_lock` does not wait: it refuses a mutex that is owned. */
    method TryLock(me: ThreadLocal) returns (threw: bool, taken: bool)
      requires me.Valid()
      modifies this, me
      ensures me.Valid()
      ensures threw <==> old(me.this_thread_hierarchy_value) <= hierarchy_value
      ensures taken <==> !threw && old(owner) == null
      ensures !taken ==> unchanged(this) && unchanged(me)
      ensures taken ==> owner == me && me.held == old(me.held) + [this]
      ensures taken ==> previous_hierarchy_value == old(me.this_thread_hierarchy_value)
    {
      threw := me.this_thread_hierarchy_value <= hierarchy_value;
      taken := !threw && owner == null;
      if taken {
        Take(me);
      }
    }

    /** `unlock` of a held mutex throws exactly when it is not the last one taken; otherwise the thread
        is back at the level it had before taking it. */
    method Unlock(me: ThreadLocal) returns (threw: bool)
      requires me.Valid() && this in me.held
      modifies this, me
      ensures me.Valid()
      ensures threw <==> old(me.held)[|old(me.held)| - 1] != this
      ensures threw ==> unchanged(this) && unchanged(me)
      ensures !threw ==> owner == null && me.held == old(me.held)[..|old(me.held)| - 1]
      ensures !threw ==> previous_hierarchy_value == old(previous_hierarchy_value) == me.this_thread_hierarchy_value
      ensures me.held == [] ==> me.this_thread_hierarchy_value == Protocol.ULONG_MAX
    {
      me.LastIsLowest(this);
      threw := me.this_thread_hierarchy_value != hierarchy_value;
      if !threw {
        Drop(me);
      }
    }

    method Drop(me: ThreadLocal)
      requires me.Valid() && me.held != [] && me.held[|me.held| - 1] == this
      modifies this, me
      ensures me.Valid() && owner == null && me.held == old(me.held)[..|old(me.held)| - 1]
      ensures previous_hierarchy_value == old(previous_hierarchy_value) == me.this_thread_hierarchy_value
    {
      ghost var last := |me.held| - 1;
      assert me.Rung(last);
      forall k | 0 <= k < last
        ensures me.held[k] != this
      {
        me.Descending(k, last);
      }
      me.this_thread_hierarchy_value := previous_hierarchy_value;
      owner := null;
      me.held := me.held[..last];
      forall k | 0 <= k < last
        ensures me.Rung(k)
      {
        assert old(me.Rung(k));
      }
    }
  }
}
