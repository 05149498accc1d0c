/** The hierarchical mutex of code_3_8.cpp as interleaved steps of any number of threads on any
    number of mutexes. `lock` and `unlock` are not atomic: the check, the acquisition and the two
    assignments of the level are separate steps, and so are the comparison, the restoring
    assignment and the release. */
module HierarchicalMutex {
  import opened Sequences

  type Thread = nat
  type Mutex = nat

  const ULONG_MAX := 0xFFFF_FFFF_FFFF_FFFF

  /** The threads, and the mutexes with their constant hierarchy values. */
  datatype Config = Config(threads: set<Thread>, hierarchy: map<Mutex, nat>)

  ghost predicate Sane(c: Config) {
    forall m :: m in c.hierarchy ==> c.hierarchy[m] <= ULONG_MAX
  }

  /** Where a thread stands inside `lock`, `try_lock` or `unlock`. */
  datatype Phase =
    | Outside
    | Checked(m: Mutex, try: bool)  // passed the check, about to acquire
    | Acquired(m: Mutex)            // owns the internal mutex, level not saved yet
    | Saved(m: Mutex)               // level saved, not lowered yet
    | Compared(m: Mutex)            // `unlock` passed its comparison
    | Restored(m: Mutex)            // level restored, internal mutex not released yet

  /** `held` lists what each thread owns in acquisition order; the program has no such list. */
  datatype State = State(
    level: map<Thread, nat>,
    previous: map<Mutex, nat>,
    owner: map<Mutex, Option<Thread>>,
    phase: map<Thread, Phase>,
    held: map<Thread, seq<Mutex>>)

  datatype Action =
    | Check(t: Thread, m: Mutex, try: bool)
    | Acquire(t: Thread)
    | Refuse(t: Thread)
    | Save(t: Thread)
    | Lower(t: Thread)
    | Compare(t: Thread, m: Mutex)
    | Restore(t: Thread)
    | Release(t: Thread)

  ghost predicate Shaped(c: Config, s: State) {
    && s.level.Keys == s.phase.Keys == s.held.Keys == c.threads
    && s.previous.Keys == s.owner.Keys == c.hierarchy.Keys
    && forall t :: t in c.threads ==> (s.phase[t].Outside? || s.phase[t].m in c.hierarchy)
  }

  ghost function Init(c: Config): State {
    State(map t | t in c.threads :: ULONG_MAX,
          map m | m in c.hierarchy :: 0,
          map m | m in c.hierarchy :: None,
          map t | t in c.threads :: Outside,
          map t | t in c.threads :: [])
  }

  /** A thread starts an operation only when it is outside the others; only the owner unlocks;
      a mutex is acquired when nobody owns it, and `try_lock` may give up. */
  ghost predicate Enabled(c: Config, s: State, a: Action)
    requires Shaped(c, s)
  {
    && a.t in c.threads
    && match a {
         case Check(t, m, _) => s.phase[t].Outside? && m in c.hierarchy
         case Acquire(t) => s.phase[t].Checked? && s.owner[s.phase[t].m] == None
         case Refuse(t) => s.phase[t].Checked? && s.phase[t].try
         case Save(t) => s.phase[t].Acquired?
         case Lower(t) => s.phase[t].Saved?
         case Compare(t, m) => s.phase[t].Outside? && m in c.hierarchy && s.owner[m] == Some(t)
         case Restore(t) => s.phase[t].Compared?
         case Release(t) => s.phase[t].Restored?
       }
  }

  function Without(ms: seq<Mutex>, m: Mutex): seq<Mutex> {
    if ms == [] then [] else if ms[0] == m then Without(ms[1..], m) else [ms[0]] + Without(ms[1..], m)
  }

  /** A throw leaves the state as it was. */
  ghost function Apply(c: Config, s: State, a: Action): State
    requires Shaped(c, s) && Enabled(c, s, a)
  {
    var t := a.t;
    match a {
      case Check(_, m, try) =>
        if s.level[t] <= c.hierarchy[m] then s else s.(phase := s.phase[t := Checked(m, try)])
      case Acquire(_) =>
        var m := s.phase[t].m;
        s.(owner := s.owner[m := Some(t)], phase := s.phase[t := Acquired(m)], held := s.held[t := s.held[t] + [m]])
      case Refuse(_) =>
        s.(phase := s.phase[t := Outside])
      case Save(_) =>
        var m := s.phase[t].m;
        s.(previous := s.previous[m := s.level[t]], phase := s.phase[t := Saved(m)])
      case Lower(_) =>
        s.(level := s.level[t := c.hierarchy[s.phase[t].m]], phase := s.phase[t := Outside])
      case Compare(_, m) =>
        if s.level[t] != c.hierarchy[m] then s else s.(phase := s.phase[t := Compared(m)])
      case Restore(_) =>
        var m := s.phase[t].m;
        s.(level := s.level[t := s.previous[m]], phase := s.phase[t := Restored(m)])
      case Release(_) =>
        var m := s.phase[t].m;
        s.(owner := s.owner[m := None], phase := s.phase[t := Outside], held := s.held[t := Without(s.held[t], m)])
    }
  }

  ghost predicate Follows(c: Config, before: State, a: Action, after: State) {
    Shaped(c, before) && Enabled(c, before, a) && after == Apply(c, before, a)
  }

  ghost predicate FollowsAt(c: Config, states: seq<State>, run: seq<Action>, k: nat)
    requires k < |run| < |states|
  {
    Follows(c, states[k], run[k], states[k + 1])
  }

  /** An interleaving, with the states it goes through. */
  ghost predicate IsRun(c: Config, states: seq<State>, run: seq<Action>) {
    && |states| == |run| + 1 && states[0] == Init(c)
    && forall k :: 0 <= k < |run| ==> FollowsAt(c, states, run, k)
  }

  /** Some interleaving leads to `s`. */
  ghost predicate Reachable(c: Config, s: State) {
    exists states, run :: IsRun(c, states, run) && s == states[|run|]
  }

  // ---------- the invariant ----------

  ghost predicate Known(c: Config, ms: seq<Mutex>) {
    forall i :: 0 <= i < |ms| ==> ms[i] in c.hierarchy
  }

  /** The level of a thread holding just the first `k` of `ms`. */
  ghost function LevelAt(c: Config, ms: seq<Mutex>, k: nat): nat
    requires k <= |ms| && Known(c, ms)
  {
    if k == 0 then ULONG_MAX else c.hierarchy[ms[k - 1]]
  }

  /** The `i`-th mutex taken is owned by `t` and lies below the level `t` had before taking it;
      that level is what the mutex saved, once it did. */
  ghost predicate Taken(c: Config, s: State, t: Thread, i: nat)
    requires Shaped(c, s) && t in c.threads && Known(c, s.held[t]) && i < |s.held[t]|
  {
    var ms := s.held[t];
    && s.owner[ms[i]] == Some(t)
    && c.hierarchy[ms[i]] < LevelAt(c, ms, i)
    && (i < |ms| - 1 || !s.phase[t].Acquired? ==> s.previous[ms[i]] == LevelAt(c, ms, i))
  }

  ghost predicate EndsWith(ms: seq<Mutex>, m: Mutex) {
    |ms| > 0 && ms[|ms| - 1] == m
  }

  /** `t`'s level counts the last mutex it took, except between acquiring it and lowering the
      level and between restoring the level and releasing it. */
  ghost predicate LevelInv(c: Config, s: State, t: Thread)
    requires Shaped(c, s) && t in c.threads && Known(c, s.held[t])
  {
    var ms, p := s.held[t], s.phase[t];
    && (p.Acquired? || p.Saved? || p.Compared? || p.Restored? ==> EndsWith(ms, p.m))
    && s.level[t] == LevelAt(c, ms, if p.Acquired? || p.Saved? || p.Restored? then |ms| - 1 else |ms|)
    && (p.Checked? ==> c.hierarchy[p.m] < s.level[t])
  }

  ghost predicate ThreadInv(c: Config, s: State, t: Thread)
    requires Shaped(c, s) && t in c.threads
  {
    var ms := s.held[t];
    && Known(c, ms)
    && LevelInv(c, s, t)
    && forall i :: 0 <= i < |ms| ==> Taken(c, s, t, i)
  }

  ghost predicate OwnerInv(c: Config, s: State, m: Mutex)
    requires Shaped(c, s) && m in c.hierarchy
  {
    s.owner[m].Some? ==> s.owner[m].value in c.threads && m in s.held[s.owner[m].value]
  }

  ghost predicate Inv(c: Config, s: State) {
    && Shaped(c, s)
    && (forall t :: t in c.threads ==> ThreadInv(c, s, t))
    && (forall m :: m in c.hierarchy ==> OwnerInv(c, s, m))
  }

  /** Levels strictly decrease in acquisition order. */
  lemma {:induction false} LevelsDecrease(c: Config, s: State, t: Thread, i: nat, j: nat)
    requires Shaped(c, s) && t in c.threads && ThreadInv(c, s, t) && i < j < |s.held[t]|
    ensures c.hierarchy[s.held[t][j]] < c.hierarchy[s.held[t][i]]
  {
    assert Taken(c, s, t, j);
    if i < j - 1 {
      LevelsDecrease(c, s, t, i, j - 1);
    }
  }

  /** An owned mutex is at the level of a thread that runs outside `lock` and `unlock` exactly
      when it is the one the thread took last. */
  lemma LastOwned(c: Config, s: State, t: Thread, m: Mutex)
    requires Shaped(c, s) && t in c.threads && ThreadInv(c, s, t) && s.phase[t].Outside?
    requires m in c.hierarchy && OwnerInv(c, s, m) && s.owner[m] == Some(t)
    ensures s.level[t] == c.hierarchy[m] <==> EndsWith(s.held[t], m)
  {
    assert ThreadInv(c, s, t) && OwnerInv(c, s, m);
    var ms := s.held[t];
    var i :| 0 <= i < |ms| && ms[i] == m;
    if i < |ms| - 1 {
      LevelsDecrease(c, s, t, i, |ms| - 1);
    }
  }

  lemma {:induction false} WithoutLast(ms: seq<Mutex>, m: Mutex)
    requires EndsWith(ms, m) && forall i :: 0 <= i < |ms| - 1 ==> ms[i] != m
    ensures Without(ms, m) == ms[..|ms| - 1]
  {
    if |ms| > 1 {
      WithoutLast(ms[1..], m);
      assert ms[..|ms| - 1] == [ms[0]] + ms[1..][..|ms| - 2];
    }
  }

  lemma ApplyKeepsShape(c: Config, s: State, a: Action)
    requires Shaped(c, s) && Enabled(c, s, a)
    ensures Shaped(c, Apply(c, s, a))
  {
  }

  /** A step writes the acting thread's own entries, and of the mutexes only the one in hand. */
  lemma StepFrame(c: Config, s: State, a: Action, u: Thread, m: Mutex)
    requires Shaped(c, s) && Enabled(c, s, a) && u in c.threads && u != a.t && m in c.hierarchy
    ensures var s' := Apply(c, s, a);
            && u in s'.held && u in s'.phase && u in s'.level && m in s'.owner && m in s'.previous
            && s'.held[u] == s.held[u] && s'.phase[u] == s.phase[u] && s'.level[u] == s.level[u]
            && (s'.owner[m] != s.owner[m] ==>
                  m == s.phase[a.t].m && (s.owner[m] == None || s.phase[a.t].Restored?))
            && (s'.previous[m] != s.previous[m] ==> s.phase[a.t].Acquired? && m == s.phase[a.t].m)
  {
  }

  /** What a thread owns is not written by a step of another thread. */
  lemma OwnUntouched(c: Config, s: State, a: Action, u: Thread, i: nat)
    requires Shaped(c, s) && Enabled(c, s, a) && u in c.threads && u != a.t
    requires ThreadInv(c, s, u) && ThreadInv(c, s, a.t) && i < |s.held[u]|
    ensures var s', m := Apply(c, s, a), s.held[u][i];
            && m in s.owner && m in s.previous && m in s'.owner && m in s'.previous
            && s'.owner[m] == s.owner[m] && s'.previous[m] == s.previous[m]
  {
    assert Taken(c, s, u, i);
    StepFrame(c, s, a, u, s.held[u][i]);
    if s.phase[a.t].Acquired? || s.phase[a.t].Restored? {
      assert Taken(c, s, a.t, |s.held[a.t]| - 1);
    }
  }

  /** A step of one thread leaves the others' levels, positions and mutexes as they were, and so the
      invariant on them. */
  lemma OthersKept(c: Config, s: State, a: Action, u: Thread)
    requires Shaped(c, s) && Enabled(c, s, a) && u in c.threads && u != a.t && Shaped(c, Apply(c, s, a))
    requires ThreadInv(c, s, u) && ThreadInv(c, s, a.t)
    ensures var s' := Apply(c, s, a);
            && s'.level[u] == s.level[u] && s'.phase[u] == s.phase[u] && s'.held[u] == s.held[u]
    ensures forall i :: 0 <= i < |s.held[u]| ==> SameMutex(s, Apply(c, s, a), s.held[u][i])
    ensures ThreadInv(c, Apply(c, s, a), u)
  {
    var s' := Apply(c, s, a);
    forall i | 0 <= i < |s.held[u]|
      ensures SameMutex(s, s', s.held[u][i])
    {
      OwnUntouched(c, s, a, u, i);
    }
    SameThread(c, s, s', u);
  }

  ghost predicate SameMutex(s: State, s': State, m: Mutex) {
    && m in s.owner && m in s'.owner && s'.owner[m] == s.owner[m]
    && m in s.previous && m in s'.previous && s'.previous[m] == s.previous[m]
  }

  lemma SameThread(c: Config, s: State, s': State, u: Thread)
    requires Shaped(c, s) && Shaped(c, s') && u in c.threads && ThreadInv(c, s, u)
    requires s'.level[u] == s.level[u] && s'.phase[u] == s.phase[u] && s'.held[u] == s.held[u]
    requires forall i :: 0 <= i < |s.held[u]| ==> SameMutex(s, s', s.held[u][i])
    ensures ThreadInv(c, s', u)
  {
    forall i | 0 <= i < |s.held[u]|
      ensures Taken(c, s', u, i)
    {
      assert Taken(c, s, u, i) && SameMutex(s, s', s.held[u][i]);
    }
  }

  /** Steps that leave ownership and saved values alone. */
  lemma LocalStepKept(c: Config, s: State, a: Action)
    requires Shaped(c, s) && Enabled(c, s, a) && Shaped(c, Apply(c, s, a)) && ThreadInv(c, s, a.t)
    requires a.Compare? ==> OwnerInv(c, s, a.m)
    requires a.Check? || a.Refuse? || a.Lower? || a.Compare? || a.Restore?
    ensures ThreadInv(c, Apply(c, s, a), a.t)
  {
    var t, s' := a.t, Apply(c, s, a);
    assert ThreadInv(c, s, t);
    if a.Compare? {
      LastOwned(c, s, t, a.m);
    }
    if a.Restore? {
      assert Taken(c, s, t, |s.held[t]| - 1);
    }
    forall i | 0 <= i < |s.held[t]|
      ensures Taken(c, s', t, i)
    {
      assert Taken(c, s, t, i);
    }
  }

  lemma AcquireKept(c: Config, s: State, t: Thread)
    requires Shaped(c, s) && Enabled(c, s, Acquire(t)) && Shaped(c, Apply(c, s, Acquire(t))) && ThreadInv(c, s, t)
    ensures ThreadInv(c, Apply(c, s, Acquire(t)), t)
  {
    var s' := Apply(c, s, Acquire(t));
    assert ThreadInv(c, s, t);
    var ms := s.held[t];
    assert s'.held[t] == ms + [s.phase[t].m] && Known(c, s'.held[t]);
    assert LevelAt(c, s'.held[t], |ms|) == LevelAt(c, ms, |ms|);
    forall i | 0 <= i < |ms| + 1
      ensures Taken(c, s', t, i)
    {
      if i < |ms| {
        assert Taken(c, s, t, i) && LevelAt(c, s'.held[t], i) == LevelAt(c, ms, i);
      }
    }
  }

  lemma SaveKept(c: Config, s: State, t: Thread)
    requires Shaped(c, s) && Enabled(c, s, Save(t)) && Shaped(c, Apply(c, s, Save(t))) && ThreadInv(c, s, t)
    ensures ThreadInv(c, Apply(c, s, Save(t)), t)
  {
    var s' := Apply(c, s, Save(t));
    assert ThreadInv(c, s, t);
    forall i | 0 <= i < |s.held[t]|
      ensures Taken(c, s', t, i)
    {
      assert Taken(c, s, t, i);
      if i < |s.held[t]| - 1 {
        LevelsDecrease(c, s, t, i, |s.held[t]| - 1);
      }
    }
  }

  lemma ReleaseKept(c: Config, s: State, t: Thread)
    requires Shaped(c, s) && Enabled(c, s, Release(t)) && Shaped(c, Apply(c, s, Release(t))) && ThreadInv(c, s, t)
    ensures ThreadInv(c, Apply(c, s, Release(t)), t)
  {
    var s' := Apply(c, s, Release(t));
    assert ThreadInv(c, s, t);
    var ms := s.held[t];
    ReleaseDropsLast(c, s, t);
    var ms' := s'.held[t];
    assert Known(c, ms') && LevelAt(c, ms', |ms'|) == LevelAt(c, ms, |ms'|);
    forall i | 0 <= i < |ms'|
      ensures Taken(c, s', t, i)
    {
      assert Taken(c, s, t, i) && LevelAt(c, ms', i) == LevelAt(c, ms, i);
      LevelsDecrease(c, s, t, i, |ms| - 1);
    }
  }

  lemma ReleaseDropsLast(c: Config, s: State, t: Thread)
    requires Shaped(c, s) && t in c.threads && ThreadInv(c, s, t) && s.phase[t].Restored?
    ensures |s.held[t]| > 0 && Without(s.held[t], s.phase[t].m) == s.held[t][..|s.held[t]| - 1]
  {
    LastDropped(c, s, t, s.phase[t].m);
  }

  lemma OwnersKept(c: Config, s: State, a: Action, m: Mutex)
    requires Shaped(c, s) && Enabled(c, s, a) && m in c.hierarchy && ThreadInv(c, s, a.t) && OwnerInv(c, s, m)
    requires Shaped(c, Apply(c, s, a))
    ensures OwnerInv(c, Apply(c, s, a), m)
  {
    assert ThreadInv(c, s, a.t) && OwnerInv(c, s, m);
    if a.Release? && s.owner[m] == Some(a.t) && m != s.phase[a.t].m {
      WithoutKeeps(s.held[a.t], s.phase[a.t].m, m);
    }
  }

  lemma {:induction false} WithoutKeeps(ms: seq<Mutex>, m: Mutex, x: Mutex)
    requires x in ms && x != m
    ensures x in Without(ms, m)
  {
    if ms[0] != x {
      WithoutKeeps(ms[1..], m, x);
    }
  }

  lemma StepKeepsInv(c: Config, s: State, a: Action)
    requires Sane(c) && Inv(c, s) && Enabled(c, s, a)
    ensures Inv(c, Apply(c, s, a))
  {
    var s' := Apply(c, s, a);
    ApplyKeepsShape(c, s, a);
    forall u | u in c.threads
      ensures ThreadInv(c, s', u)
    {
      if u == a.t {
        match a {
          case Acquire(_) => AcquireKept(c, s, u);
          case Save(_) => SaveKept(c, s, u);
          case Release(_) => ReleaseKept(c, s, u);
          case _ => LocalStepKept(c, s, a);
        }
      } else {
        assert ThreadInv(c, s, u) && ThreadInv(c, s, a.t);
        OthersKept(c, s, a, u);
      }
    }
    forall m | m in c.hierarchy
      ensures OwnerInv(c, s', m)
    {
      OwnersKept(c, s, a, m);
    }
  }

  lemma InitialInv(c: Config)
    ensures Inv(c, Init(c))
  {
  }

  lemma FollowingInv(c: Config, before: State, a: Action, after: State)
    requires Sane(c) && Inv(c, before) && Follows(c, before, a, after)
    ensures Inv(c, after)
  {
    StepKeepsInv(c, before, a);
  }

  lemma {:induction false} RunKeepsInv(c: Config, states: seq<State>, run: seq<Action>, k: nat)
    requires Sane(c) && IsRun(c, states, run) && k <= |run|
    ensures Inv(c, states[k])
  {
    if k == 0 {
      InitialInv(c);
    } else {
      RunKeepsInv(c, states, run, k - 1);
      assert FollowsAt(c, states, run, k - 1);
      FollowingInv(c, states[k - 1], run[k - 1], states[k]);
    }
  }

  /** The invariant holds after every interleaving. */
  lemma ReachableInv(c: Config, s: State)
    requires Sane(c) && Reachable(c, s)
    ensures Inv(c, s)
  {
    var states, run :| IsRun(c, states, run) && s == states[|run|];
    RunKeepsInv(c, states, run, |run|);
  }

  // ---------- no deadlock ----------

  /** `t` sleeps in `internal_mutex.lock()` on a mutex that `u` owns. */
  ghost predicate WaitsFor(c: Config, s: State, t: Thread, u: Thread)
    requires Shaped(c, s)
  {
    && t in c.threads && s.phase[t].Checked? && !s.phase[t].try
    && s.owner[s.phase[t].m] == Some(u)
  }

  ghost predicate Blocked(c: Config, s: State, t: Thread)
    requires Shaped(c, s)
  {
    exists u :: WaitsFor(c, s, t, u)
  }

  /** Each thread of `chain` waits for the next one. */
  ghost predicate WaitChain(c: Config, s: State, chain: seq<Thread>)
    requires Shaped(c, s)
  {
    |chain| > 0 && forall i, j :: 0 <= i && j == i + 1 && j < |chain| ==> WaitsFor(c, s, chain[i], chain[j])
  }

  /** The thread waited for waits itself, if at all, for a mutex of strictly lower level. */
  lemma WaitsDescend(c: Config, s: State, t: Thread, u: Thread)
    requires Inv(c, s) && WaitsFor(c, s, t, u)
    ensures u in c.threads && s.held[u] != []
    ensures s.phase[u].Checked? ==> c.hierarchy[s.phase[u].m] < c.hierarchy[s.phase[t].m]
  {
    var m := s.phase[t].m;
    assert OwnerInv(c, s, m) && ThreadInv(c, s, u);
    var i :| 0 <= i < |s.held[u]| && s.held[u][i] == m;
    if i < |s.held[u]| - 1 {
      LevelsDecrease(c, s, u, i, |s.held[u]| - 1);
    }
  }

  lemma {:induction false} ChainDescends(c: Config, s: State, chain: seq<Thread>)
    requires Inv(c, s) && WaitChain(c, s, chain) && |chain| >= 2
    ensures chain[0] in c.threads && s.phase[chain[0]].Checked?
    ensures chain[|chain| - 1] in c.threads
    ensures var last := s.phase[chain[|chain| - 1]];
            last.Checked? ==> c.hierarchy[last.m] < c.hierarchy[s.phase[chain[0]].m]
    decreases |chain|
  {
    assert WaitsFor(c, s, chain[0], chain[1]);
    WaitsDescend(c, s, chain[0], chain[1]);
    if |chain| > 2 {
      ChainDescends(c, s, chain[1..]);
    }
  }

  /** No interleaving leads to threads that wait for each other in a circle. */
  lemma WaitForIsAcyclic(c: Config, s: State, chain: seq<Thread>)
    requires Sane(c) && Reachable(c, s)
    requires Shaped(c, s) && WaitChain(c, s, chain) && |chain| >= 2
    ensures chain[0] != chain[|chain| - 1]
  {
    ReachableInv(c, s);
    ChainDescends(c, s, chain);
  }

  lemma {:induction false} ChainToRunning(c: Config, s: State, t: Thread) returns (chain: seq<Thread>)
    requires Inv(c, s) && Blocked(c, s, t)
    ensures WaitChain(c, s, chain) && chain[0] == t
    ensures var u := chain[|chain| - 1]; u in c.threads && s.held[u] != [] && !Blocked(c, s, u)
    decreases c.hierarchy[s.phase[t].m]
  {
    var u :| WaitsFor(c, s, t, u);
    WaitsDescend(c, s, t, u);
    if Blocked(c, s, u) {
      var rest := ChainToRunning(c, s, u);
      chain := [t] + rest;
      assert forall i, j :: 0 < i && j == i + 1 && j < |chain| ==> chain[i] == rest[i - 1] && chain[j] == rest[j - 1];
    } else {
      chain := [t, u];
    }
  }

  /** A thread that is not asleep and holds something can take a step that changes the state. */
  lemma RunningCanStep(c: Config, s: State, u: Thread) returns (a: Action)
    requires Inv(c, s) && u in c.threads && s.held[u] != [] && !Blocked(c, s, u)
    ensures a.t == u && Enabled(c, s, a) && Apply(c, s, a) != s
  {
    assert ThreadInv(c, s, u);
    var last := |s.held[u]| - 1;
    assert Taken(c, s, u, last);
    match s.phase[u] {
      case Outside =>
        a := Compare(u, s.held[u][last]);
        assert Apply(c, s, a).phase[u] == Compared(s.held[u][last]);
      case Checked(m, try) =>
        if s.owner[m].Some? && !try {
          assert WaitsFor(c, s, u, s.owner[m].value);
        }
        a := if try then Refuse(u) else Acquire(u);
        assert Apply(c, s, a).phase[u] != s.phase[u];
      case Acquired(m) =>
        a := Save(u);
        assert Apply(c, s, a).phase[u] == Saved(m);
      case Saved(_) =>
        a := Lower(u);
        assert Apply(c, s, a).phase[u] == Outside;
      case Compared(m) =>
        a := Restore(u);
        assert Apply(c, s, a).phase[u] == Restored(m);
      case Restored(_) =>
        a := Release(u);
        assert Apply(c, s, a).phase[u] == Outside;
    }
  }

  /** After any interleaving, following the waits from a sleeping thread leads to a thread that
      holds a mutex, is not asleep and can step: there is no deadlock. */
  lemma NoDeadlock(c: Config, s: State, t: Thread) returns (chain: seq<Thread>, a: Action)
    requires Sane(c) && Reachable(c, s) && Shaped(c, s) && Blocked(c, s, t)
    ensures WaitChain(c, s, chain) && chain[0] == t
    ensures var u := chain[|chain| - 1];
            && u in c.threads && s.held[u] != [] && !Blocked(c, s, u)
            && a.t == u && Enabled(c, s, a) && Apply(c, s, a) != s
  {
    ReachableInv(c, s);
    chain := ChainToRunning(c, s, t);
    a := RunningCanStep(c, s, chain[|chain| - 1]);
  }

  // ---------- the order of locking and unlocking ----------

  /** Two threads never own the same mutex. */
  lemma MutualExclusion(c: Config, s: State, t: Thread, u: Thread, m: Mutex)
    requires Sane(c) && Reachable(c, s)
    requires t in s.held && u in s.held && m in s.held[t] && m in s.held[u]
    ensures t == u
  {
    ReachableInv(c, s);
    assert ThreadInv(c, s, t) && ThreadInv(c, s, u);
    var i :| 0 <= i < |s.held[t]| && s.held[t][i] == m;
    var j :| 0 <= j < |s.held[u]| && s.held[u][j] == m;
    assert Taken(c, s, t, i) && Taken(c, s, u, j);
  }

  /** In acquisition order, the levels of what a thread holds strictly decrease, and the saved
      values, once saved, lead back through them to ULONG_MAX, whatever other threads did. */
  lemma HeldMutexesChain(c: Config, s: State, t: Thread, i: nat)
    requires Sane(c) && Reachable(c, s) && t in s.held && i < |s.held[t]|
    ensures t in s.phase && s.held[t][i] in c.hierarchy && s.held[t][i] in s.previous
    ensures forall j :: 0 <= j < i ==> s.held[t][j] in c.hierarchy
                                       && c.hierarchy[s.held[t][i]] < c.hierarchy[s.held[t][j]]
    ensures i < |s.held[t]| - 1 || !s.phase[t].Acquired? ==>
              s.previous[s.held[t][i]] == if i == 0 then ULONG_MAX else c.hierarchy[s.held[t][i - 1]]
  {
    ReachableInv(c, s);
    assert ThreadInv(c, s, t) && Taken(c, s, t, i);
    forall j | 0 <= j < i
      ensures c.hierarchy[s.held[t][i]] < c.hierarchy[s.held[t][j]]
    {
      LevelsDecrease(c, s, t, j, i);
    }
  }

  /** Outside `lock` and `unlock`, a thread's level is the lowest it holds. */
  lemma LevelIsLowest(c: Config, s: State, t: Thread)
    requires Sane(c) && Inv(c, s) && t in c.threads && s.phase[t].Outside?
    ensures s.level[t] <= ULONG_MAX && (s.held[t] == [] ==> s.level[t] == ULONG_MAX)
    ensures s.held[t] != [] ==> exists x :: x in s.held[t] && x in c.hierarchy && c.hierarchy[x] == s.level[t]
    ensures forall x :: x in s.held[t] ==> x in c.hierarchy && s.level[t] <= c.hierarchy[x]
  {
    assert ThreadInv(c, s, t);
    var ms := s.held[t];
    if ms != [] {
      assert ms[|ms| - 1] in ms;
    }
    forall x | x in ms
      ensures x in c.hierarchy && s.level[t] <= c.hierarchy[x]
    {
      var i :| 0 <= i < |ms| && ms[i] == x;
      if i < |ms| - 1 {
        LevelsDecrease(c, s, t, i, |ms| - 1);
      }
    }
  }

  /** `lock` throws exactly when the mutex is not below everything the thread holds; so a second
      `lock` of a held mutex throws too. */
  lemma LockThrows(c: Config, s: State, t: Thread, m: Mutex, try: bool)
    requires Sane(c) && Reachable(c, s)
    requires Shaped(c, s) && Enabled(c, s, Check(t, m, try))
    ensures Apply(c, s, Check(t, m, try)) == s <==>
              c.hierarchy[m] == ULONG_MAX
              || exists x :: x in s.held[t] && x in c.hierarchy && c.hierarchy[x] <= c.hierarchy[m]
  {
    ReachableInv(c, s);
    LevelIsLowest(c, s, t);
    if s.level[t] > c.hierarchy[m] {
      assert Apply(c, s, Check(t, m, try)).phase[t] == Checked(m, try);
    }
  }

  /** `unlock` of an owned mutex throws exactly when it is not the one taken last. */
  lemma UnlockThrows(c: Config, s: State, t: Thread, m: Mutex)
    requires Sane(c) && Reachable(c, s)
    requires Shaped(c, s) && Enabled(c, s, Compare(t, m))
    ensures Apply(c, s, Compare(t, m)) == s <==> !EndsWith(s.held[t], m)
  {
    ReachableInv(c, s);
    LastOwned(c, s, t, m);
    if s.level[t] == c.hierarchy[m] {
      assert Apply(c, s, Compare(t, m)).phase[t] == Compared(m);
    }
  }

  /** Unlocking restores the level the thread had before it took the mutex, and a thread that has
      released everything is back at the initial level. */
  lemma UnlockRestores(c: Config, s: State, t: Thread)
    requires Sane(c) && Reachable(c, s) && t in c.threads
    requires Shaped(c, s)
    ensures s.phase[t].Restored? ==>
              && Enabled(c, s, Release(t))
              && EndsWith(s.held[t], s.phase[t].m)
              && Apply(c, s, Release(t)).held[t] == s.held[t][..|s.held[t]| - 1]
              && Known(c, s.held[t]) && s.level[t] == LevelAt(c, s.held[t], |s.held[t]| - 1)
    ensures s.phase[t].Outside? && s.held[t] == [] ==> s.level[t] == ULONG_MAX
  {
    ReachableInv(c, s);
    assert ThreadInv(c, s, t);
    if s.phase[t].Restored? {
      ReleaseDropsLast(c, s, t);
    }
  }

  // ---------- whole calls ----------

  /** `acts`, one after the other with nothing in between, lead from `s` to `s'`. */
  ghost predicate LeadsTo(c: Config, s: State, acts: seq<Action>, s': State)
    decreases |acts|
  {
    if acts == [] then s' == s
    else Shaped(c, s) && Enabled(c, s, acts[0]) && LeadsTo(c, Apply(c, s, acts[0]), acts[1..], s')
  }

  lemma OneMoreAct(c: Config, s: State, a: Action, acts: seq<Action>, s': State)
    requires Shaped(c, s) && Enabled(c, s, a) && LeadsTo(c, Apply(c, s, a), acts, s')
    ensures LeadsTo(c, s, [a] + acts, s')
  {
    assert ([a] + acts)[1..] == acts;
  }

  /** The thread owns the mutex as its last one, at its level, and the mutex remembers the level before. */
  function Holding(c: Config, s: State, t: Thread, m: Mutex): State
    requires t in s.level && t in s.held && m in c.hierarchy
  {
    s.(level := s.level[t := c.hierarchy[m]],
       previous := s.previous[m := s.level[t]],
       owner := s.owner[m := Some(t)],
       phase := s.phase[t := Outside],
       held := s.held[t := s.held[t] + [m]])
  }

  /** Past the check, a free mutex is taken by the thread's own steps. */
  lemma TakesFree(c: Config, s: State, t: Thread, m: Mutex, try: bool)
    requires Shaped(c, s) && t in c.threads && s.phase[t] == Checked(m, try) && s.owner[m] == None
    ensures LeadsTo(c, s, [Acquire(t), Save(t), Lower(t)], Holding(c, s, t, m))
  {
    var s1 := Apply(c, s, Acquire(t));
    ApplyKeepsShape(c, s, Acquire(t));
    var s2 := Apply(c, s1, Save(t));
    ApplyKeepsShape(c, s1, Save(t));
    var s3 := Apply(c, s2, Lower(t));
    TakenState(c, s, t, m, try);
    OneMoreAct(c, s2, Lower(t), [], s3);
    OneMoreAct(c, s1, Save(t), [Lower(t)], s3);
    OneMoreAct(c, s, Acquire(t), [Save(t), Lower(t)], s3);
    assert [Acquire(t)] + [Save(t), Lower(t)] == [Acquire(t), Save(t), Lower(t)] && [Save(t)] + [Lower(t)] == [Save(t), Lower(t)];
    assert [Lower(t)] + [] == [Lower(t)];
  }

  lemma TakenState(c: Config, s: State, t: Thread, m: Mutex, try: bool)
    requires Shaped(c, s) && t in c.threads && s.phase[t] == Checked(m, try) && s.owner[m] == None
    ensures var s1 := Apply(c, s, Acquire(t));
            && Shaped(c, s1) && Enabled(c, s1, Save(t))
            && var s2 := Apply(c, s1, Save(t));
               Shaped(c, s2) && Enabled(c, s2, Lower(t)) && Apply(c, s2, Lower(t)) == Holding(c, s, t, m)
  {
    var s1 := Apply(c, s, Acquire(t));
    assert s1.phase[t] == Acquired(m);
    ApplyKeepsShape(c, s, Acquire(t));
    var s2 := Apply(c, s1, Save(t));
    assert s2.phase[t] == Saved(m);
    ApplyKeepsShape(c, s1, Save(t));
    var s3 := Apply(c, s2, Lower(t));
    assert s3.phase == s.phase[t := Outside];
  }

  /** `lock`, or `try_lock`, of a free mutex below the thread's level takes it, in four steps. */
  lemma LockTakesFree(c: Config, s: State, t: Thread, m: Mutex, try: bool)
    requires Shaped(c, s) && t in c.threads && s.phase[t] == Outside
    requires m in c.hierarchy && c.hierarchy[m] < s.level[t] && s.owner[m] == None
    ensures LeadsTo(c, s, [Check(t, m, try), Acquire(t), Save(t), Lower(t)], Holding(c, s, t, m))
  {
    var s1 := Apply(c, s, Check(t, m, try));
    assert s1.phase[t] == Checked(m, try);
    ApplyKeepsShape(c, s, Check(t, m, try));
    TakesFree(c, s1, t, m, try);
    assert s1.phase[t := Outside] == s.phase[t := Outside];
    OneMoreAct(c, s, Check(t, m, try), [Acquire(t), Save(t), Lower(t)], Holding(c, s1, t, m));
    assert [Check(t, m, try)] + [Acquire(t), Save(t), Lower(t)] == [Check(t, m, try), Acquire(t), Save(t), Lower(t)];
  }

  /** A thread that is past the check of `lock` has no step but acquiring the mutex, and not even that
      while somebody owns it: then it sleeps. */
  lemma LockSleeps(c: Config, s: State, t: Thread, m: Mutex)
    requires Shaped(c, s) && t in c.threads && s.phase[t] == Checked(m, false)
    ensures Blocked(c, s, t) <==> s.owner[m] != None
    ensures forall a: Action :: a.t == t && Enabled(c, s, a) ==> a == Acquire(t) && s.owner[m] == None
    ensures s.owner[m] == None ==> Enabled(c, s, Acquire(t))
  {
    if s.owner[m] != None {
      assert WaitsFor(c, s, t, s.owner[m].value);
    }
  }

  /** And another thread's step, unless it releases that mutex, leaves it asleep. */
  lemma SleepsOn(c: Config, s: State, t: Thread, m: Mutex, a: Action)
    requires Shaped(c, s) && t in c.threads && s.phase[t] == Checked(m, false) && s.owner[m] != None
    requires a.t != t && Enabled(c, s, a) && !(a.Release? && s.phase[a.t].m == m)
    ensures Shaped(c, Apply(c, s, a)) && Blocked(c, Apply(c, s, a), t)
  {
    var s' := Apply(c, s, a);
    ApplyKeepsShape(c, s, a);
    StepFrame(c, s, a, t, m);
    assert s'.phase[t] == Checked(m, false);
    assert WaitsFor(c, s', t, s'.owner[m].value);
  }

  /** `lock` of a mutex below the thread's level that somebody owns: it is somebody else, and the thread
      falls asleep. */
  lemma LockOfOwned(c: Config, s: State, t: Thread, m: Mutex)
    requires Sane(c) && Reachable(c, s) && Shaped(c, s) && t in c.threads && s.phase[t] == Outside
    requires m in c.hierarchy && c.hierarchy[m] < s.level[t] && s.owner[m] != None
    ensures s.owner[m] != Some(t)
    ensures var s' := s.(phase := s.phase[t := Checked(m, false)]);
            LeadsTo(c, s, [Check(t, m, false)], s') && Shaped(c, s') && Blocked(c, s', t)
  {
    ReachableInv(c, s);
    LevelIsLowest(c, s, t);
    assert OwnerInv(c, s, m);
    var s' := Apply(c, s, Check(t, m, false));
    ApplyKeepsShape(c, s, Check(t, m, false));
    LockSleeps(c, s', t, m);
    OneMoreAct(c, s, Check(t, m, false), [], s');
    assert [Check(t, m, false)] + [] == [Check(t, m, false)];
  }

  /** `try_lock` never sleeps. Past its check the thread takes the mutex or goes back, and on a mutex that
      somebody owns it can only go back, to exactly where it was. */
  lemma TryLockReturns(c: Config, s: State, t: Thread, m: Mutex)
    requires Shaped(c, s) && t in c.threads && s.phase[t] == Outside
    requires m in c.hierarchy && c.hierarchy[m] < s.level[t]
    ensures LeadsTo(c, s, [Check(t, m, true), Refuse(t)], s)
    ensures var s1 := s.(phase := s.phase[t := Checked(m, true)]);
            && Apply(c, s, Check(t, m, true)) == s1 && Shaped(c, s1) && !Blocked(c, s1, t)
            && forall a: Action :: a.t == t && Enabled(c, s1, a) ==> a == Refuse(t) || (a == Acquire(t) && s.owner[m] == None)
  {
    var s1 := Apply(c, s, Check(t, m, true));
    assert s1.phase[t] == Checked(m, true);
    ApplyKeepsShape(c, s, Check(t, m, true));
    var s2 := Apply(c, s1, Refuse(t));
    assert s2.phase == s.phase;
    OneMoreAct(c, s1, Refuse(t), [], s2);
    OneMoreAct(c, s, Check(t, m, true), [Refuse(t)], s2);
    assert [Refuse(t)] + [] == [Refuse(t)] && [Check(t, m, true)] + [Refuse(t)] == [Check(t, m, true), Refuse(t)];
  }

  /** The thread without the mutex it took last. */
  function Freed(s: State, t: Thread, m: Mutex): State
    requires t in s.held && s.held[t] != [] && m in s.previous
  {
    s.(level := s.level[t := s.previous[m]], owner := s.owner[m := None],
       held := s.held[t := s.held[t][..|s.held[t]| - 1]])
  }

  lemma FreedState(c: Config, s: State, t: Thread, m: Mutex)
    requires Shaped(c, s) && t in c.threads && s.phase[t] == Outside && m in c.hierarchy
    requires s.owner[m] == Some(t) && s.level[t] == c.hierarchy[m]
    requires s.held[t] != [] && Without(s.held[t], m) == s.held[t][..|s.held[t]| - 1]
    ensures Enabled(c, s, Compare(t, m))
    ensures var s1 := Apply(c, s, Compare(t, m));
            && Shaped(c, s1) && Enabled(c, s1, Restore(t))
            && var s2 := Apply(c, s1, Restore(t));
               Shaped(c, s2) && Enabled(c, s2, Release(t)) && Apply(c, s2, Release(t)) == Freed(s, t, m)
  {
    var s1 := Apply(c, s, Compare(t, m));
    assert s1.phase[t] == Compared(m);
    ApplyKeepsShape(c, s, Compare(t, m));
    var s2 := Apply(c, s1, Restore(t));
    assert s2.phase[t] == Restored(m);
    ApplyKeepsShape(c, s1, Restore(t));
    assert Apply(c, s2, Release(t)).phase == s.phase;
  }

  lemma FreesOwned(c: Config, s: State, t: Thread, m: Mutex)
    requires Shaped(c, s) && t in c.threads && s.phase[t] == Outside && m in c.hierarchy
    requires s.owner[m] == Some(t) && s.level[t] == c.hierarchy[m]
    requires s.held[t] != [] && Without(s.held[t], m) == s.held[t][..|s.held[t]| - 1]
    ensures LeadsTo(c, s, [Compare(t, m), Restore(t), Release(t)], Freed(s, t, m))
  {
    FreedState(c, s, t, m);
    var s1 := Apply(c, s, Compare(t, m));
    var s2 := Apply(c, s1, Restore(t));
    var s3 := Apply(c, s2, Release(t));
    OneMoreAct(c, s2, Release(t), [], s3);
    OneMoreAct(c, s1, Restore(t), [Release(t)], s3);
    OneMoreAct(c, s, Compare(t, m), [Restore(t), Release(t)], s3);
    assert [Release(t)] + [] == [Release(t)] && [Restore(t)] + [Release(t)] == [Restore(t), Release(t)];
    assert [Compare(t, m)] + [Restore(t), Release(t)] == [Compare(t, m), Restore(t), Release(t)];
  }

  /** `unlock` of the mutex taken last frees it, in three steps, and nothing else changes but that the
      thread is back at the level it had before. */
  lemma UnlockFrees(c: Config, s: State, t: Thread, m: Mutex)
    requires Sane(c) && Reachable(c, s) && Shaped(c, s) && t in c.threads && s.phase[t] == Outside
    requires EndsWith(s.held[t], m)
    ensures m in s.previous && Known(c, s.held[t])
    ensures s.previous[m] == LevelAt(c, s.held[t], |s.held[t]| - 1)
    ensures LeadsTo(c, s, [Compare(t, m), Restore(t), Release(t)], Freed(s, t, m))
  {
    ReachableInv(c, s);
    assert ThreadInv(c, s, t) && Taken(c, s, t, |s.held[t]| - 1);
    LastDropped(c, s, t, m);
    FreesOwned(c, s, t, m);
  }

  lemma LastDropped(c: Config, s: State, t: Thread, m: Mutex)
    requires Shaped(c, s) && t in c.threads && ThreadInv(c, s, t) && EndsWith(s.held[t], m)
    ensures Without(s.held[t], m) == s.held[t][..|s.held[t]| - 1]
  {
    forall i | 0 <= i < |s.held[t]| - 1
      ensures s.held[t][i] != m
    {
      LevelsDecrease(c, s, t, i, |s.held[t]| - 1);
    }
    WithoutLast(s.held[t], m);
  }
}
