/** parallel_accumulate.cpp: a sequence cut into contiguous blocks that threads fold on their own,
    and a final fold over the results of the blocks. */
module ParallelAccumulate {

  // ---------- std::accumulate ----------

  function Accumulate<T>(op: (T, T) -> T, s: seq<T>, init: T): T {
    if s == [] then init else op(Accumulate(op, s[..|s| - 1], init), s[|s| - 1])
  }

  ghost predicate Associative<T(!new)>(op: (T, T) -> T) {
    forall x, y, z :: op(op(x, y), z) == op(x, op(y, z))
  }

  ghost predicate Identity<T(!new)>(op: (T, T) -> T, zero: T) {
    forall x :: op(x, zero) == x
  }

  lemma {:induction false} AccumulateConcat<T>(op: (T, T) -> T, s: seq<T>, t: seq<T>, init: T)
    ensures Accumulate(op, s + t, init) == Accumulate(op, t, Accumulate(op, s, init))
  {
    if t == [] {
      assert s + t == s;
    } else {
      AccumulateConcat(op, s, t[..|t| - 1], init);
      assert (s + t)[..|s + t| - 1] == s + t[..|t| - 1];
    }
  }

  lemma {:induction false} AccumulateFromZero<T(!new)>(op: (T, T) -> T, zero: T, s: seq<T>, x: T)
    requires Associative(op) && Identity(op, zero)
    ensures op(x, Accumulate(op, s, zero)) == Accumulate(op, s, x)
  {
    if s != [] {
      AccumulateFromZero(op, zero, s[..|s| - 1], x);
    }
  }

  // ---------- the partition ----------

  const MIN_PER_THREAD := 25

  function NumThreads(length: nat, hardware: nat): (n: nat)
    ensures n <= if hardware == 0 then 2 else hardware
    ensures length > 0 ==> (n - 1) * MIN_PER_THREAD < length
    ensures n == (if hardware == 0 then 2 else hardware) || n * MIN_PER_THREAD >= length
  {
    var maxThreads := (length + MIN_PER_THREAD - 1) / MIN_PER_THREAD;
    var wanted := if hardware != 0 then hardware else 2;
    if wanted < maxThreads then wanted else maxThreads
  }

  /** The elements from `first` up to, not including, `last`. */
  datatype Block = Block(first: nat, last: nat)

  /** The blocks are contiguous and cover the range, none is empty, all but the last have `size`
      elements, and the last has fewer than `size` more than the number of threads. */
  ghost predicate IsPartition(blocks: seq<Block>, size: nat, threads: nat, length: nat) {
    && threads > 0 && size > 0 && |blocks| == threads
    && blocks[0].first == 0 && blocks[threads - 1].last == length
    && (forall i, j :: 0 <= i && j == i + 1 && j < threads ==> blocks[j].first == blocks[i].last)
    && (forall i :: 0 <= i < threads - 1 ==> blocks[i].last == blocks[i].first + size)
    && size <= blocks[threads - 1].last - blocks[threads - 1].first < size + threads
  }

  lemma BlocksFit(length: nat, hardware: nat)
    requires length > 0
    ensures var n := NumThreads(length, hardware);
            && 1 <= n <= length && length / n > 0
            && length / n <= length - (n - 1) * (length / n) < length / n + n
  {
    var n := NumThreads(length, hardware);
    assert 1 <= n <= length;
    var q := length / n;
    assert length == n * q + length % n;
    assert (n - 1) * q == n * q - q;
    assert q == 0 ==> n * q == 0;
  }

  method Cut(length: nat, hardware: nat) returns (blocks: seq<Block>)
    requires length > 0
    ensures IsPartition(blocks, length / NumThreads(length, hardware), NumThreads(length, hardware), length)
  {
    BlocksFit(length, hardware);
    var threads := NumThreads(length, hardware);
    var size := length / threads;
    blocks := [];
    var start := 0;
    for i := 0 to threads - 1
      invariant |blocks| == i && start == i * size
      invariant i > 0 ==> blocks[0].first == 0 && blocks[i - 1].last == start
      invariant forall k :: 0 <= k < i ==> blocks[k].last == blocks[k].first + size
      invariant forall j, k :: 0 <= j && k == j + 1 && k < i ==> blocks[k].first == blocks[j].last
    {
      blocks := blocks + [Block(start, start + size)];
      start := start + size;
    }
    blocks := blocks + [Block(start, length)];
  }

  // ---------- the threads ----------

  lemma {:induction false} BlocksInside(blocks: seq<Block>, size: nat, threads: nat, length: nat, i: nat)
    requires IsPartition(blocks, size, threads, length) && i < threads
    ensures blocks[i].first < blocks[i].last <= length
    decreases threads - i
  {
    if i < threads - 1 {
      BlocksInside(blocks, size, threads, length, i + 1);
      assert blocks[i + 1].first == blocks[i].last;
    }
  }

  /** `result` is the fold of the elements of the block in front of `next`. */
  ghost predicate Folded<T>(op: (T, T) -> T, zero: T, s: seq<T>, block: Block, next: nat, result: T) {
    block.first <= next <= block.last <= |s| && result == Accumulate(op, s[block.first..next], zero)
  }

  ghost predicate AllFolded<T>(op: (T, T) -> T, zero: T, s: seq<T>, blocks: seq<Block>, next: seq<nat>, results: seq<T>) {
    && |results| == |next| == |blocks|
    && forall i {:trigger Folded(op, zero, s, blocks[i], next[i], results[i])} ::
         0 <= i < |blocks| ==> Folded(op, zero, s, blocks[i], next[i], results[i])
  }

  ghost predicate BlocksDone<T>(op: (T, T) -> T, zero: T, s: seq<T>, blocks: seq<Block>, results: seq<T>) {
    && |results| == |blocks|
    && forall i {:trigger Folded(op, zero, s, blocks[i], blocks[i].last, results[i])} ::
         0 <= i < |blocks| ==> Folded(op, zero, s, blocks[i], blocks[i].last, results[i])
  }

  lemma FoldOneMore<T(!new)>(op: (T, T) -> T, zero: T, front: seq<T>, block: seq<T>, results: seq<T>, result: T, init: T)
    requires Associative(op) && Identity(op, zero)
    requires Accumulate(op, results, init) == Accumulate(op, front, init) && result == Accumulate(op, block, zero)
    ensures Accumulate(op, results + [result], init) == Accumulate(op, front + block, init)
  {
    assert (results + [result])[..|results|] == results;
    AccumulateFromZero(op, zero, block, Accumulate(op, front, init));
    AccumulateConcat(op, front, block, init);
  }

  /** Folding the results of the first blocks is folding the elements of these blocks. */
  lemma {:induction false} FoldOfBlocks<T(!new)>(op: (T, T) -> T, zero: T, s: seq<T>, blocks: seq<Block>, size: nat,
                                               results: seq<T>, init: T, k: nat)
    requires Associative(op) && Identity(op, zero) && BlocksDone(op, zero, s, blocks, results)
    requires IsPartition(blocks, size, |blocks|, |s|) && k < |blocks|
    ensures blocks[k].last <= |s| && Accumulate(op, results[..k + 1], init) == Accumulate(op, s[..blocks[k].last], init)
  {
    assert Folded(op, zero, s, blocks[k], blocks[k].last, results[k]);
    var front, block := s[..blocks[k].first], s[blocks[k].first..blocks[k].last];
    if k > 0 {
      FoldOfBlocks(op, zero, s, blocks, size, results, init, k - 1);
      assert blocks[k].first == blocks[k - 1].last;
    } else {
      assert results[..k] == [] && front == [];
    }
    FoldOneMore(op, zero, front, block, results[..k], results[k], init);
    assert s[..blocks[k].last] == front + block && results[..k + 1] == results[..k] + [results[k]];
  }

  /** One more element into the result of block `i`; the other blocks are not concerned. */
  lemma AllFoldedStep<T>(op: (T, T) -> T, zero: T, s: seq<T>, blocks: seq<Block>, next: seq<nat>, results: seq<T>, i: nat)
    requires AllFolded(op, zero, s, blocks, next, results) && i < |blocks| && next[i] < blocks[i].last
    ensures next[i] < |s|
    ensures AllFolded(op, zero, s, blocks, next[i := next[i] + 1], results[i := op(results[i], s[next[i]])])
    ensures 0 <= Remaining(blocks, next[i := next[i] + 1]) < Remaining(blocks, next)
  {
    assert Folded(op, zero, s, blocks[i], next[i], results[i]);
    var block, n := blocks[i], next[i];
    assert s[block.first..n + 1][..n - block.first] == s[block.first..n];
    var next', results' := next[i := n + 1], results[i := op(results[i], s[n])];
    forall k | 0 <= k < |blocks|
      ensures Folded(op, zero, s, blocks[k], next'[k], results'[k])
    {
      assert Folded(op, zero, s, blocks[k], next[k], results[k]);
    }
    RemainingNonNegative(blocks, next');
    OneFewer(blocks, next, i);
  }

  lemma NothingFolded<T>(op: (T, T) -> T, zero: T, s: seq<T>, blocks: seq<Block>, size: nat, threads: nat,
                         next: seq<nat>, results: seq<T>)
    requires IsPartition(blocks, size, threads, |s|) && |next| == |results| == threads
    requires forall i :: 0 <= i < threads ==> next[i] == blocks[i].first && results[i] == zero
    ensures AllFolded(op, zero, s, blocks, next, results)
  {
    forall i | 0 <= i < threads
      ensures Folded(op, zero, s, blocks[i], next[i], results[i])
    {
      BlocksInside(blocks, size, threads, |s|, i);
    }
  }

  /** Whatever the scheduler picks, one element of one unfinished block at a time, every result ends
      up as the fold of its block. */
  method RunThreads<T>(op: (T, T) -> T, zero: T, s: seq<T>, blocks: seq<Block>, ghost size: nat, threads: nat)
    returns (results: array<T>)
    requires IsPartition(blocks, size, threads, |s|)
    ensures fresh(results) && BlocksDone(op, zero, s, blocks, results[..])
  {
    results := new T[threads](_ => zero);
    var next := new nat[threads](i requires 0 <= i < threads => blocks[i].first);
    NothingFolded(op, zero, s, blocks, size, threads, next[..], results[..]);
    while exists i :: 0 <= i < threads && next[i] < blocks[i].last
      invariant fresh(results) && fresh(next) && next as object != results && results.Length == next.Length == threads
      invariant AllFolded(op, zero, s, blocks, next[..], results[..])
      decreases Remaining(blocks, next[..])
    {
      var i :| 0 <= i < threads && next[i] < blocks[i].last;
      StepFolded(op, zero, s, blocks, next, results, i);
    }
    AllFoldedDone(op, zero, s, blocks, next[..], results[..]);
  }

  /** A turn of thread `i` on its block. */
  method StepFolded<T>(op: (T, T) -> T, zero: T, s: seq<T>, blocks: seq<Block>, next: array<nat>, results: array<T>, i: nat)
    requires next as object != results && AllFolded(op, zero, s, blocks, next[..], results[..])
    requires i < |blocks| && next[i] < blocks[i].last
    modifies next, results
    ensures AllFolded(op, zero, s, blocks, next[..], results[..])
    ensures 0 <= Remaining(blocks, next[..]) < old(Remaining(blocks, next[..]))
  {
    AllFoldedStep(op, zero, s, blocks, next[..], results[..], i);
    StepThread(op, s, next, results, i);
  }

  /** Thread `i` takes one more element. */
  method StepThread<T>(op: (T, T) -> T, s: seq<T>, next: array<nat>, results: array<T>, i: nat)
    requires next as object != results && i < next.Length == results.Length && next[i] < |s|
    modifies next, results
    ensures next[..] == old(next[..])[i := old(next[i]) + 1]
    ensures results[..] == old(results[..])[i := op(old(results[i]), s[old(next[i])])]
  {
    results[i] := op(results[i], s[next[i]]);
    next[i] := next[i] + 1;
  }

  lemma AllFoldedDone<T>(op: (T, T) -> T, zero: T, s: seq<T>, blocks: seq<Block>, next: seq<nat>, results: seq<T>)
    requires AllFolded(op, zero, s, blocks, next, results)
    requires forall i :: 0 <= i < |blocks| ==> next[i] >= blocks[i].last
    ensures BlocksDone(op, zero, s, blocks, results)
  {
    forall i | 0 <= i < |blocks|
      ensures Folded(op, zero, s, blocks[i], blocks[i].last, results[i])
    {
      assert Folded(op, zero, s, blocks[i], next[i], results[i]);
    }
  }

  ghost function Remaining(blocks: seq<Block>, next: seq<nat>): int
    requires |blocks| == |next|
  {
    if blocks == [] then 0 else Remaining(blocks[1..], next[1..]) + blocks[0].last - next[0]
  }

  lemma {:induction false} RemainingNonNegative(blocks: seq<Block>, next: seq<nat>)
    requires |blocks| == |next| && forall i :: 0 <= i < |next| ==> next[i] <= blocks[i].last
    ensures Remaining(blocks, next) >= 0
  {
    if blocks != [] {
      RemainingNonNegative(blocks[1..], next[1..]);
    }
  }

  lemma {:induction false} OneFewer(blocks: seq<Block>, next: seq<nat>, i: nat)
    requires |blocks| == |next| && i < |blocks|
    ensures Remaining(blocks, next[i := next[i] + 1]) == Remaining(blocks, next) - 1
  {
    var next' := next[i := next[i] + 1];
    if i == 0 {
      assert next'[1..] == next[1..];
    } else {
      assert next'[1..] == next[1..][i - 1 := next[i] + 1];
      OneFewer(blocks[1..], next[1..], i - 1);
    }
  }

  /** For every associative operation of which T() is an identity, the parallel result is that of
      std::accumulate on the whole range. */
  method Parallel<T(!new)>(op: (T, T) -> T, zero: T, s: seq<T>, init: T, hardware: nat) returns (r: T)
    requires Associative(op) && Identity(op, zero)
    ensures r == Accumulate(op, s, init)
  {
    if |s| == 0 {
      return init;
    }
    var blocks := Cut(|s|, hardware);
    BlocksFit(|s|, hardware);
    var threads := NumThreads(|s|, hardware);
    var results := RunThreads(op, zero, s, blocks, |s| / threads, threads);
    FoldOfBlocks(op, zero, s, blocks, |s| / threads, results[..], init, threads - 1);
    assert results[..threads] == results[..] && s[..|s|] == s;
    r := Accumulate(op, results[..], init);
  }
}
