/** priority_queue.cpp: the median of a stream, kept between two priority queues. A queue is modelled
    by the ascending sequence of its elements: the smallest is the top of heap1, the largest that of
    heap2. */
module MedianFinder {

  ghost predicate Ascending(s: seq<int>) {
    forall i, j :: 0 <= i < j < |s| ==> s[i] <= s[j]
  }

  function Push(s: seq<int>, x: int): seq<int> {
    if s == [] || x <= s[0] then [x] + s else [s[0]] + Push(s[1..], x)
  }

  lemma {:induction false} PushAddsOne(s: seq<int>, x: int)
    ensures multiset(Push(s, x)) == multiset(s) + multiset{x}
  {
    if s != [] && s[0] < x {
      PushAddsOne(s[1..], x);
      assert s == [s[0]] + s[1..];
    }
  }

  lemma InFront(y: int, s: seq<int>)
    requires Ascending(s) && (s == [] || y <= s[0])
    ensures Ascending([y] + s)
  {
    var t := [y] + s;
    forall i, j | 0 <= i < j < |t|
      ensures t[i] <= t[j]
    {
      assert t[j] == s[j - 1];
    }
  }

  lemma {:induction false} PushAscends(s: seq<int>, x: int)
    requires Ascending(s)
    ensures Ascending(Push(s, x))
    ensures multiset(Push(s, x)) == multiset(s) + multiset{x}
  {
    PushAddsOne(s, x);
    if s == [] || x <= s[0] {
      InFront(x, s);
    } else {
      PushAscends(s[1..], x);
      InFront(s[0], Push(s[1..], x));
    }
  }

  /** The stream in order. */
  function Sort(s: seq<int>): seq<int> {
    if s == [] then [] else Push(Sort(s[..|s| - 1]), s[|s| - 1])
  }

  lemma {:induction false} SortSorts(s: seq<int>)
    ensures Ascending(Sort(s)) && multiset(Sort(s)) == multiset(s)
  {
    if s != [] {
      var front, last := s[..|s| - 1], s[|s| - 1];
      SortSorts(front);
      PushAscends(Sort(front), last);
      SnocItems(front, last);
      assert s == front + [last];
    }
  }

  lemma SnocItems(s: seq<int>, x: int)
    ensures multiset(s + [x]) == multiset(s) + multiset{x}
  {
  }

  /** Taking off the first number, or the last, of an ascending sequence. */
  lemma WithoutFirst(s: seq<int>)
    requires s != [] && Ascending(s)
    ensures Ascending(s[1..]) && multiset(s) == multiset(s[1..]) + multiset{s[0]}
  {
    assert s == [s[0]] + s[1..];
  }

  lemma WithoutLast(s: seq<int>)
    requires s != [] && Ascending(s)
    ensures Ascending(s[..|s| - 1]) && multiset(s) == multiset(s[..|s| - 1]) + multiset{s[|s| - 1]}
  {
    assert s == s[..|s| - 1] + [s[|s| - 1]];
  }

  lemma FirstIsLeast(s: seq<int>, y: int)
    requires Ascending(s) && y in multiset(s)
    ensures s[0] <= y <= s[|s| - 1]
  {
    var i :| 0 <= i < |s| && s[i] == y;
  }

  lemma SameSize(s: seq<int>, t: seq<int>)
    requires multiset(s) == multiset(t)
    ensures |s| == |t|
  {
    assert |s| == |multiset(s)| && |t| == |multiset(t)|;
  }

  /** There is only one way to put the same numbers in order. */
  lemma {:induction false} AscendingUnique(s: seq<int>, t: seq<int>)
    requires Ascending(s) && Ascending(t) && multiset(s) == multiset(t)
    ensures s == t
  {
    SameSize(s, t);
    if s != [] {
      SameFirst(s, t);
      WithoutFirst(s);
      WithoutFirst(t);
      Cancel(multiset(s[1..]), multiset(t[1..]), s[0]);
      AscendingUnique(s[1..], t[1..]);
      assert s == [s[0]] + s[1..] && t == [t[0]] + t[1..];
    }
  }

  lemma SameFirst(s: seq<int>, t: seq<int>)
    requires s != [] && t != [] && Ascending(s) && Ascending(t) && multiset(s) == multiset(t)
    ensures s[0] == t[0]
  {
    assert s[0] in multiset(s) && t[0] in multiset(t);
    FirstIsLeast(s, t[0]);
    FirstIsLeast(t, s[0]);
  }

  lemma Cancel(m: multiset<int>, n: multiset<int>, x: int)
    requires m + multiset{x} == n + multiset{x}
    ensures m == n
  {
    assert m == (m + multiset{x}) - multiset{x} && n == (n + multiset{x}) - multiset{x};
  }

  /** The two halves in order, nothing in the smaller above anything in the larger. */
  ghost predicate Halves(low: seq<int>, high: seq<int>) {
    Ascending(low) && Ascending(high) && NotAbove(multiset(low), multiset(high))
  }

  ghost predicate NotAbove(low: multiset<int>, high: multiset<int>) {
    forall a, b :: a in low && b in high ==> a <= b
  }

  lemma HalvesAreSorted(low: seq<int>, high: seq<int>, stream: seq<int>)
    requires Halves(low, high) && multiset(low) + multiset(high) == multiset(stream)
    ensures low + high == Sort(stream)
  {
    SortSorts(stream);
    forall i, j | 0 <= i < j < |low + high|
      ensures (low + high)[i] <= (low + high)[j]
    {
      if i < |low| <= j {
        assert low[i] in multiset(low) && high[j - |low|] in multiset(high);
      }
    }
    AscendingUnique(low + high, Sort(stream));
  }

  /** The smallest of the upper half and x moves down. */
  lemma MoveDown(low: multiset<int>, high: multiset<int>, x: int, top: int, rest: multiset<int>)
    requires NotAbove(low, high) && rest + multiset{top} == high + multiset{x}
    requires forall b :: b in rest ==> top <= b
    ensures NotAbove(low + multiset{top}, rest)
  {
    if top == x {
      Cancel(rest, high, x);
    } else {
      assert top in rest + multiset{top};
      assert top in high;
    }
  }

  /** The largest of the lower half and x moves up. */
  lemma MoveUp(low: multiset<int>, high: multiset<int>, x: int, top: int, rest: multiset<int>)
    requires NotAbove(low, high) && rest + multiset{top} == low + multiset{x}
    requires forall a :: a in rest ==> a <= top
    ensures NotAbove(rest, high + multiset{top})
  {
    if top == x {
      Cancel(rest, low, x);
    } else {
      assert top in rest + multiset{top};
      assert top in low;
    }
  }

  lemma PushGrows(s: seq<int>, x: int)
    ensures |Push(s, x)| == |s| + 1
  {
  }

  /** The halves (low', high') hold what (low, high) did and x. */
  ghost predicate Gained(low: seq<int>, high: seq<int>, x: int, low': seq<int>, high': seq<int>) {
    multiset(low') + multiset(high') == multiset(low) + multiset(high) + multiset{x}
  }

  lemma Regroup(m: multiset<int>, n: multiset<int>, x: int, top: int, rest: multiset<int>)
    requires rest + multiset{top} == n + multiset{x}
    ensures (m + multiset{top}) + rest == m + n + multiset{x}
    ensures rest + (m + multiset{top}) == n + m + multiset{x}
  {
    assert (m + multiset{top}) + rest == m + (rest + multiset{top});
    assert rest + (m + multiset{top}) == m + (rest + multiset{top});
  }

  /** A number goes into the larger half, whose smallest then goes into the smaller. */
  lemma ThroughHigh(low: seq<int>, high: seq<int>, x: int, grown: seq<int>)
    requires Halves(low, high) && grown == Push(high, x)
    ensures |grown| == |high| + 1 && |Push(low, grown[0])| == |low| + 1
    ensures Halves(Push(low, grown[0]), grown[1..]) && Gained(low, high, x, Push(low, grown[0]), grown[1..])
  {
    PushGrows(high, x);
    PushAscends(high, x);
    PushGrows(low, grown[0]);
    PushAscends(low, grown[0]);
    WithoutFirst(grown);
    forall b | b in multiset(grown[1..])
      ensures grown[0] <= b
    {
      FirstIsLeast(grown, b);
    }
    MoveDown(multiset(low), multiset(high), x, grown[0], multiset(grown[1..]));
    Regroup(multiset(low), multiset(high), x, grown[0], multiset(grown[1..]));
  }

  /** A number goes into the smaller half, whose largest then goes into the larger. */
  lemma ThroughLow(low: seq<int>, high: seq<int>, x: int, grown: seq<int>)
    requires Halves(low, high) && grown == Push(low, x)
    ensures |grown| == |low| + 1 && |Push(high, grown[|low|])| == |high| + 1
    ensures Halves(grown[..|low|], Push(high, grown[|low|])) && Gained(low, high, x, grown[..|low|], Push(high, grown[|low|]))
  {
    PushGrows(low, x);
    PushAscends(low, x);
    PushGrows(high, grown[|low|]);
    PushAscends(high, grown[|low|]);
    WithoutLast(grown);
    forall a | a in multiset(grown[..|low|])
      ensures a <= grown[|low|]
    {
      FirstIsLeast(grown, a);
    }
    MoveUp(multiset(low), multiset(high), x, grown[|low|], multiset(grown[..|low|]));
    Regroup(multiset(high), multiset(low), x, grown[|low|], multiset(grown[..|low|]));
  }

  /** `r` is `x` without its fraction. */
  predicate TowardsZero(x: real, r: int) {
    if x >= 0.0 then r as real <= x < r as real + 1.0 else r as real - 1.0 < x <= r as real
  }

  /** C++ integer division. */
  function Truncated(a: int): (r: int)
    ensures TowardsZero(a as real / 2.0, r)
  {
    if a >= 0 then a / 2 else -(-a / 2)
  }

  /** The median of a sorted sequence: its middle element, or the mean of the two. */
  function Median(s: seq<int>): real
    requires s != []
  {
    if |s| % 2 == 1 then s[|s| / 2] as real else (s[|s| / 2 - 1] + s[|s| / 2]) as real / 2.0
  }

  /** After 1 and 2, findMedian gives 1 and not 1.5. */
  lemma HalfIsLost()
    ensures Sort([1, 2]) == [1, 2] && Truncated(1 + 2) == 1 && Median(Sort([1, 2])) == 1.5
  {
    assert Sort([]) == [] && [1, 2][..1] == [1] && [1][..0] == [];
    assert Sort([1]) == Push([], 1) == [1];
    assert Push([2], 1) == [1, 2] && Push([], 2) == [2] && Push([1], 2) == [1] + Push([1][1..], 2);
  }

  class MedianFinder {
    var heap1: seq<int>         // the larger half
    var heap2: seq<int>         // the smaller half
    ghost var stream: seq<int>  // the numbers added so far

    /** Together the queues are the stream, split in the middle of its sorted order. */
    ghost predicate Valid()
      reads this
    {
      && Halves(heap2, heap1)
      && multiset(heap2) + multiset(heap1) == multiset(stream)
      && (|heap1| == |heap2| || |heap1| == |heap2| + 1)
    }

    constructor ()
      ensures Valid() && stream == []
    {
      heap1, heap2, stream := [], [], [];
    }

    method AddNum(num: int)
      requires Valid()
      modifies this
      ensures Valid() && stream == old(stream) + [num]
      ensures heap2 + heap1 == Sort(stream)
    {
      if |heap1| != |heap2| {
        ThroughHigh(heap2, heap1, num, Push(heap1, num));
        heap1 := Push(heap1, num);
        heap2 := Push(heap2, heap1[0]);
        heap1 := heap1[1..];
      } else {
        ThroughLow(heap2, heap1, num, Push(heap2, num));
        heap2 := Push(heap2, num);
        heap1 := Push(heap1, heap2[|heap2| - 1]);
        heap2 := heap2[..|heap2| - 1];
      }
      stream := stream + [num];
      HalvesAreSorted(heap2, heap1, stream);
    }

    /** The median, without its fraction if the stream has even length: the division comes before the
        conversion to double. So it is the median exactly for odd length or an even sum of the two middle
        numbers. */
    method FindMedian() returns (r: real)
      requires Valid() && stream != []
      ensures var sorted := Sort(stream);
              && |sorted| == |stream|
              && (|stream| % 2 == 1 ==> r == Median(sorted))
              && (|stream| % 2 == 0 ==>
                    && r.Floor as real == r && TowardsZero(Median(sorted), r.Floor)
                    && (r == Median(sorted) <==> (sorted[|stream| / 2 - 1] + sorted[|stream| / 2]) % 2 == 0))
    {
      HalvesAreSorted(heap2, heap1, stream);
      SortSorts(stream);
      assert |stream| == |multiset(stream)| == |heap2| + |heap1|;
      r := if |heap1| == |heap2| then Truncated(heap1[0] + heap2[|heap2| - 1]) as real else heap1[0] as real;
    }
  }
}
