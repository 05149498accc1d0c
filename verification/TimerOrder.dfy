/** Sequences of timers in order of expiry, whatever structure holds them. */
module TimerOrder {
  import opened Sequences

  datatype Entry<T> = Entry(expire: int, item: T)

  ghost predicate Sorted<T>(s: seq<Entry<T>>) {
    forall i, j :: 0 <= i < j < |s| ==> s[i].expire <= s[j].expire
  }

  /** How many entries come before the first one that expires after `e`. */
  function Place<T>(s: seq<Entry<T>>, e: int): (p: nat)
    ensures p <= |s|
    ensures forall i :: 0 <= i < p ==> s[i].expire <= e
    ensures p < |s| ==> e < s[p].expire
  {
    if s == [] || e < s[0].expire then 0 else 1 + Place(s[1..], e)
  }

  lemma {:induction false} PlaceUnique<T>(s: seq<Entry<T>>, e: int, p: nat)
    requires p <= |s|
    requires forall i :: 0 <= i < p ==> s[i].expire <= e
    requires p < |s| ==> e < s[p].expire
    ensures Place(s, e) == p
  {
    if p > 0 {
      PlaceUnique(s[1..], e, p - 1);
    }
  }

  function InsertAt<T>(s: seq<Entry<T>>, p: nat, x: Entry<T>): seq<Entry<T>>
    requires p <= |s|
  {
    s[..p] + [x] + s[p..]
  }

  /** In front of the first entry that expires later, so behind those that expire together. */
  function Insert<T>(s: seq<Entry<T>>, x: Entry<T>): seq<Entry<T>> {
    InsertAt(s, Place(s, x.expire), x)
  }

  lemma InsertBehindHead<T>(s: seq<Entry<T>>, p: nat, x: Entry<T>)
    requires p < |s|
    ensures InsertAt(s, p + 1, x) == [s[0]] + InsertAt(s[1..], p, x)
  {
  }

  lemma PlaceBehindHead<T>(s: seq<Entry<T>>, k: nat, x: Entry<T>)
    requires k < |s| && forall i :: 1 <= i <= k ==> s[i].expire <= x.expire
    requires k + 1 < |s| ==> x.expire < s[k + 1].expire
    ensures InsertAt(s, k + 1, x) == [s[0]] + Insert(s[1..], x)
  {
    PlaceUnique(s[1..], x.expire, k);
    InsertBehindHead(s, k, x);
  }

  lemma InsertKeepsSorted<T>(s: seq<Entry<T>>, x: Entry<T>)
    requires Sorted(s)
    ensures Sorted(Insert(s, x))
  {
  }

  lemma RemoveKeepsSorted<T>(s: seq<Entry<T>>, i: nat)
    requires Sorted(s) && i < |s|
    ensures Sorted(RemoveAt(s, i))
  {
  }

  // ---------- moving a timer whose expiry was changed in place ----------

  /** What `adjustTimer` makes of a list whose entry `i` has just got a new expiry: nothing if it is
      last or expires before the next one; otherwise the entry is taken out and put back behind the
      head of what remains. */
  function Adjust<T>(s: seq<Entry<T>>, i: nat): seq<Entry<T>>
    requires i < |s|
  {
    if i == |s| - 1 || s[i].expire < s[i + 1].expire then s
    else
      var rest := RemoveAt(s, i);
      [rest[0]] + Insert(rest[1..], s[i])
  }

  /** The entry does not expire before the one in front of it. */
  ghost predicate InPlaceOrLater<T>(s: seq<Entry<T>>, i: nat)
    requires i < |s|
  {
    i == 0 || s[i - 1].expire <= s[i].expire
  }

  lemma StayingIsReinsertion<T>(s: seq<Entry<T>>, i: nat)
    requires i < |s| && Sorted(RemoveAt(s, i)) && InPlaceOrLater(s, i)
    requires i == |s| - 1 || s[i].expire < s[i + 1].expire
    ensures Insert(RemoveAt(s, i), s[i]) == s
  {
    var rest := RemoveAt(s, i);
    assert forall k :: 0 <= k < i ==> rest[k] == s[k];
    assert i < |s| - 1 ==> rest[i] == s[i + 1];
    PlaceUnique(rest, s[i].expire, i);
  }

  lemma MovingIsReinsertion<T>(rest: seq<Entry<T>>, x: Entry<T>)
    requires rest != [] && rest[0].expire <= x.expire
    ensures [rest[0]] + Insert(rest[1..], x) == Insert(rest, x)
  {
    assert Place(rest, x.expire) == 1 + Place(rest[1..], x.expire);
  }

  lemma ReinsertionMovesForward<T>(s: seq<Entry<T>>, i: nat)
    requires i < |s| && Sorted(RemoveAt(s, i)) && !InPlaceOrLater(s, i)
    ensures Insert(RemoveAt(s, i), s[i]) != s
    ensures i == |s| - 1 || s[i].expire < s[i + 1].expire
  {
    var rest := RemoveAt(s, i);
    assert rest[i - 1] == s[i - 1];
    assert i < |s| - 1 ==> rest[i] == s[i + 1];
    assert Place(rest, s[i].expire) <= i - 1;
    assert Insert(rest, s[i])[i] == rest[i - 1];
  }

  /** `adjustTimer` is deleting and adding again exactly when the new expiry is not before that of
      the entry in front. */
  lemma AdjustIsReinsertion<T>(s: seq<Entry<T>>, i: nat)
    requires i < |s| && Sorted(RemoveAt(s, i))
    ensures Adjust(s, i) == Insert(RemoveAt(s, i), s[i]) <==> InPlaceOrLater(s, i)
  {
    var rest := RemoveAt(s, i);
    if !InPlaceOrLater(s, i) {
      ReinsertionMovesForward(s, i);
    } else if i == |s| - 1 || s[i].expire < s[i + 1].expire {
      StayingIsReinsertion(s, i);
    } else {
      assert rest[i] == s[i + 1] && rest[0].expire <= rest[i].expire;
      MovingIsReinsertion(rest, s[i]);
    }
  }

  /** Under the same condition, and only then, the list is sorted again. */
  lemma AdjustSorts<T>(s: seq<Entry<T>>, i: nat)
    requires i < |s| && Sorted(RemoveAt(s, i))
    ensures Sorted(Adjust(s, i)) <==> InPlaceOrLater(s, i)
  {
    var rest := RemoveAt(s, i);
    if InPlaceOrLater(s, i) {
      AdjustIsReinsertion(s, i);
      InsertKeepsSorted(rest, s[i]);
    } else {
      ReinsertionMovesForward(s, i);
    }
  }

  /** A timer moved to an earlier time stays behind the later one. */
  lemma EarlierTimeUnsorted()
    ensures !Sorted(Adjust([Entry(3, 0), Entry(1, 1)], 1))
  {
    var s := [Entry(3, 0), Entry(1, 1)];
    assert Adjust(s, 1) == s && s[0].expire > s[1].expire;
  }

  /** A timer that was only put off, in a sorted list, meets the condition. */
  lemma PuttingOffIsFine<T>(s: seq<Entry<T>>, i: nat, e: int)
    requires Sorted(s) && i < |s| && s[i].expire <= e
    ensures var s' := s[i := Entry(e, s[i].item)];
            && Sorted(RemoveAt(s', i)) && InPlaceOrLater(s', i)
            && Sorted(Adjust(s', i))
            && Adjust(s', i) == Insert(RemoveAt(s, i), Entry(e, s[i].item))
  {
    var s' := s[i := Entry(e, s[i].item)];
    assert RemoveAt(s', i) == RemoveAt(s, i);
    RemoveKeepsSorted(s, i);
    AdjustIsReinsertion(s', i);
    AdjustSorts(s', i);
  }

  /** In a sorted list the entries in front of `Place` are exactly those expired at `now`. */
  lemma ExpiredArePrefix<T>(s: seq<Entry<T>>, now: int, i: nat)
    requires Sorted(s) && i < |s|
    ensures i < Place(s, now) <==> s[i].expire <= now
  {
  }
}
