/** Sorted sequences of items: the simple object both indexes stand for. */
module SortedSeqs {
  import opened Items

  ghost predicate Sorted(s: seq<Item>) {
    forall i, j :: 0 <= i < j < |s| ==> Less(s[i], s[j])
  }

  function InsertAt(s: seq<Item>, i: nat, x: Item): seq<Item>
    requires i <= |s|
  {
    s[..i] + [x] + s[i..]
  }

  function RemoveAt(s: seq<Item>, i: nat): seq<Item>
    requires i < |s|
  {
    s[..i] + s[i + 1..]
  }

  /** How many items of s are smaller than x. */
  function Below(s: seq<Item>, x: Item): (n: nat)
    ensures n <= |s|
  {
    if s == [] then 0 else (if Less(s[0], x) then 1 else 0) + Below(s[1..], x)
  }

  function SortedInsert(s: seq<Item>, x: Item): seq<Item> {
    InsertAt(s, Below(s, x), x)
  }

  /** The sequence without one occurrence of x. */
  function SortedRemove(s: seq<Item>, x: Item): seq<Item> {
    if Below(s, x) < |s| && s[Below(s, x)] == x then RemoveAt(s, Below(s, x)) else s
  }

  /** Where the smaller items form a prefix, `Below` is its length. */
  lemma {:induction false} PrefixBelow(s: seq<Item>, x: Item, i: nat)
    requires i <= |s|
    requires forall q :: 0 <= q < i ==> Less(s[q], x)
    requires forall q :: i <= q < |s| ==> !Less(s[q], x)
    ensures Below(s, x) == i
  {
    if s != [] {
      PrefixBelow(s[1..], x, if i == 0 then 0 else i - 1);
    }
  }

  /** The items with a score between min and max. */
  function InRange(s: seq<Item>, min: real, max: real): seq<Item> {
    if s == [] then []
    else InRange(s[..|s| - 1], min, max) + (if min <= s[|s| - 1].score <= max then [s[|s| - 1]] else [])
  }

  /** A walk along s has seen n items and kept those in range. */
  ghost predicate RangeSoFar(s: seq<Item>, n: nat, min: real, max: real, kept: seq<Item>) {
    n <= |s| && kept == InRange(s[..n], min, max)
  }

  lemma RangeStart(s: seq<Item>, min: real, max: real)
    ensures RangeSoFar(s, 0, min, max, [])
  {
  }

  lemma RangeStep(s: seq<Item>, n: nat, min: real, max: real, kept: seq<Item>)
    requires RangeSoFar(s, n, min, max, kept) && n < |s|
    ensures RangeSoFar(s, n + 1, min, max, if min <= s[n].score <= max then kept + [s[n]] else kept)
  {
    assert s[..n + 1][..n] == s[..n];
  }

  lemma RangeDone(s: seq<Item>, n: nat, min: real, max: real, kept: seq<Item>)
    requires RangeSoFar(s, n, min, max, kept) && forall i :: n <= i < |s| ==> s[i].score > max
    ensures kept == InRange(s, min, max)
  {
    InRangeDone(s, n, min, max);
  }

  /** In score order, nothing in range follows a score above it. */
  lemma {:induction false} InRangeDone(s: seq<Item>, n: nat, min: real, max: real)
    requires n <= |s| && forall i :: n <= i < |s| ==> s[i].score > max
    ensures InRange(s, min, max) == InRange(s[..n], min, max)
  {
    if n == |s| {
      assert s[..n] == s;
    } else {
      var t := s[..|s| - 1];
      InRangeDone(t, n, min, max);
      assert t[..n] == s[..n];
    }
  }

  /** The items ranked start to end. */
  function RankSlice(s: seq<Item>, start: int, end: int): seq<Item> {
    if start < 0 || end < start || |s| <= start then [] else s[start..if end < |s| then end + 1 else |s|]
  }

  /** A walk along s has seen n items and kept those ranked start to end. */
  ghost predicate RanksSoFar(s: seq<Item>, n: nat, start: int, end: int, kept: seq<Item>) {
    n <= |s| && kept == RankSlice(s[..n], start, end)
  }

  lemma RanksStart(s: seq<Item>, start: int, end: int)
    ensures RanksSoFar(s, 0, start, end, [])
  {
  }

  lemma RanksStep(s: seq<Item>, n: nat, start: int, end: int, kept: seq<Item>)
    requires RanksSoFar(s, n, start, end, kept) && n < |s| && 0 <= start <= end
    ensures RanksSoFar(s, n + 1, start, end, if start <= n <= end then kept + [s[n]] else kept)
  {
  }

  lemma RanksDone(s: seq<Item>, n: nat, start: int, end: int, kept: seq<Item>)
    requires RanksSoFar(s, n, start, end, kept) && 0 <= start <= end && (end < n || n == |s|)
    ensures kept == RankSlice(s, start, end)
  {
    assert n == |s| ==> s[..n] == s;
  }

  /** In order, equal items allowed. */
  ghost predicate WeaklySorted(s: seq<Item>) {
    forall i, j :: 0 <= i < j < |s| ==> !Less(s[j], s[i])
  }

  /** In a sorted sequence the items smaller than x are exactly the first `Below(s, x)`. */
  lemma {:induction false} BelowIsPrefix(s: seq<Item>, x: Item)
    requires WeaklySorted(s)
    ensures forall q :: 0 <= q < Below(s, x) ==> Less(s[q], x)
    ensures forall q :: Below(s, x) <= q < |s| ==> !Less(s[q], x)
  {
    if s != [] {
      BelowIsPrefix(s[1..], x);
      if !Less(s[0], x) {
        forall q | 0 <= q < |s| ensures !Less(s[q], x) {
          if q > 0 && Less(s[q], x) {
            LessTrichotomy(s[0], s[q]);
            LessTrichotomy(s[0], x);
            if Less(s[0], s[q]) {
              LessTransitive(s[0], s[q], x);
            }
          }
        }
        PrefixBelow(s, x, 0);
      } else {
        forall q | 1 <= q < |s| ensures s[q] == s[1..][q - 1] {
        }
      }
    }
  }

  /** Inserting an item behind the smaller ones keeps the order. */
  lemma SortedInsertSorted(s: seq<Item>, x: Item)
    requires WeaklySorted(s)
    ensures WeaklySorted(SortedInsert(s, x))
  {
    var k, t := Below(s, x), SortedInsert(s, x);
    BelowIsPrefix(s, x);
    forall i, j | 0 <= i < j < |t| ensures !Less(t[j], t[i]) {
      LessTrichotomy(t[i], t[j]);
      if i < k {
        assert t[i] == s[i];
        if j == k {
        } else if j < k {
          assert t[j] == s[j];
        } else {
          assert t[j] == s[j - 1];
        }
      } else if i == k {
        assert t[j] == s[j - 1];
      } else {
        assert t[i] == s[i - 1] && t[j] == s[j - 1];
      }
    }
  }

  lemma RemoveSorted(s: seq<Item>, d: nat)
    requires WeaklySorted(s) && d < |s|
    ensures WeaklySorted(RemoveAt(s, d))
  {
    var t := RemoveAt(s, d);
    forall i, j | 0 <= i < j < |t| ensures !Less(t[j], t[i]) {
      assert t[i] == s[if i < d then i else i + 1] && t[j] == s[if j < d then j else j + 1];
    }
  }

  /** In a strictly sorted sequence an item stands right behind the smaller ones. */
  lemma SortedPosition(s: seq<Item>, i: nat)
    requires Sorted(s) && i < |s|
    ensures Below(s, s[i]) == i
  {
    forall q | i <= q < |s| ensures !Less(s[q], s[i]) {
      LessTrichotomy(s[q], s[i]);
    }
    PrefixBelow(s, s[i], i);
  }

  /** How many items of s are not larger than x. */
  function UpTo(s: seq<Item>, x: Item): (n: nat)
    ensures n <= |s|
  {
    if s == [] then 0 else (if Less(x, s[0]) then 0 else 1) + UpTo(s[1..], x)
  }

  lemma {:induction false} UpToIsPrefix(s: seq<Item>, x: Item)
    requires WeaklySorted(s)
    ensures forall q :: 0 <= q < UpTo(s, x) ==> !Less(x, s[q])
    ensures forall q :: UpTo(s, x) <= q < |s| ==> Less(x, s[q])
  {
    if s != [] {
      UpToIsPrefix(s[1..], x);
      forall q | 1 <= q < |s| ensures s[q] == s[1..][q - 1] {
      }
      if Less(x, s[0]) {
        forall q | 1 <= q < |s| ensures Less(x, s[q]) {
          LessTrichotomy(s[0], s[q]);
          if s[0] != s[q] {
            LessTransitive(x, s[0], s[q]);
          }
        }
        AllAbove(s[1..], x);
      }
    }
  }

  lemma {:induction false} AllAbove(s: seq<Item>, x: Item)
    requires forall q :: 0 <= q < |s| ==> Less(x, s[q])
    ensures UpTo(s, x) == 0
  {
    if s != [] {
      AllAbove(s[1..], x);
    }
  }
}
