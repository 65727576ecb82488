/** The (score, member) pairs held by a sorted set, and the order both indexes aim at. */
module Items {

  datatype Item = Item(score: real, member: string)

  /** Go's order on strings: lexicographic, a proper prefix comes first. */
  predicate StrLess(a: string, b: string) {
    |b| != 0 && (|a| == 0 || a[0] < b[0] || (a[0] == b[0] && StrLess(a[1..], b[1..])))
  }

  /** The three-way comparison of two items. */
  function CompareTo(i: Item, j: Item): int {
    if i.score < j.score then -1
    else if i.score > j.score then 1
    else if StrLess(i.member, j.member) then -1
    else if StrLess(j.member, i.member) then 1
    else 0
  }

  predicate Less(a: Item, b: Item) {
    a.score < b.score || (a.score == b.score && StrLess(a.member, b.member))
  }

  lemma {:induction false} StrTrichotomy(a: string, b: string)
    ensures !(StrLess(a, b) && StrLess(b, a))
    ensures StrLess(a, b) || StrLess(b, a) || a == b
  {
    if |a| != 0 && |b| != 0 && a[0] == b[0] {
      StrTrichotomy(a[1..], b[1..]);
      if !StrLess(a, b) && !StrLess(b, a) {
        assert a == [a[0]] + a[1..] && b == [b[0]] + b[1..];
      }
    }
  }

  lemma {:induction false} StrTransitive(a: string, b: string, c: string)
    requires StrLess(a, b) && StrLess(b, c)
    ensures StrLess(a, c)
  {
    if |a| != 0 && a[0] == b[0] && b[0] == c[0] {
      StrTransitive(a[1..], b[1..], c[1..]);
    }
  }

  /** CompareTo decides a strict total order on items: signs agree with `Less`, 0 means equal, and it is transitive. */
  lemma CompareToTotalOrder(i: Item, j: Item, k: Item)
    ensures CompareTo(i, j) < 0 <==> Less(i, j)
    ensures CompareTo(i, j) > 0 <==> Less(j, i)
    ensures CompareTo(i, j) == 0 <==> i == j
    ensures CompareTo(i, j) < 0 && CompareTo(j, k) < 0 ==> CompareTo(i, k) < 0
  {
    StrTrichotomy(i.member, j.member);
    if Less(i, j) && Less(j, k) && i.score == j.score == k.score {
      StrTransitive(i.member, j.member, k.member);
    }
  }

  lemma LessTransitive(a: Item, b: Item, c: Item)
    requires Less(a, b) && Less(b, c)
    ensures Less(a, c)
  {
    CompareToTotalOrder(a, b, c);
  }

  lemma LessTrichotomy(a: Item, b: Item)
    ensures Less(a, b) || Less(b, a) || a == b
    ensures !(Less(a, b) && Less(b, a))
    ensures !Less(a, a)
  {
    CompareToTotalOrder(a, b, a);
    CompareToTotalOrder(a, a, a);
  }

  /** The order of a dictionary: a proper prefix comes first, or else the first difference decides. */
  ghost predicate Precedes(a: string, b: string) {
    (a <= b && a != b) || exists i :: 0 <= i < |a| && i < |b| && a[..i] == b[..i] && a[i] < b[i]
  }

  lemma {:induction false} StrLessIs(a: string, b: string)
    ensures StrLess(a, b) <==> Precedes(a, b)
  {
    if a != [] && b != [] {
      if a[0] == b[0] {
        StrLessIs(a[1..], b[1..]);
        PrecedesLater(a, b);
        PrecedesEarlier(a, b);
      } else {
        PrecedesAtOnce(a, b);
      }
    }
  }

  lemma PrecedesAtOnce(a: string, b: string)
    requires a != [] && b != [] && a[0] != b[0]
    ensures Precedes(a, b) <==> a[0] < b[0]
  {
    assert a[..0] == b[..0];
    assert forall i :: 0 < i <= |a| ==> a[..i][0] == a[0];
    assert forall i :: 0 < i <= |b| ==> b[..i][0] == b[0];
  }

  lemma PrecedesLater(a: string, b: string)
    requires a != [] && b != [] && a[0] == b[0]
    ensures Precedes(a, b) ==> Precedes(a[1..], b[1..])
  {
    var s, t := a[1..], b[1..];
    if i :| 0 <= i < |a| && i < |b| && a[..i] == b[..i] && a[i] < b[i] {
      assert s[..i - 1] == a[..i][1..] && t[..i - 1] == b[..i][1..];
      assert s[i - 1] < t[i - 1];
    } else {
      assert a == [a[0]] + s && b == [b[0]] + t;
    }
  }

  lemma PrecedesEarlier(a: string, b: string)
    requires a != [] && b != [] && a[0] == b[0]
    ensures Precedes(a[1..], b[1..]) ==> Precedes(a, b)
  {
    var s, t := a[1..], b[1..];
    assert a == [a[0]] + s && b == [b[0]] + t;
    if i :| 0 <= i < |s| && i < |t| && s[..i] == t[..i] && s[i] < t[i] {
      assert a[..i + 1] == [a[0]] + s[..i] && b[..i + 1] == [b[0]] + t[..i];
      assert a[i + 1] < b[i + 1];
    }
  }

  /** Score first, then the members as in a dictionary. */
  lemma CompareToOrder(i: Item, j: Item)
    ensures CompareTo(i, j) == -1 <==> i.score < j.score || (i.score == j.score && Precedes(i.member, j.member))
    ensures CompareTo(i, j) == 1 <==> i.score > j.score || (i.score == j.score && Precedes(j.member, i.member))
    ensures CompareTo(i, j) == 0 <==> i == j
    ensures Less(i, j) <==> CompareTo(i, j) == -1
  {
    StrLessIs(i.member, j.member);
    StrLessIs(j.member, i.member);
    StrTrichotomy(i.member, j.member);
  }
}
