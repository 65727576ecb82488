/** The pool of eviction candidates: the keys with the oldest access times seen so far, oldest first. */
module LruPools {
  import opened Basics
  import opened Permutations

  datatype Candidate = Candidate(key: string, lastAccessTime: nat)

  predicate OldestFirst(pool: seq<Candidate>) {
    forall i, j :: 0 <= i < j < |pool| ==> pool[i].lastAccessTime <= pool[j].lastAccessTime
  }

  predicate UniqueKeys(pool: seq<Candidate>) {
    forall i, j :: 0 <= i < j < |pool| ==> pool[i].key != pool[j].key
  }

  predicate HasKey(pool: seq<Candidate>, key: string) {
    exists i :: 0 <= i < |pool| && pool[i].key == key
  }

  function Replaced(pool: seq<Candidate>, c: Candidate): seq<Candidate> {
    seq(|pool|, i requires 0 <= i < |pool| => if pool[i].key == c.key then c else pool[i])
  }

  /** The pool with the candidate in the place of the one with its key, or else at the end. */
  function Entered(pool: seq<Candidate>, c: Candidate): seq<Candidate> {
    if HasKey(pool, c.key) then Replaced(pool, c) else pool + [c]
  }

  function Times(pool: seq<Candidate>): seq<nat> {
    seq(|pool|, i requires 0 <= i < |pool| => pool[i].lastAccessTime)
  }

  // ---- sorting -------------------------------------------------------------------------

  function Inserted(pool: seq<Candidate>, c: Candidate): seq<Candidate> {
    if pool == [] || c.lastAccessTime <= pool[0].lastAccessTime then [c] + pool else [pool[0]] + Inserted(pool[1..], c)
  }

  lemma {:induction false} InsertedContents(pool: seq<Candidate>, c: Candidate)
    ensures multiset(Inserted(pool, c)) == multiset(pool) + multiset{c}
  {
    if pool != [] && c.lastAccessTime > pool[0].lastAccessTime {
      InsertedContents(pool[1..], c);
      assert pool == [pool[0]] + pool[1..];
    }
  }

  lemma {:induction false} InsertedSorted(pool: seq<Candidate>, c: Candidate)
    requires OldestFirst(pool)
    ensures OldestFirst(Inserted(pool, c))
  {
    if pool != [] && c.lastAccessTime > pool[0].lastAccessTime {
      var rest := Inserted(pool[1..], c);
      InsertedSorted(pool[1..], c);
      assert rest[0] == c || (|pool| > 1 && rest[0] == pool[1]);
    }
  }

  /** Stands for sort.Sort: the pool relies on the contract alone, so on any order with the oldest first. */
  method Sort(pool: seq<Candidate>) returns (r: seq<Candidate>)
    ensures multiset(r) == multiset(pool) && OldestFirst(r)
  {
    r := pool;
    var n := 0;
    while n < |r|
      invariant n <= |r| == |pool| && multiset(r) == multiset(pool) && OldestFirst(r[..n])
    {
      var before, c, after := r[..n], r[n], r[n + 1..];
      InsertedSorted(before, c);
      InsertedContents(before, c);
      assert r == before + [c] + after;
      var sorted := Inserted(before, c);
      r := sorted + after;
      assert multiset(r) == multiset(sorted) + multiset(after);
      n := n + 1;
      assert |sorted| == |multiset(sorted)| == n;
      assert r[..n] == sorted;
    }
    assert r[..n] == r;
  }

  lemma {:induction false} Twice<T>(s: seq<T>, x: T) returns (i: nat, j: nat)
    requires multiset(s)[x] >= 2
    ensures i < j < |s| && s[i] == x == s[j]
  {
    var n := |s| - 1;
    assert s == s[..n] + [s[n]];
    if s[n] == x {
      assert x in s[..n];
      i :| 0 <= i < n && s[i] == x;
      j := n;
    } else {
      i, j := Twice(s[..n], x);
    }
  }

  /** Keys that are unique stay so in any other order. */
  lemma UniqueInAnyOrder(s: seq<Candidate>, r: seq<Candidate>)
    requires UniqueKeys(s) && multiset(r) == multiset(s)
    ensures UniqueKeys(r)
  {
    forall i, j | 0 <= i < j < |r| ensures r[i].key != r[j].key {
      if r[i].key == r[j].key {
        assert r[i] in multiset(s) && r[j] in multiset(s);
        if r[i] == r[j] {
          assert r == r[..j] + [r[j]] + r[j + 1..];
          assert r[i] in r[..j];
          var a, b := Twice(s, r[i]);
        }
      }
    }
  }

  lemma EnteredUnique(pool: seq<Candidate>, c: Candidate)
    requires UniqueKeys(pool)
    ensures UniqueKeys(Entered(pool, c))
  {
  }

  /** The candidate is in, the one with its key is out, and all others stay. */
  lemma EnteredContents(pool: seq<Candidate>, c: Candidate)
    ensures c in Entered(pool, c) && |Entered(pool, c)| == if HasKey(pool, c.key) then |pool| else |pool| + 1
    ensures forall d: Candidate :: d.key != c.key ==> (d in Entered(pool, c) <==> d in pool)
  {
    var r := Entered(pool, c);
    if HasKey(pool, c.key) {
      var i :| 0 <= i < |pool| && pool[i].key == c.key;
      assert r[i] == c;
      forall d: Candidate | d.key != c.key ensures d in r <==> d in pool {
        if j :| 0 <= j < |pool| && pool[j] == d {
          assert r[j] == d;
        }
      }
    } else {
      assert r[|pool|] == c;
    }
  }

  lemma SameElements(entered: seq<Candidate>, pool: seq<Candidate>, dropped: seq<Candidate>)
    requires multiset(pool) + multiset(dropped) == multiset(entered)
    ensures forall c :: c in pool + dropped <==> c in entered
    ensures |pool| + |dropped| == |entered|
  {
    assert multiset(pool + dropped) == multiset(entered);
    forall c ensures c in pool + dropped <==> c in entered {
      assert c in pool + dropped <==> c in multiset(pool + dropped);
      assert c in entered <==> c in multiset(entered);
    }
    assert |pool + dropped| == |multiset(pool + dropped)| == |entered|;
  }

  // ---- the oldest times ----------------------------------------------------------------

  predicate Ascending(ts: seq<nat>) {
    forall i, j :: 0 <= i < j < |ts| ==> ts[i] <= ts[j]
  }

  function InsertTime(ts: seq<nat>, t: nat): seq<nat> {
    if ts == [] || t <= ts[0] then [t] + ts else [ts[0]] + InsertTime(ts[1..], t)
  }

  /** All times in ascending order. */
  function SortTimes(ts: seq<nat>): seq<nat> {
    if ts == [] then [] else InsertTime(SortTimes(ts[..|ts| - 1]), ts[|ts| - 1])
  }

  function Oldest(ts: seq<nat>, max: nat): seq<nat> {
    if |ts| <= max then ts else ts[..max]
  }

  lemma {:induction false} InsertTimeContents(ts: seq<nat>, t: nat)
    ensures multiset(InsertTime(ts, t)) == multiset(ts) + multiset{t} && |InsertTime(ts, t)| == |ts| + 1
  {
    if ts != [] && t > ts[0] {
      InsertTimeContents(ts[1..], t);
      assert ts == [ts[0]] + ts[1..];
    }
  }

  lemma {:induction false} InsertTimeAscending(ts: seq<nat>, t: nat)
    requires Ascending(ts)
    ensures Ascending(InsertTime(ts, t)) && |InsertTime(ts, t)| == |ts| + 1
  {
    if ts != [] && t > ts[0] {
      var rest := InsertTime(ts[1..], t);
      InsertTimeAscending(ts[1..], t);
      assert rest[0] == t || (|ts| > 1 && rest[0] == ts[1]);
    }
  }

  lemma {:induction false} SortTimesAscending(ts: seq<nat>)
    ensures Ascending(SortTimes(ts))
  {
    if ts != [] {
      SortTimesAscending(ts[..|ts| - 1]);
      InsertTimeAscending(SortTimes(ts[..|ts| - 1]), ts[|ts| - 1]);
    }
  }

  lemma {:induction false} SortTimesContents(ts: seq<nat>)
    ensures multiset(SortTimes(ts)) == multiset(ts)
  {
    if ts != [] {
      var rest, t := ts[..|ts| - 1], ts[|ts| - 1];
      SortTimesContents(rest);
      InsertTimeContents(SortTimes(rest), t);
      assert ts == rest + [t];
    }
  }

  lemma SameTails<T>(a: seq<T>, b: seq<T>)
    requires multiset(a) == multiset(b) && a != [] && b != [] && a[0] == b[0]
    ensures multiset(a[1..]) == multiset(b[1..])
  {
    SameWithout(a, b, 0, 0);
    assert a[..0] + a[1..] == a[1..] && b[..0] + b[1..] == b[1..];
  }

  lemma HeadAndTail<T>(a: seq<T>, b: seq<T>)
    requires a != [] && b != [] && a[0] == b[0] && a[1..] == b[1..]
    ensures a == b
  {
    assert a == [a[0]] + a[1..];
  }

  lemma LeastFirst(a: seq<nat>, b: seq<nat>)
    requires Ascending(a) && Ascending(b) && multiset(a) == multiset(b) && a != [] && b != []
    ensures a[0] == b[0]
  {
    assert a[0] in multiset(b) && b[0] in multiset(a);
  }

  /** There is one ascending order. */
  lemma {:induction false} AscendingUnique(a: seq<nat>, b: seq<nat>)
    requires Ascending(a) && Ascending(b) && multiset(a) == multiset(b)
    ensures a == b
  {
    SameSize(a, b);
    if a != [] {
      LeastFirst(a, b);
      SameTails(a, b);
      AscendingUnique(a[1..], b[1..]);
      HeadAndTail(a, b);
    }
  }

  lemma TimesWithout(s: seq<Candidate>, i: nat)
    requires i < |s|
    ensures multiset(Times(s)) == multiset(Times(s[..i] + s[i + 1..])) + multiset{s[i].lastAccessTime}
  {
    var ts := Times(s);
    assert ts == ts[..i] + [ts[i]] + ts[i + 1..];
    assert Times(s[..i] + s[i + 1..]) == ts[..i] + ts[i + 1..];
  }

  lemma {:induction false} TimesInAnyOrder(r: seq<Candidate>, s: seq<Candidate>)
    requires multiset(r) == multiset(s)
    ensures multiset(Times(r)) == multiset(Times(s))
    decreases |r|
  {
    SameSize(r, s);
    if r != [] {
      var i := Found(r, s, 0);
      SameWithout(r, s, 0, i);
      TimesInAnyOrder(r[..0] + r[1..], s[..i] + s[i + 1..]);
      TimesWithout(r, 0);
      TimesWithout(s, i);
    }
  }

  /** Sorting a pool with one more candidate puts its time in its place among the others. */
  lemma EnteredTimes(pool: seq<Candidate>, c: Candidate, r: seq<Candidate>)
    requires OldestFirst(pool) && OldestFirst(r) && multiset(r) == multiset(pool + [c])
    ensures Times(r) == InsertTime(Times(pool), c.lastAccessTime)
  {
    TimesInAnyOrder(r, pool + [c]);
    assert Times(pool + [c]) == Times(pool) + [c.lastAccessTime];
    InsertTimeAscending(Times(pool), c.lastAccessTime);
    InsertTimeContents(Times(pool), c.lastAccessTime);
    AscendingUnique(Times(r), InsertTime(Times(pool), c.lastAccessTime));
  }

  /** Forgetting the newest times before an insertion loses nothing of the oldest after it. */
  lemma {:induction false} OldestInsert(ts: seq<nat>, t: nat, max: nat)
    requires Ascending(ts)
    ensures Oldest(InsertTime(Oldest(ts, max), t), max) == Oldest(InsertTime(ts, t), max)
  {
    InsertTimeAscending(ts, t);
    if |ts| > max {
      InsertTimeAscending(ts[..max], t);
      if max > 0 && t > ts[0] {
        OldestInsert(ts[1..], t, max - 1);
        assert ts[..max][1..] == ts[1..][..max - 1];
      }
    }
  }

  lemma OldestNext(ts: seq<nat>, i: nat, max: nat)
    requires i < |ts|
    ensures Oldest(SortTimes(ts[..i + 1]), max) == Oldest(InsertTime(Oldest(SortTimes(ts[..i]), max), ts[i]), max)
  {
    SortTimesAscending(ts[..i]);
    OldestInsert(SortTimes(ts[..i]), ts[i], max);
    assert ts[..i + 1][..i] == ts[..i];
  }

  lemma NotThere(candidates: seq<Candidate>, i: nat, pool: seq<Candidate>)
    requires i < |candidates| && UniqueKeys(candidates) && forall c :: c in pool ==> c in candidates[..i]
    ensures !HasKey(pool, candidates[i].key)
  {
    forall j | 0 <= j < |pool| ensures pool[j].key != candidates[i].key {
      assert pool[j] in candidates[..i];
    }
  }

  lemma FromThere(candidates: seq<Candidate>, i: nat, pool: seq<Candidate>, pool': seq<Candidate>,
                  dropped: seq<Candidate>)
    requires i < |candidates| && forall c :: c in pool ==> c in candidates[..i]
    requires multiset(pool') + multiset(dropped) == multiset(pool + [candidates[i]])
    ensures forall c :: c in pool' ==> c in candidates[..i + 1]
  {
    forall c | c in pool' ensures c in candidates[..i + 1] {
      assert c in multiset(pool') + multiset(dropped);
      assert c in pool + [candidates[i]];
    }
  }

  // ---- the pool ------------------------------------------------------------------------

  class LruEvictionPool {
    var pool: seq<Candidate>
    const maxSize: nat

    predicate Valid()
      reads this
    {
      OldestFirst(pool) && UniqueKeys(pool) && |pool| <= maxSize
    }

    constructor (maxSize: nat)
      ensures Valid() && pool == [] && this.maxSize == maxSize
    {
      this.maxSize := maxSize;
      pool := [];
    }

    /** The candidate enters in its key's place, and at most one leaves: the newest, when there are too many. */
    method Push(key: string, lastAccessTime: nat) returns (ghost dropped: seq<Candidate>)
      requires Valid()
      modifies this
      ensures Valid()
      ensures multiset(pool) + multiset(dropped) == multiset(Entered(old(pool), Candidate(key, lastAccessTime)))
      ensures |dropped| == if |old(pool)| == maxSize && !HasKey(old(pool), key) then 1 else 0
      ensures dropped != [] ==> forall i :: 0 <= i < |pool| ==> pool[i].lastAccessTime <= dropped[0].lastAccessTime
      ensures !HasKey(old(pool), key) ==> Times(pool) == Oldest(InsertTime(Times(old(pool)), lastAccessTime), maxSize)
      ensures HasKey(old(pool), key) ==> Candidate(key, lastAccessTime) in pool && |pool| == |old(pool)|
      ensures Candidate(key, lastAccessTime) in pool + dropped
      ensures forall c: Candidate :: c.key != key ==> (c in pool + dropped <==> c in old(pool))
    {
      var newItem := Candidate(key, lastAccessTime);
      var exist := false;
      var entered := pool;
      for i := 0 to |entered|
        invariant |entered| == |pool| && pool == old(pool)
        invariant exist <==> exists j :: 0 <= j < i && pool[j].key == key
        invariant forall j :: 0 <= j < |pool| ==> entered[j] == if j < i && pool[j].key == key then newItem else pool[j]
      {
        if entered[i].key == key {
          exist := true;
          entered := entered[i := newItem];
        }
      }
      if !exist {
        entered := entered + [newItem];
      }
      assert entered == Entered(pool, newItem);
      EnteredUnique(pool, newItem);
      EnteredContents(pool, newItem);
      dropped := SortAndCut(newItem, entered);
      SameElements(entered, pool, dropped);
    }

    method SortAndCut(c: Candidate, entered: seq<Candidate>) returns (ghost dropped: seq<Candidate>)
      requires Valid() && entered == Entered(pool, c) && UniqueKeys(entered)
      modifies this
      ensures Valid() && multiset(pool) + multiset(dropped) == multiset(entered)
      ensures |dropped| == if |old(pool)| == maxSize && !HasKey(old(pool), c.key) then 1 else 0
      ensures dropped != [] ==> forall i :: 0 <= i < |pool| ==> pool[i].lastAccessTime <= dropped[0].lastAccessTime
      ensures !HasKey(old(pool), c.key) ==>
        Times(pool) == Oldest(InsertTime(Times(old(pool)), c.lastAccessTime), maxSize)
    {
      var sorted := Sort(entered);
      UniqueInAnyOrder(entered, sorted);
      assert |sorted| == |multiset(sorted)| == |multiset(entered)| == |entered|;
      if !HasKey(pool, c.key) {
        EnteredTimes(pool, c, sorted);
      }
      dropped := [];
      pool := sorted;
      if |pool| > maxSize {
        var lastIndex := |pool| - 1;
        dropped := pool[lastIndex..];
        assert pool == pool[..lastIndex] + dropped;
        pool := pool[..lastIndex];
        assert Times(pool) == Times(sorted)[..lastIndex];
      }
    }

    /** The oldest candidate, taken out. */
    method Pop() returns (r: Option<Candidate>)
      requires Valid()
      modifies this
      ensures Valid() && (r.None? <==> old(pool) == [])
      ensures r.Some? ==> old(pool) == [r.value] + pool
      ensures r.Some? ==> forall i :: 0 <= i < |pool| ==> r.value.lastAccessTime <= pool[i].lastAccessTime
    {
      if |pool| == 0 {
        return None;
      }
      var oldestItem := pool[0];
      pool := pool[1..];
      r := Some(oldestItem);
    }

    /** Pushing candidates with different keys one after the other leaves the `maxSize` oldest of all their times. */
    method PushAll(candidates: seq<Candidate>)
      requires Valid() && pool == [] && UniqueKeys(candidates)
      modifies this
      ensures Valid() && Times(pool) == Oldest(SortTimes(Times(candidates)), maxSize)
      ensures forall c :: c in pool ==> c in candidates
    {
      for i := 0 to |candidates|
        invariant Valid() && Times(pool) == Oldest(SortTimes(Times(candidates)[..i]), maxSize)
        invariant forall c :: c in pool ==> c in candidates[..i]
      {
        ghost var before, c, ts := pool, candidates[i], Times(candidates);
        NotThere(candidates, i, before);
        ghost var dropped := Push(candidates[i].key, candidates[i].lastAccessTime);
        OldestNext(ts, i, maxSize);
        FromThere(candidates, i, before, pool, dropped);
      }
      assert Times(candidates)[..|candidates|] == Times(candidates);
    }
  }
}
