/** The dictionary with a value map and an expiry map: lazy expiry on reads, eviction on writes. */
module Dicts {
  import opened Basics
  import opened Deadlines

  datatype Obj = Obj(value: string, lastAccessTime: nat)

  /** The contents of a dictionary as a value. */
  datatype DictState = DictState(store: map<string, Obj>, expiry: map<string, UInt64>)

  /** Every key with a TTL is a stored key. */
  ghost predicate NoOrphans(d: DictState) {
    d.expiry.Keys <= d.store.Keys
  }

  predicate Expired(d: DictState, k: string, t: nat) {
    k in d.expiry && d.expiry[k] <= t
  }

  function Delete(d: DictState, k: string): DictState {
    if k in d.store then DictState(d.store - {k}, d.expiry - {k}) else d
  }

  /** Get at time t: the access time is refreshed, an expired key is deleted on the way. */
  function GetState(d: DictState, k: string, now: nat, t: nat): DictState {
    if k !in d.store then d
    else if Expired(d, k, t) then Delete(d, k)
    else d.(store := d.store[k := d.store[k].(lastAccessTime := now)])
  }

  /** SET below capacity: the old TTL goes, a positive new one is counted from t. */
  function SetState(d: DictState, k: string, v: string, ttlMs: int, now: nat, t: nat): DictState {
    DictState(d.store[k := Obj(v, now)],
              if ttlMs > 0 then d.expiry[k := (t + ttlMs) % TWO_64] else d.expiry - {k})
  }

  // ---- the dictionary against the ideal store -----------------------------------------

  function DeadlineOf(d: DictState, k: string): Option<nat> {
    if k in d.expiry then Some(d.expiry[k]) else None
  }

  /** Key k looks the same in both at time t: gone in both, or there with one value and one deadline. */
  ghost predicate Alike(d: DictState, m: Ideal, k: string, t: nat) {
    if Live(m, k, t)
    then k in d.store && !Expired(d, k, t) && d.store[k].value == m[k].value && DeadlineOf(d, k) == m[k].deadline
    else k in d.store ==> Expired(d, k, t)
  }

  ghost predicate Refines(d: DictState, m: Ideal, t: nat) {
    forall k :: Alike(d, m, k, t)
  }

  /** What is alike stays alike as time goes by. */
  lemma RefinesLater(d: DictState, m: Ideal, t: nat, t': nat)
    requires Refines(d, m, t) && t <= t'
    ensures Refines(d, m, t')
  {
    forall k ensures Alike(d, m, k, t') {
      assert Alike(d, m, k, t);
    }
  }

  /** Deleting keys that are past their deadline cannot be observed. */
  lemma RefinesDelete(d: DictState, m: Ideal, k: string, t: nat)
    requires Refines(d, m, t) && (k in d.store ==> Expired(d, k, t))
    ensures Refines(Delete(d, k), m, t)
  {
    forall q ensures Alike(Delete(d, k), m, q, t) {
      assert Alike(d, m, q, t);
    }
  }

  lemma RefinesGet(d: DictState, m: Ideal, k: string, now: nat, t: nat)
    requires Refines(d, m, t)
    ensures Refines(GetState(d, k, now, t), m, t)
    ensures Live(m, k, t) <==> k in GetState(d, k, now, t).store
    ensures Live(m, k, t) ==>
      && GetState(d, k, now, t).store[k].value == m[k].value
      && DeadlineOf(GetState(d, k, now, t), k) == m[k].deadline
  {
    assert Alike(d, m, k, t);
    if Expired(d, k, t) {
      RefinesDelete(d, m, k, t);
    }
    forall q ensures Alike(GetState(d, k, now, t), m, q, t) {
      assert Alike(d, m, q, t);
    }
  }

  /** The deadline a SET at time t asks for. */
  function DeadlineFor(ttlMs: int, t: nat): Option<nat> {
    if ttlMs > 0 then Some((t + ttlMs) % TWO_64) else None
  }

  lemma RefinesSet(d: DictState, m: Ideal, k: string, v: string, ttlMs: int, now: nat, t: nat)
    requires Refines(d, m, t)
    ensures Refines(SetState(d, k, v, ttlMs, now, t), IdealSet(m, k, v, DeadlineFor(ttlMs, t)), t)
  {
    forall q ensures Alike(SetState(d, k, v, ttlMs, now, t), IdealSet(m, k, v, DeadlineFor(ttlMs, t)), q, t) {
      assert Alike(d, m, q, t);
    }
  }

  // ---- the dictionary object -----------------------------------------------------------

  /** Go's conversion of a float to an integer: towards zero. */
  function Truncate(x: real): int {
    if x >= 0.0 then x.Floor else -((-x).Floor)
  }

  /** The whole part, whatever the sign. */
  lemma TruncateIs(x: real, n: int)
    ensures Truncate(n as real) == n
    ensures x >= 0.0 ==> Truncate(x) as real <= x < Truncate(x) as real + 1.0
    ensures x <= 0.0 ==> Truncate(x) as real - 1.0 < x <= Truncate(x) as real
  {
  }

  lemma DropKeys<V>(m: map<string, V>, gone: set<string>, k: string)
    ensures m - gone - {k} == m - (gone + {k})
  {
  }

  class Dict {
    var dictStore: map<string, Obj>
    var expiredDictStore: map<string, UInt64>
    const maxKeyNumber: int
    const evictionRatio: real

    constructor (maxKeyNumber: int, evictionRatio: real)
      ensures State() == DictState(map[], map[]) && this.maxKeyNumber == maxKeyNumber
      ensures this.evictionRatio == evictionRatio
    {
      this.maxKeyNumber, this.evictionRatio := maxKeyNumber, evictionRatio;
      dictStore, expiredDictStore := map[], map[];
    }

    ghost function State(): DictState
      reads this
    {
      DictState(dictStore, expiredDictStore)
    }

    /** At most MaxKeyNumber keys, or one where that number is not positive. */
    ghost predicate WithinCapacity()
      reads this
    {
      |dictStore| <= if maxKeyNumber < 1 then 1 else maxKeyNumber
    }

    method Del(k: string) returns (r: bool)
      modifies this
      ensures State() == Delete(old(State()), k) && r == (k in old(dictStore))
    {
      if k in dictStore {
        dictStore := dictStore - {k};
        expiredDictStore := expiredDictStore - {k};
        return true;
      }
      r := false;
    }

    method Get(k: string, now: nat, t: nat) returns (r: Option<Obj>)
      modifies this
      ensures State() == GetState(old(State()), k, now, t)
      ensures r == if k in dictStore then Some(dictStore[k]) else None
    {
      r := None;
      if k in dictStore {
        dictStore := dictStore[k := dictStore[k].(lastAccessTime := now)];
        if k in expiredDictStore && expiredDictStore[k] <= t {
          var deleted := Del(k);
          assert dictStore == old(dictStore) - {k};
        } else {
          r := Some(dictStore[k]);
        }
      }
    }

    /** The keys that eviction takes out of a store: as many as the ratio says, or all if that is not positive. */
    ghost predicate EvictedFrom(keys: set<string>, gone: set<string>) {
      var n := Truncate(evictionRatio * maxKeyNumber as real);
      gone <= keys && if n <= 0 then gone == keys else |gone| == if n < |keys| then n else |keys|
    }

    /** Random eviction: at least one key goes, if there is any; all of them go if the count is not positive. */
    method EvictRandom() returns (ghost gone: set<string>)
      modifies this
      ensures dictStore == old(dictStore) - gone && expiredDictStore == old(expiredDictStore) - gone
      ensures EvictedFrom(old(dictStore).Keys, gone)
    {
      var evictCount := Truncate(evictionRatio * maxKeyNumber as real);
      ghost var start := evictCount;
      gone := {};
      var remaining := dictStore.Keys;
      while remaining != {}
        invariant dictStore == old(dictStore) - gone && expiredDictStore == old(expiredDictStore) - gone
        invariant remaining == old(dictStore).Keys - gone && gone <= old(dictStore).Keys
        invariant evictCount == start - |gone| && (start > 0 ==> evictCount > 0)
        decreases |remaining|
      {
        var k :| k in remaining;
        remaining := remaining - {k};
        DropKeys(old(dictStore), gone, k);
        DropKeys(old(expiredDictStore), gone, k);
        var deleted := Del(k);
        gone := gone + {k};
        evictCount := evictCount - 1;
        if evictCount == 0 {
          break;
        }
      }
      SizeOfSubset(gone, old(dictStore).Keys);
    }

    /** Set: room is made first when the store is full. */
    method Set(k: string, obj: Obj) returns (ghost gone: set<string>)
      modifies this
      ensures gone <= old(dictStore).Keys && (|old(dictStore)| < maxKeyNumber ==> gone == {})
      ensures dictStore == (old(dictStore) - gone)[k := obj] && expiredDictStore == old(expiredDictStore) - gone
      ensures old(WithinCapacity()) ==> WithinCapacity()
      ensures |old(dictStore)| >= maxKeyNumber ==> EvictedFrom(old(dictStore).Keys, gone)
    {
      gone := {};
      if |dictStore| >= maxKeyNumber {
        gone := EvictRandom();
      }
      RoomMade(old(dictStore), gone, k, obj);
      dictStore := dictStore[k := obj];
    }

    /** NewObj followed by Set, as the SET command does it. */
    method SetWithTtl(k: string, v: string, ttlMs: int, now: nat, t: nat) returns (ghost gone: set<string>)
      modifies this
      ensures old(NoOrphans(State())) ==> NoOrphans(State())
      ensures old(WithinCapacity()) ==> WithinCapacity()
      ensures gone <= old(dictStore).Keys && (|old(dictStore)| < maxKeyNumber ==> gone == {})
      ensures dictStore == (old(dictStore) - gone)[k := Obj(v, now)]
      ensures expiredDictStore == SetState(old(State()), k, v, ttlMs, now, t).expiry - gone
      ensures |old(dictStore)| < maxKeyNumber ==> State() == SetState(old(State()), k, v, ttlMs, now, t)
      ensures |old(dictStore)| >= maxKeyNumber ==> EvictedFrom(old(dictStore).Keys, gone)
    {
      var obj := Obj(v, now);
      if ttlMs > 0 {
        expiredDictStore := expiredDictStore[k := (t + ttlMs) % TWO_64];
      } else {
        expiredDictStore := expiredDictStore - {k};
      }
      ghost var expiry := expiredDictStore;
      gone := Set(k, obj);
      SetDone(old(dictStore), old(expiredDictStore), expiry, gone, k, obj);
    }
  }

  lemma SetDone(store: map<string, Obj>, expiry: map<string, UInt64>, expiry': map<string, UInt64>, gone: set<string>,
                k: string, obj: Obj)
    requires expiry'.Keys <= expiry.Keys + {k}
    ensures gone == {} ==> (store - gone)[k := obj] == store[k := obj] && expiry' - gone == expiry'
    ensures expiry.Keys <= store.Keys ==> (expiry' - gone).Keys <= (store - gone)[k := obj].Keys
  {
  }

  lemma SizeOfSubset(a: set<string>, b: set<string>)
    requires a <= b
    ensures |a| <= |b| && (|a| == |b| ==> a == b) && |b - a| == |b| - |a|
  {
    assert b == a + (b - a);
    if |a| == |b| {
      assert |b - a| == 0;
    }
  }

  lemma RoomMade(m: map<string, Obj>, gone: set<string>, k: string, obj: Obj)
    requires gone <= m.Keys
    ensures |(m - gone)[k := obj]| <= |m| - |gone| + 1
  {
    assert (m - gone).Keys == m.Keys - gone;
    assert (m - gone)[k := obj].Keys == (m.Keys - gone) + {k};
    SizeOfSubset(gone, m.Keys);
  }
}
