/** Active expiry: sampling rounds that delete keys past their deadline. */
module Expiry {
  import opened Basics
  import opened Deadlines
  import opened Dicts

  const ACTIVE_EXPIRE_SAMPLE_SIZE := 20
  const ACTIVE_EXPIRE_THRESHOLD := 0.1

  /** The keys `gone` were deleted, each at a time at most t at which it passed the test of active expiry. */
  ghost predicate Dropped(d: DictState, d': DictState, gone: set<string>, t: nat) {
    && d'.store == d.store - gone && d'.expiry == d.expiry - gone && gone <= d.expiry.Keys
    && forall k :: k in gone ==> t > ToInt64(d.expiry[k])
  }

  lemma DroppedTwice(d: DictState, d': DictState, d'': DictState, a: set<string>, b: set<string>, t: nat, t': nat)
    requires Dropped(d, d', a, t) && Dropped(d', d'', b, t') && t <= t'
    ensures Dropped(d, d'', a + b, t')
  {
  }

  lemma DropOne(d: DictState, d': DictState, gone: set<string>, k: string, t: nat, t': nat)
    requires Dropped(d, d', gone, t) && t <= t' && k in d'.expiry && NoOrphans(d') && t' > ToInt64(d'.expiry[k])
    ensures Dropped(d, Delete(d', k), gone + {k}, t')
  {
    DropKeys(d.store, gone, k);
    DropKeys(d.expiry, gone, k);
  }

  lemma Smaller(d: DictState, d': DictState, gone: set<string>, t: nat)
    requires Dropped(d, d', gone, t) && NoOrphans(d)
    ensures NoOrphans(d') && |d'.store| <= |d.store| && |d'.expiry| == |d.expiry| - |gone|
  {
    assert d'.store.Keys == d.store.Keys - gone && d'.expiry.Keys == d.expiry.Keys - gone;
    SizeOfSubset(gone, d.expiry.Keys);
    SizeOfSubset(gone, d.store.Keys);
  }

  /** At most 20 keys with a TTL, all of them if there are no more. */
  ghost predicate Sampled(d: DictState, sample: set<string>) {
    sample <= d.expiry.Keys && |sample| == if |d.expiry| < 20 then |d.expiry| else 20
  }

  /** All keys of the sample whose deadline passed the test already at time `from`. */
  ghost predicate Swept(d: DictState, sample: set<string>, gone: set<string>, from: nat) {
    gone <= sample && forall k :: k in sample && k in d.expiry && from > ToInt64(d.expiry[k]) ==> k in gone
  }

  /** In the middle of a round: the sample so far, and what is left to take from. */
  ghost predicate Sampling(start: DictState, d: DictState, sample: set<string>, remaining: set<string>,
                           gone: set<string>,
                           from: nat, upTo: nat) {
    && Dropped(start, d, gone, upTo) && NoOrphans(start)
    && start.expiry.Keys == sample + remaining && sample !! remaining
    && Swept(start, sample, gone, from) && from <= upTo
  }

  lemma SampleKey(start: DictState, d: DictState, sample: set<string>, remaining: set<string>, gone: set<string>,
                  from: nat, upTo: nat, key: string)
    requires Sampling(start, d, sample, remaining, gone, from, upTo) && key in remaining
    ensures key in d.expiry && d.expiry[key] == start.expiry[key] && key !in gone && key !in sample
  {
  }

  lemma SampleStep(start: DictState, d: DictState, sample: set<string>, remaining: set<string>, gone: set<string>,
                   from: nat, upTo: nat, key: string, now: nat)
    requires Sampling(start, d, sample, remaining, gone, from, upTo) && key in remaining && upTo <= now
    requires key in d.expiry && d.expiry[key] == start.expiry[key] && key !in gone && key !in sample
    ensures if now > ToInt64(d.expiry[key])
            then Sampling(start, Delete(d, key), sample + {key}, remaining - {key}, gone + {key}, from, now)
            else Sampling(start, d, sample + {key}, remaining - {key}, gone, from, now)
  {
    hide ToInt64;
    if now > ToInt64(d.expiry[key]) {
      Smaller(start, d, gone, upTo);
      DropOne(start, d, gone, key, upTo, now);
    }
  }

  lemma AllSeen(all: set<string>, sample: set<string>, remaining: set<string>)
    requires all == sample + remaining && sample !! remaining
    ensures |all| == |sample| + |remaining|
  {
  }

  /** One sampling round over 20 keys with a TTL, or all of them, in any order, reading the clock between `from` and
      `until`: whatever in the sample has expired by `from` is deleted. */
  method Round(d: Dict, from: nat, until: nat)
    returns (upTo: nat, expiredCount: nat, ghost gone: set<string>, ghost sample: set<string>)
    requires NoOrphans(d.State()) && from <= until
    modifies d
    ensures Dropped(old(d.State()), d.State(), gone, upTo) && |gone| == expiredCount && from <= upTo <= until
    ensures Sampled(old(d.State()), sample) && Swept(old(d.State()), sample, gone, from)
  {
    hide Sampling, ToInt64;
    upTo, expiredCount, gone, sample := from, 0, {}, {};
    var sampleCountRemain := ACTIVE_EXPIRE_SAMPLE_SIZE;
    var remaining := d.expiredDictStore.Keys;
    ghost var start := d.State();
    SampleStart(start, from);
    while remaining != {}
      invariant Sampling(start, d.State(), sample, remaining, gone, from, upTo) && upTo <= until
      invariant |gone| == expiredCount && |sample| == ACTIVE_EXPIRE_SAMPLE_SIZE - sampleCountRemain <= 20
      decreases |remaining|
    {
      var key :| key in remaining;
      SampleKey(start, d.State(), sample, remaining, gone, from, upTo, key);
      var expiredTime := d.expiredDictStore[key];
      sampleCountRemain := sampleCountRemain - 1;
      if sampleCountRemain < 0 {
        break;
      }
      var now: nat :| upTo <= now <= until;
      SampleStep(start, d.State(), sample, remaining, gone, from, upTo, key, now);
      if now > ToInt64(expiredTime) {
        var deleted := d.Del(key);
        gone := gone + {key};
        expiredCount := expiredCount + 1;
      }
      sample := sample + {key};
      remaining := remaining - {key};
      upTo := now;
    }
    SampleEnd(start, d.State(), sample, remaining, gone, from, upTo);
  }

  lemma SampleStart(start: DictState, from: nat)
    requires NoOrphans(start)
    ensures Sampling(start, start, {}, start.expiry.Keys, {}, from, from)
  {
    assert start.store - {} == start.store && start.expiry - {} == start.expiry;
  }

  lemma SampleEnd(start: DictState, d: DictState, sample: set<string>, remaining: set<string>, gone: set<string>,
                  from: nat, upTo: nat)
    requires Sampling(start, d, sample, remaining, gone, from, upTo)
    requires |sample| <= 20 && (remaining == {} || |sample| == 20)
    ensures Dropped(start, d, gone, upTo) && from <= upTo
    ensures Sampled(start, sample) && Swept(start, sample, gone, from)
  {
    AllSeen(start.expiry.Keys, sample, remaining);
  }

  /** How a pass ends: from a state `last` a round took a sample, deleted what it found expired there, and that was no
      more than two keys. */
  ghost predicate LastRound(d: DictState, last: DictState, d': DictState, from: nat, sample: set<string>,
                            found: set<string>) {
    && last.expiry.Keys <= d.expiry.Keys && (forall k :: k in last.expiry ==> last.expiry[k] == d.expiry[k])
    && Sampled(last, sample) && Swept(last, sample, found, from) && |found| <= 2
    && d'.expiry == last.expiry - found && d'.store == last.store - found
  }

  /** With no more than 20 TTLs nothing that has expired is left. */
  lemma NothingLeft(d: DictState, last: DictState, d': DictState, from: nat, sample: set<string>, found: set<string>)
    requires LastRound(d, last, d', from, sample, found) && |d.expiry| <= 20
    ensures forall k :: k in d'.expiry ==> from <= ToInt64(d'.expiry[k])
  {
    SizeOfSubset(last.expiry.Keys, d.expiry.Keys);
    SizeOfSubset(sample, last.expiry.Keys);
  }

  /** ActiveDeleteExpiredKeys: rounds until one finds at most two expired keys. It ends, since another round means that
      at least three keys with a TTL went. It deletes only keys that pass its test, and all that pass it in its last
      sample; with no more than 20 TTLs that is all there are. */
  method ActiveDeleteExpiredKeys(d: Dict, from: nat, until: nat)
    returns (ghost gone: set<string>, ghost last: DictState, ghost sample: set<string>, ghost found: set<string>)
    requires NoOrphans(d.State()) && from <= until
    modifies d
    ensures Dropped(old(d.State()), d.State(), gone, until)
    ensures NoOrphans(d.State()) && |d.dictStore| <= |old(d.dictStore)|
    ensures LastRound(old(d.State()), last, d.State(), from, sample, found)
    ensures until < TWO_63 ==>
      forall k :: k in gone ==> old(d.expiredDictStore)[k] < until || old(d.expiredDictStore)[k] >= TWO_63
    ensures |old(d.expiredDictStore)| <= 20 ==>
      forall k :: k in old(d.expiredDictStore) && old(d.expiredDictStore)[k] < from ==> k !in d.dictStore
  {
    hide ToInt64, Swept, Sampled, Dropped, LastRound;
    var upTo: nat := from;
    gone := {};
    ghost var start := d.State();
    NoneDropped(start, from);
    while true
      invariant Dropped(start, d.State(), gone, upTo) && from <= upTo <= until
      decreases |d.expiredDictStore|
    {
      last := d.State();
      Smaller(start, last, gone, upTo);
      var later, expiredCount;
      later, expiredCount, found, sample := Round(d, upTo, until);
      Smaller(last, d.State(), found, later);
      DroppedTwice(start, last, d.State(), gone, found, upTo, later);
      SweptEarlier(last, sample, found, from, upTo);
      if expiredCount as real / ACTIVE_EXPIRE_SAMPLE_SIZE as real <= ACTIVE_EXPIRE_THRESHOLD {
        LastRoundIs(start, last, d.State(), from, sample, gone, found, upTo, later);
        gone, upTo := gone + found, later;
        break;
      }
      gone, upTo := gone + found, later;
    }
    PassDone(start, last, d.State(), from, sample, found, gone, upTo, until);
  }

  lemma NoneDropped(d: DictState, t: nat)
    ensures Dropped(d, d, {}, t)
  {
    assert d.store - {} == d.store && d.expiry - {} == d.expiry;
  }

  lemma LastRoundIs(d: DictState, last: DictState, d': DictState, from: nat, sample: set<string>, gone: set<string>,
                    found: set<string>, t: nat, t': nat)
    requires Dropped(d, last, gone, t) && Dropped(last, d', found, t')
    requires Sampled(last, sample) && Swept(last, sample, found, from) && |found| <= 2
    ensures LastRound(d, last, d', from, sample, found)
  {
  }

  lemma PassDone(d: DictState, last: DictState, d': DictState, from: nat, sample: set<string>, found: set<string>,
                 gone: set<string>, upTo: nat, until: nat)
    requires Dropped(d, d', gone, upTo) && upTo <= until && NoOrphans(d) && LastRound(d, last, d', from, sample, found)
    ensures Dropped(d, d', gone, until) && NoOrphans(d') && |d'.store| <= |d.store|
    ensures until < TWO_63 ==> forall k :: k in gone ==> d.expiry[k] < until || d.expiry[k] >= TWO_63
    ensures |d.expiry| <= 20 ==> forall k :: k in d.expiry && d.expiry[k] < from ==> k !in d'.store
  {
    Smaller(d, d', gone, upTo);
    if until < TWO_63 {
      OnlyExpired(d, d', gone, upTo);
    }
    if |d.expiry| <= 20 {
      NothingLeft(d, last, d', from, sample, found);
      GoneFromStore(d, d', gone, upTo, from);
    }
  }

  lemma SweptEarlier(d: DictState, sample: set<string>, gone: set<string>, from: nat, later: nat)
    requires Swept(d, sample, gone, later) && from <= later
    ensures Swept(d, sample, gone, from)
  {
  }

  lemma GoneFromStore(d: DictState, d': DictState, gone: set<string>, t: nat, from: nat)
    requires Dropped(d, d', gone, t) && forall k :: k in d'.expiry ==> from <= ToInt64(d'.expiry[k])
    ensures forall k :: k in d.expiry && d.expiry[k] < from ==> k !in d'.store
  {
    forall k | k in d.expiry && d.expiry[k] < from ensures k !in d'.store {
      assert k !in gone ==> k in d'.expiry;
    }
  }

  lemma OnlyExpired(d: DictState, d': DictState, gone: set<string>, t: nat)
    requires Dropped(d, d', gone, t) && t < TWO_63
    ensures forall k :: k in gone ==> d.expiry[k] < t || d.expiry[k] >= TWO_63
  {
    forall k | k in gone ensures d.expiry[k] < t || d.expiry[k] >= TWO_63 {
      ActiveTestExact(d.expiry[k], t);
    }
  }

  // ---- what the test of active expiry means -------------------------------------------

  /** The test against the deadline it stands for: right below 2^63, passed at any time from there on. */
  lemma ActiveTestExact(deadline: nat, t: nat)
    requires deadline < TWO_64 && t < TWO_63
    ensures t > ToInt64(deadline) <==> deadline < t || deadline >= TWO_63
  {
  }

  /** A key set to live for 9223372036854775 seconds is live, and yet the next active-expiry pass would delete it. */
  lemma LiveKeyPassesActiveTest(t: nat, d: DictState)
    requires 1_000 <= t < TWO_63 && d == SetState(DictState(map[], map[]), "k", "v", 9223372036854775 * 1000, 0, t)
    ensures !Expired(d, "k", t) && "k" in d.expiry && t > ToInt64(d.expiry["k"])
  {
    assert d.expiry["k"] == t + 9223372036854775 * 1000;
  }

  /** A pass over deadlines below 2^63 cannot be observed. */
  lemma RefinesPass(d: DictState, d': DictState, m: Ideal, gone: set<string>, from: nat, until: nat)
    requires Refines(d, m, from) && from <= until < TWO_63 && NoOrphans(d)
    requires Dropped(d, d', gone, until)
    requires forall k :: k in d.expiry ==> d.expiry[k] < TWO_63
    ensures Refines(d', m, until)
  {
    RefinesLater(d, m, from, until);
    forall k ensures Alike(d', m, k, until) {
      assert Alike(d, m, k, until);
      if k in gone {
        ActiveTestExact(d.expiry[k], until);
      }
    }
  }
}
