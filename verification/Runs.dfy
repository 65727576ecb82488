/** Whole runs of SET, GET and TTL over one dictionary, with active-expiry passes in between. */
module Runs {
  import opened Basics
  import opened Deadlines
  import opened Dicts
  import opened Expiry
  import opened Executor

  /** A command, or a pass of active expiry that reads the clock between two times. */
  datatype Turn = Do(req: Request, at: Times) | Pass(from: nat, until: nat)

  function EndOf(e: Turn): nat {
    match e
    case Do(_, at) => at.t3
    case Pass(_, until) => until
  }

  /** The clock does not run backwards, from t on, and has not reached 2^63 milliseconds. */
  predicate Timely(e: Turn, t: nat) {
    match e
    case Do(_, at) => t <= at.t1 <= at.t2 <= at.t3 < TWO_63
    case Pass(from, until) => t <= from <= until < TWO_63
  }

  function TimeBefore(events: seq<Turn>, i: nat, t: nat): nat
    requires i <= |events|
  {
    if i == 0 then t else EndOf(events[i - 1])
  }

  ghost predicate Monotone(events: seq<Turn>, t: nat) {
    forall i: nat {:trigger TimeBefore(events, i, t)} :: i < |events| ==> Timely(events[i], TimeBefore(events, i, t))
  }

  function IdealNext(m: Ideal, e: Turn, parse: Parser): Ideal {
    if e.Do? && e.req.SetCmd? then
      match ReadSet(e.req.args, parse, true)
      case Bad(_) => m
      case Good(k, v, ttl) => IdealSet(m, k, v, PromisedDeadline(ttl, e.at.t1))
    else m
  }

  function IdealReply(m: Ideal, req: Request, at: Times, parse: Parser): Reply {
    match req
    case SetCmd(args) =>
      (match ReadSet(args, parse, true)
       case Bad(kind) => Error(kind)
       case Good(_, _, _) => Ok)
    case GetCmd(args) => if |args| != 1 then Error(WrongArgs) else IdealGet(m, args[0], at.t2)
    case TtlCmd(args) => if |args| != 1 then Error(WrongArgs) else IdealTtl(m, args[0], at.t2, at.t3)
  }

  function IdealAnswer(m: Ideal, e: Turn, parse: Parser): seq<Reply> {
    match e
    case Do(req, at) => [IdealReply(m, req, at, parse)]
    case Pass(_, _) => []
  }

  /** The ideal store after the events, and its replies to them; passes do nothing and get none. */
  function IdealAfter(events: seq<Turn>, m: Ideal, parse: Parser): Ideal {
    if events == [] then m
    else IdealNext(IdealAfter(events[..|events| - 1], m, parse), events[|events| - 1], parse)
  }

  function IdealReplies(events: seq<Turn>, m: Ideal, parse: Parser): seq<Reply> {
    if events == [] then []
    else
      var before := events[..|events| - 1];
      IdealReplies(before, m, parse) + IdealAnswer(IdealAfter(before, m, parse), events[|events| - 1], parse)
  }

  // ---- the states of a run -------------------------------------------------------------

  /** What one turn does to the dictionary: a SET may evict only when the store is full, a pass drops what passed its
      test. */
  ghost predicate StepOK(d: DictState, e: Turn, d': DictState, max: int, parse: Parser) {
    match e
    case Pass(_, until) => exists gone: set<string> :: Dropped(d, d', gone, until)
    case Do(SetCmd(args), at) => SetOK(d, ReadSet(args, parse, true), at, d', max)
    case Do(GetCmd(args), at) => d' == if |args| == 1 then GetState(d, args[0], at.now, at.t1) else d
    case Do(TtlCmd(args), at) => d' == if |args| == 1 then GetState(d, args[0], at.now, at.t1) else d
  }

  ghost predicate SetOK(d: DictState, s: SetRequest, at: Times, d': DictState, max: int) {
    match s
    case Bad(_) => d' == d
    case Good(k, v, ttl) =>
      exists gone: set<string> ::
        && gone <= d.store.Keys && (|d.store| < max ==> gone == {}) && d'.store == (d.store - gone)[k := Obj(v, at.now)]
        && d'.expiry == SetState(d, k, v, TtlMs(ttl), at.now, at.t1).expiry - gone
  }

  /** The states before each turn and after the last one. */
  ghost predicate Trace(states: seq<DictState>, events: seq<Turn>, max: int, parse: Parser) {
    && |states| == |events| + 1
    && forall i :: 0 <= i < |events| ==> StepOK(states[i], events[i], states[i + 1], max, parse)
  }

  /** A SET finds room in the store and its TTL survives int64; a pass finds no deadline that int64 cannot hold. */
  ghost predicate Sound(d: DictState, e: Turn, max: int, parse: Parser) {
    match e
    case Do(SetCmd(args), _) =>
      ReadSet(args, parse, true).Good? ==> |d.store| < max && TtlKept(ReadSet(args, parse, true).ttlSec)
    case Do(_, _) => true
    case Pass(_, _) => Bounded(d)
  }

  ghost predicate SoundUpTo(states: seq<DictState>, events: seq<Turn>, n: nat, max: int, parse: Parser)
    requires n <= |states| && n <= |events|
  {
    forall i :: 0 <= i < n ==> Sound(states[i], events[i], max, parse)
  }

  ghost predicate Bounded(d: DictState) {
    forall k :: k in d.expiry ==> d.expiry[k] < TWO_63
  }

  /** The dictionary stands for the ideal store at time t and holds no key that was never set. */
  ghost predicate Mirrors(d: DictState, m: Ideal, t: nat) {
    Refines(d, m, t) && d.store.Keys <= m.Keys
  }

  lemma NoneGone<V>(m: map<string, V>)
    ensures m - {} == m
  {
  }

  lemma SetWithRoom(d: DictState, s: SetRequest, at: Times, d': DictState, max: int)
    requires s.Good? && SetOK(d, s, at, d', max) && |d.store| < max
    ensures d' == SetState(d, s.key, s.value, TtlMs(s.ttlSec), at.now, at.t1)
  {
    var e := SetState(d, s.key, s.value, TtlMs(s.ttlSec), at.now, at.t1).expiry;
    NoneGone(d.store);
    NoneGone(e);
  }

  lemma MirrorsSet(d: DictState, m: Ideal, s: SetRequest, at: Times, t: nat)
    requires Mirrors(d, m, t) && t <= at.t1 <= at.t3 && at.t1 < TWO_63 && s.Good? && TtlKept(s.ttlSec)
    ensures Mirrors(SetState(d, s.key, s.value, TtlMs(s.ttlSec), at.now, at.t1),
                    IdealSet(m, s.key, s.value, PromisedDeadline(s.ttlSec, at.t1)), at.t3)
  {
    DeadlineKept(s.ttlSec, at.t1);
    RefinesLater(d, m, t, at.t1);
    RefinesSet(d, m, s.key, s.value, TtlMs(s.ttlSec), at.now, at.t1);
    RefinesLater(SetState(d, s.key, s.value, TtlMs(s.ttlSec), at.now, at.t1),
                 IdealSet(m, s.key, s.value, PromisedDeadline(s.ttlSec, at.t1)), at.t1, at.t3);
  }

  lemma MirrorsGet(d: DictState, m: Ideal, k: string, at: Times, t: nat)
    requires Mirrors(d, m, t) && t <= at.t1 <= at.t3
    ensures Mirrors(GetState(d, k, at.now, at.t1), m, at.t3)
  {
    RefinesLater(d, m, t, at.t1);
    RefinesGet(d, m, k, at.now, at.t1);
    RefinesLater(GetState(d, k, at.now, at.t1), m, at.t1, at.t3);
  }

  lemma MirrorsPass(d: DictState, d': DictState, m: Ideal, e: Turn, t: nat, max: int, parse: Parser)
    requires Mirrors(d, m, t) && NoOrphans(d) && Bounded(d) && e.Pass? && Timely(e, t) && StepOK(d, e, d', max, parse)
    ensures Mirrors(d', m, e.until)
  {
    var gone :| Dropped(d, d', gone, e.until);
    RefinesLater(d, m, t, e.from);
    RefinesPass(d, d', m, gone, e.from, e.until);
  }

  /** One turn keeps the dictionary and the ideal store together. */
  lemma StepMirrors(d: DictState, e: Turn, d': DictState, m: Ideal, t: nat, max: int, parse: Parser)
    requires NoOrphans(d) && Timely(e, t) && Mirrors(d, m, t) && Sound(d, e, max, parse) && StepOK(d, e, d', max, parse)
    ensures Mirrors(d', IdealNext(m, e, parse), EndOf(e))
  {
    if e.Pass? {
      MirrorsPass(d, d', m, e, t, max, parse);
    } else if !e.req.SetCmd? {
      RefinesLater(d, m, t, e.at.t3);
      if |e.req.args| == 1 {
        MirrorsGet(d, m, e.req.args[0], e.at, t);
      }
    } else {
      var s := ReadSet(e.req.args, parse, true);
      if s.Good? {
        SetWithRoom(d, s, e.at, d', max);
        MirrorsSet(d, m, s, e.at, t);
      } else {
        RefinesLater(d, m, t, e.at.t3);
      }
    }
  }

  // ---- runs ----------------------------------------------------------------------------

  lemma GetKeeps(d: DictState, k: string, now: nat, t: nat)
    requires NoOrphans(d)
    ensures NoOrphans(GetState(d, k, now, t)) && |GetState(d, k, now, t).store| <= |d.store|
  {
    if k in d.store {
      SizeOfSubset({k}, d.store.Keys);
      assert (d.store - {k}).Keys == d.store.Keys - {k};
      assert d.store[k := d.store[k].(lastAccessTime := now)].Keys == d.store.Keys;
    }
  }

  method PerformRead(d: Dict, e: Turn, parse: Parser, ghost m: Ideal, ghost t: nat) returns (r: Reply)
    requires NoOrphans(d.State()) && e.Do? && !e.req.SetCmd? && Timely(e, t)
    modifies d
    ensures NoOrphans(d.State()) && (old(d.WithinCapacity()) ==> d.WithinCapacity())
    ensures StepOK(old(d.State()), e, d.State(), d.maxKeyNumber, parse)
    ensures Mirrors(old(d.State()), m, t) ==> [r] == IdealAnswer(m, e, parse)
  {
    if |e.req.args| == 1 {
      GetKeeps(d.State(), e.req.args[0], e.at.now, e.at.t1);
    }
    if Mirrors(d.State(), m, t) {
      RefinesLater(d.State(), m, t, e.at.t1);
    }
    if e.req.GetCmd? {
      r := CmdGet(d, e.req.args, e.at, m);
    } else {
      r := CmdTtl(d, e.req.args, e.at, m);
    }
  }

  /** Any turn keeps TTLs to stored keys and the store to its capacity, and answers as the ideal store does. */
  method Perform(d: Dict, e: Turn, parse: Parser, ghost m: Ideal, ghost t: nat) returns (answer: seq<Reply>)
    requires NoOrphans(d.State()) && Timely(e, t)
    modifies d
    ensures NoOrphans(d.State()) && (old(d.WithinCapacity()) ==> d.WithinCapacity())
    ensures StepOK(old(d.State()), e, d.State(), d.maxKeyNumber, parse)
    ensures Mirrors(old(d.State()), m, t) ==> answer == IdealAnswer(m, e, parse)
  {
    ghost var gone;
    if e.Pass? {
      ghost var last, sample, found;
      gone, last, sample, found := ActiveDeleteExpiredKeys(d, e.from, e.until);
      return [];
    }
    var r;
    if e.req.SetCmd? {
      r, gone := CmdSet(d, e.req.args, parse, true, e.at);
    } else {
      r := PerformRead(d, e, parse, m, t);
    }
    answer := [r];
  }

  lemma PrefixStep(events: seq<Turn>, i: nat, m: Ideal, parse: Parser)
    requires i < |events|
    ensures IdealAfter(events[..i + 1], m, parse) == IdealNext(IdealAfter(events[..i], m, parse), events[i], parse)
    ensures IdealReplies(events[..i + 1], m, parse) ==
              IdealReplies(events[..i], m, parse) + IdealAnswer(IdealAfter(events[..i], m, parse), events[i], parse)
  {
    assert events[..i + 1][..i] == events[..i];
  }

  /** The first n turns of a run, with the states before and after them and the replies so far. */
  ghost predicate Progress(states: seq<DictState>, events: seq<Turn>, n: nat, replies: seq<Reply>, m: Ideal, t: nat,
                           max: int, parse: Parser) {
    && n <= |events| && |states| == n + 1
    && (forall i :: 0 <= i <= n ==> NoOrphans(states[i]))
    && (forall i :: 0 <= i < n ==> StepOK(states[i], events[i], states[i + 1], max, parse))
    && (Mirrors(states[0], m, t) && SoundUpTo(states, events, n, max, parse) ==>
          && Mirrors(states[n], IdealAfter(events[..n], m, parse), TimeBefore(events, n, t))
          && replies == IdealReplies(events[..n], m, parse))
  }

  lemma ProgressStart(d: DictState, events: seq<Turn>, m: Ideal, t: nat, max: int, parse: Parser)
    requires NoOrphans(d)
    ensures Progress([d], events, 0, [], m, t, max, parse)
  {
  }

  lemma ProgressStep(states: seq<DictState>, events: seq<Turn>, n: nat, replies: seq<Reply>, d: DictState,
                     answer: seq<Reply>,
                     m: Ideal, t: nat, max: int, parse: Parser)
    requires n < |events| && Monotone(events, t) && Progress(states, events, n, replies, m, t, max, parse)
    requires NoOrphans(d) && StepOK(states[n], events[n], d, max, parse)
    requires var mn := IdealAfter(events[..n], m, parse);
             Mirrors(states[n], mn, TimeBefore(events, n, t)) ==> answer == IdealAnswer(mn, events[n], parse)
    ensures Progress(states + [d], events, n + 1, replies + answer, m, t, max, parse)
  {
    hide StepOK, Sound, Mirrors, IdealAfter, IdealReplies;
    PrefixStep(events, n, m, parse);
    var mn, tn, longer := IdealAfter(events[..n], m, parse), TimeBefore(events, n, t), states + [d];
    if Mirrors(states[0], m, t) && SoundUpTo(longer, events, n + 1, max, parse) {
      forall i | 0 <= i < n ensures Sound(states[i], events[i], max, parse) {
        assert Sound(longer[i], events[i], max, parse);
      }
      assert Sound(longer[n], events[n], max, parse);
      StepMirrors(states[n], events[n], d, mn, tn, max, parse);
    }
  }

  /** Whole runs: as long as no SET finds the store full, the replies are those of the ideal store, whatever the passes
      sample and delete. Expired keys that were deleted have made room. */
  method Run(d: Dict, events: seq<Turn>, parse: Parser, ghost m: Ideal, ghost t: nat)
    returns (replies: seq<Reply>, ghost states: seq<DictState>)
    requires NoOrphans(d.State()) && Monotone(events, t)
    modifies d
    ensures NoOrphans(d.State()) && (old(d.WithinCapacity()) ==> d.WithinCapacity())
    ensures Trace(states, events, d.maxKeyNumber, parse) && states[0] == old(d.State()) && states[|events|] == d.State()
    ensures forall i :: 0 <= i <= |events| ==> NoOrphans(states[i])
    ensures Mirrors(old(d.State()), m, t) && SoundUpTo(states, events, |events|, d.maxKeyNumber, parse) ==>
              replies == IdealReplies(events, m, parse)
  {
    hide StepOK, Sound, Mirrors, IdealAfter, IdealReplies;
    replies, states := [], [d.State()];
    ProgressStart(d.State(), events, m, t, d.maxKeyNumber, parse);
    for i := 0 to |events|
      invariant NoOrphans(d.State()) && (old(d.WithinCapacity()) ==> d.WithinCapacity())
      invariant Progress(states, events, i, replies, m, t, d.maxKeyNumber, parse)
      invariant states[0] == old(d.State()) && states[i] == d.State()
    {
      var answer := Perform(d, events[i], parse, IdealAfter(events[..i], m, parse), TimeBefore(events, i, t));
      ProgressStep(states, events, i, replies, d.State(), answer, m, t, d.maxKeyNumber, parse);
      states := states + [d.State()];
      replies := replies + answer;
    }
    assert events[..|events|] == events;
  }

  // ---- a condition on the commands alone -----------------------------------------------

  /** The TTL in milliseconds fits an int64, and so does the deadline. */
  predicate Fits(ttlSec: Option<int>, t: nat) {
    ttlSec.Some? ==> -TWO_63 <= ttlSec.value * 1000 && t + ttlSec.value * 1000 < TWO_63
  }

  lemma FitsKept(ttlSec: Option<int>, t: nat)
    requires Fits(ttlSec, t)
    ensures TtlKept(ttlSec) && (TtlMs(ttlSec) > 0 ==> (t + TtlMs(ttlSec)) % TWO_64 < TWO_63)
  {
    if ttlSec.Some? && ttlSec.value * 1000 < 0 {
      assert (ttlSec.value * 1000) % TWO_64 == ttlSec.value * 1000 + TWO_64;
    }
  }

  /** A SET comes when fewer than `max` keys were ever set, and its TTL and deadline fit an int64. */
  ghost predicate Roomy(m: Ideal, e: Turn, max: int, parse: Parser) {
    e.Do? && e.req.SetCmd? && ReadSet(e.req.args, parse, true).Good? ==>
      |m| < max && Fits(ReadSet(e.req.args, parse, true).ttlSec, e.at.t1)
  }

  ghost predicate AllRoomy(events: seq<Turn>, m: Ideal, max: int, parse: Parser) {
    forall i: nat {:trigger events[..i]} :: i < |events| ==>
      Roomy(IdealAfter(events[..i], m, parse), events[i], max, parse)
  }

  lemma RoomyIsSound(d: DictState, e: Turn, m: Ideal, t: nat, max: int, parse: Parser)
    requires Mirrors(d, m, t) && Bounded(d) && Roomy(m, e, max, parse)
    ensures Sound(d, e, max, parse)
  {
    SizeOfSubset(d.store.Keys, m.Keys);
    if e.Do? && e.req.SetCmd? && ReadSet(e.req.args, parse, true).Good? {
      FitsKept(ReadSet(e.req.args, parse, true).ttlSec, e.at.t1);
    }
  }

  lemma BoundedSet(d: DictState, s: SetRequest, at: Times, d': DictState, max: int)
    requires Bounded(d) && s.Good? && Fits(s.ttlSec, at.t1) && SetOK(d, s, at, d', max)
    ensures Bounded(d')
  {
    FitsKept(s.ttlSec, at.t1);
    var e := SetState(d, s.key, s.value, TtlMs(s.ttlSec), at.now, at.t1).expiry;
    hide ToInt64;
    forall k | k in d'.expiry ensures d'.expiry[k] < TWO_63 {
      assert k in e && d'.expiry[k] == e[k];
    }
  }

  lemma BoundedStep(d: DictState, e: Turn, d': DictState, m: Ideal, max: int, parse: Parser)
    requires Bounded(d) && Roomy(m, e, max, parse) && StepOK(d, e, d', max, parse)
    ensures Bounded(d')
  {
    hide SetOK;
    if e.Do? && e.req.SetCmd? {
      var s := ReadSet(e.req.args, parse, true);
      if s.Good? {
        BoundedSet(d, s, e.at, d', max);
      } else {
        NothingSet(d, s, e.at, d', max);
      }
    }
  }

  lemma NothingSet(d: DictState, s: SetRequest, at: Times, d': DictState, max: int)
    requires s.Bad? && SetOK(d, s, at, d', max)
    ensures d' == d
  {
  }

  /** With few enough keys ever set, no SET of the run finds the store full. */
  lemma {:induction false} RoomyRun(states: seq<DictState>, events: seq<Turn>, n: nat, m: Ideal, t: nat, max: int,
                                    parse: Parser)
    requires Trace(states, events, max, parse) && Monotone(events, t) && n <= |events|
    requires (forall i :: 0 <= i <= |events| ==> NoOrphans(states[i])) && AllRoomy(events, m, max, parse)
    requires Mirrors(states[0], m, t) && Bounded(states[0])
    ensures SoundUpTo(states, events, n, max, parse) && Bounded(states[n])
    ensures Mirrors(states[n], IdealAfter(events[..n], m, parse), TimeBefore(events, n, t))
  {
    if n > 0 {
      hide StepOK, Sound, Mirrors, Bounded, Roomy, IdealAfter;
      var k := n - 1;
      RoomyRun(states, events, k, m, t, max, parse);
      PrefixStep(events, k, m, parse);
      var mk, tk := IdealAfter(events[..k], m, parse), TimeBefore(events, k, t);
      assert StepOK(states[k], events[k], states[k + 1], max, parse);
      RoomyIsSound(states[k], events[k], mk, tk, max, parse);
      BoundedStep(states[k], events[k], states[n], mk, max, parse);
      StepMirrors(states[k], events[k], states[n], mk, tk, max, parse);
    }
  }

  // ---- passes do not show --------------------------------------------------------------

  function WithoutPasses(events: seq<Turn>): seq<Turn> {
    if events == [] then []
    else
      var before := WithoutPasses(events[..|events| - 1]);
      if events[|events| - 1].Pass? then before else before + [events[|events| - 1]]
  }

  lemma {:induction false} IdealWithoutPasses(events: seq<Turn>, m: Ideal, parse: Parser)
    ensures IdealReplies(WithoutPasses(events), m, parse) == IdealReplies(events, m, parse)
    ensures IdealAfter(WithoutPasses(events), m, parse) == IdealAfter(events, m, parse)
  {
    if events != [] {
      IdealWithoutPasses(events[..|events| - 1], m, parse);
      var before, e := WithoutPasses(events[..|events| - 1]), events[|events| - 1];
      assert (before + [e])[..|before|] == before;
    }
  }

  lemma MonotoneInit(events: seq<Turn>, t: nat)
    requires Monotone(events, t) && events != []
    ensures var n := |events| - 1;
            && Monotone(events[..n], t) && Timely(events[n], TimeBefore(events[..n], n, t))
            && TimeBefore(events[..n], n, t) <= EndOf(events[n])
  {
    var n := |events| - 1;
    var before := events[..n];
    assert TimeBefore(before, n, t) == TimeBefore(events, n, t);
    forall i: nat | i < |before| ensures Timely(before[i], TimeBefore(before, i, t)) {
      assert TimeBefore(before, i, t) == TimeBefore(events, i, t);
    }
  }

  lemma MonotoneLast(events: seq<Turn>, e: Turn, t: nat)
    requires Monotone(events, t) && Timely(e, TimeBefore(events, |events|, t))
    ensures Monotone(events + [e], t)
  {
    var longer := events + [e];
    forall i: nat | i < |longer| ensures Timely(longer[i], TimeBefore(longer, i, t)) {
      assert TimeBefore(longer, i, t) == TimeBefore(events, i, t);
    }
  }

  lemma {:induction false} MonotoneWithoutPasses(events: seq<Turn>, t: nat)
    requires Monotone(events, t)
    ensures Monotone(WithoutPasses(events), t)
    ensures TimeBefore(WithoutPasses(events), |WithoutPasses(events)|, t) <= TimeBefore(events, |events|, t)
  {
    if events != [] {
      var n := |events| - 1;
      MonotoneInit(events, t);
      MonotoneWithoutPasses(events[..n], t);
      if events[n].Do? {
        MonotoneLast(WithoutPasses(events[..n]), events[n], t);
      }
    }
  }

  lemma RoomyInit(events: seq<Turn>, m: Ideal, max: int, parse: Parser)
    requires AllRoomy(events, m, max, parse) && events != []
    ensures var n := |events| - 1;
            AllRoomy(events[..n], m, max, parse) && Roomy(IdealAfter(events[..n], m, parse), events[n], max, parse)
  {
    var before := events[..|events| - 1];
    forall i: nat | i < |before| ensures Roomy(IdealAfter(before[..i], m, parse), before[i], max, parse) {
      assert before[..i] == events[..i];
    }
  }

  lemma RoomyLast(events: seq<Turn>, e: Turn, m: Ideal, max: int, parse: Parser)
    requires AllRoomy(events, m, max, parse) && Roomy(IdealAfter(events, m, parse), e, max, parse)
    ensures AllRoomy(events + [e], m, max, parse)
  {
    var longer := events + [e];
    forall i: nat | i < |longer| ensures Roomy(IdealAfter(longer[..i], m, parse), longer[i], max, parse) {
      assert longer[..i] == if i < |events| then events[..i] else events;
    }
  }

  lemma {:induction false} RoomyWithoutPasses(events: seq<Turn>, m: Ideal, max: int, parse: Parser)
    requires AllRoomy(events, m, max, parse)
    ensures AllRoomy(WithoutPasses(events), m, max, parse)
  {
    if events != [] {
      var n := |events| - 1;
      RoomyInit(events, m, max, parse);
      RoomyWithoutPasses(events[..n], m, max, parse);
      IdealWithoutPasses(events[..n], m, parse);
      if events[n].Do? {
        RoomyLast(WithoutPasses(events[..n]), events[n], m, max, parse);
      }
    }
  }

  /** Two dictionaries that stand for the same store, one swept by active expiry anywhere in the run and one not, give
      the same replies, as long as no SET finds either full; in particular if there is room for all keys ever set. */
  method PassesDoNotShow(d: Dict, e: Dict, events: seq<Turn>, parse: Parser, ghost m: Ideal, ghost t: nat)
    returns (swept: seq<Reply>, unswept: seq<Reply>, ghost states: seq<DictState>, ghost others: seq<DictState>)
    requires d != e && d.maxKeyNumber == e.maxKeyNumber && NoOrphans(d.State()) && NoOrphans(e.State())
    requires Monotone(events, t)
    requires Mirrors(d.State(), m, t) && Mirrors(e.State(), m, t)
    modifies d, e
    ensures Trace(states, events, d.maxKeyNumber, parse) && states[0] == old(d.State())
    ensures Trace(others, WithoutPasses(events), d.maxKeyNumber, parse) && others[0] == old(e.State())
    ensures SoundUpTo(states, events, |events|, d.maxKeyNumber, parse) ==>
              SoundUpTo(others, WithoutPasses(events), |WithoutPasses(events)|, d.maxKeyNumber, parse) ==>
              swept == unswept
    ensures old(Bounded(d.State()) && Bounded(e.State())) && AllRoomy(events, m, d.maxKeyNumber, parse) ==>
              swept == unswept
  {
    hide StepOK, Sound, Mirrors, Bounded, Roomy, IdealAfter, IdealReplies;
    ghost var rest := WithoutPasses(events);
    MonotoneWithoutPasses(events, t);
    IdealWithoutPasses(events, m, parse);
    swept, states := Run(d, events, parse, m, t);
    unswept, others := Run(e, WithoutPasses(events), parse, m, t);
    if old(Bounded(d.State()) && Bounded(e.State())) && AllRoomy(events, m, d.maxKeyNumber, parse) {
      RoomyWithoutPasses(events, m, d.maxKeyNumber, parse);
      RoomyRun(states, events, |events|, m, t, d.maxKeyNumber, parse);
      RoomyRun(others, rest, |rest|, m, t, d.maxKeyNumber, parse);
    }
  }

  // ---- what was written is read ----------------------------------------------------------

  /** A SET, well-formed or not, of the key. */
  predicate Sets(e: Turn, k: string) {
    e.Do? && e.req.SetCmd? && |e.req.args| > 0 && e.req.args[0] == k
  }

  /** The key is the same in two stores. */
  ghost predicate SameEntry(m: Ideal, m': Ideal, k: string) {
    (k in m' <==> k in m) && (k in m ==> m'[k] == m[k])
  }

  /** Only a SET of a key changes it. */
  lemma {:induction false} Undisturbed(events: seq<Turn>, m: Ideal, k: string, parse: Parser)
    requires forall i :: 0 <= i < |events| ==> !Sets(events[i], k)
    ensures SameEntry(m, IdealAfter(events, m, parse), k)
  {
    if events != [] {
      Undisturbed(events[..|events| - 1], m, k, parse);
      var e := events[|events| - 1];
      if e.Do? && e.req.SetCmd? {
        ReadSetIs(e.req.args, parse, true);
      }
    }
  }

  lemma {:induction false} IdealConcat(a: seq<Turn>, b: seq<Turn>, m: Ideal, parse: Parser)
    ensures IdealAfter(a + b, m, parse) == IdealAfter(b, IdealAfter(a, m, parse), parse)
  {
    if b == [] {
      assert a + b == a;
    } else {
      var n := |b| - 1;
      IdealConcat(a, b[..n], m, parse);
      assert (a + b)[..|a + b| - 1] == a + b[..n];
    }
  }

  /** The deadline of SET k v EX n at t, if it has one. */
  function Until(args: seq<string>, parse: Parser, t: nat): Option<nat>
    requires Accepts(args, parse, true)
  {
    if |args| == 4 && parse(args[3]).value > 0 then Some(t + 1000 * parse(args[3]).value) else None
  }

  /** After a SET, and until the next one of its key, the key has that value and that deadline. */
  lemma {:induction false} EntryAfterSet(before: seq<Turn>, args: seq<string>, at: Times, between: seq<Turn>, m: Ideal,
                                         parse: Parser)
    requires Accepts(args, parse, true) && forall i :: 0 <= i < |between| ==> !Sets(between[i], args[0])
    ensures var m' := IdealAfter(before + [Do(SetCmd(args), at)] + between, m, parse);
            args[0] in m' && m'[args[0]] == Entry(args[1], Until(args, parse, at.t1))
  {
    var written := before + [Do(SetCmd(args), at)];
    IdealConcat(written, between, m, parse);
    assert written[..|before|] == before;
    ReadSetIs(args, parse, true);
    Undisturbed(between, IdealAfter(written, m, parse), args[0], parse);
  }

  /** What GET and TTL answer, read off the SET alone. */
  function GetReply(v: string, until: Option<nat>, t: nat): Reply {
    if until.Some? && until.value <= t then Nil else Bulk(v)
  }

  function TtlAnswer(until: Option<nat>, measured: nat, t: nat): Reply {
    if until.None? then Integer(-1)
    else if until.value <= t then Integer(-2)
    else Integer((until.value - measured) / 1000)
  }

  lemma {:induction false} LastReply(events: seq<Turn>, req: Request, ask: Times, m: Ideal, parse: Parser)
    ensures IdealReplies(events + [Do(req, ask)], m, parse) ==
              IdealReplies(events, m, parse) + [IdealReply(IdealAfter(events, m, parse), req, ask, parse)]
  {
    assert (events + [Do(req, ask)])[..|events|] == events;
  }

  /** SET k v or SET k v EX n, then anything but a SET of k, then GET k and TTL k: the value as long as the time is
      below the time of the SET plus 1000 n, and the whole seconds up to then. */
  lemma {:induction false} SetThenRead(before: seq<Turn>, args: seq<string>, at: Times, between: seq<Turn>, ask: Times,
                                       m: Ideal, parse: Parser)
    requires Accepts(args, parse, true) && forall i :: 0 <= i < |between| ==> !Sets(between[i], args[0])
    ensures var run := before + [Do(SetCmd(args), at)] + between;
            && IdealReplies(run + [Do(GetCmd([args[0]]), ask)], m, parse) ==
                 IdealReplies(run, m, parse) + [GetReply(args[1], Until(args, parse, at.t1), ask.t2)]
            && IdealReplies(run + [Do(TtlCmd([args[0]]), ask)], m, parse) ==
                 IdealReplies(run, m, parse) + [TtlAnswer(Until(args, parse, at.t1), ask.t2, ask.t3)]
  {
    var run := before + [Do(SetCmd(args), at)] + between;
    EntryAfterSet(before, args, at, between, m, parse);
    hide IdealAfter, IdealReplies;
    LastReply(run, GetCmd([args[0]]), ask, m, parse);
    LastReply(run, TtlCmd([args[0]]), ask, m, parse);
  }

  /** A key that was never set is not there. */
  lemma {:induction false} NeverSet(events: seq<Turn>, k: string, ask: Times, parse: Parser)
    requires forall i :: 0 <= i < |events| ==> !Sets(events[i], k)
    ensures IdealReplies(events + [Do(GetCmd([k]), ask)], map[], parse) == IdealReplies(events, map[], parse) + [Nil]
    ensures IdealReplies(events + [Do(TtlCmd([k]), ask)], map[], parse) ==
              IdealReplies(events, map[], parse) + [Integer(-2)]
  {
    hide IdealAfter, IdealReplies;
    assert k !in IdealAfter(events, map[], parse) by {
      Undisturbed(events, map[], k, parse);
    }
    LastReply(events, GetCmd([k]), ask, map[], parse);
    LastReply(events, TtlCmd([k]), ask, map[], parse);
  }

  /** On the dictionary: the last reply of a run that sets a key, does other things and gets the key. */
  method GetAfterSet(d: Dict, before: seq<Turn>, args: seq<string>, at: Times, between: seq<Turn>, ask: Times,
                     parse: Parser, ghost m: Ideal, ghost t: nat)
    returns (r: Reply, ghost states: seq<DictState>)
    requires Accepts(args, parse, true) && forall i :: 0 <= i < |between| ==> !Sets(between[i], args[0])
    requires NoOrphans(d.State()) && Mirrors(d.State(), m, t)
    requires Monotone(before + [Do(SetCmd(args), at)] + between + [Do(GetCmd([args[0]]), ask)], t)
    modifies d
    ensures var run := before + [Do(SetCmd(args), at)] + between + [Do(GetCmd([args[0]]), ask)];
            && Trace(states, run, d.maxKeyNumber, parse) && states[0] == old(d.State())
            && (SoundUpTo(states, run, |run|, d.maxKeyNumber, parse) ==>
                  r == GetReply(args[1], Until(args, parse, at.t1), ask.t2))
  {
    hide StepOK, Sound, Mirrors, Monotone, IdealAfter, IdealReplies;
    var run := before + [Do(SetCmd(args), at)] + between + [Do(GetCmd([args[0]]), ask)];
    var replies;
    replies, states := Run(d, run, parse, m, t);
    SetThenRead(before, args, at, between, ask, m, parse);
    r := if |replies| > 0 then replies[|replies| - 1] else Nil;
  }
}
