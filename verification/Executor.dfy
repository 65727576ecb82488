/** The SET, GET and TTL commands over one dictionary. */
module Executor {
  import opened Basics
  import opened Deadlines
  import opened Dicts

  // ---- commands ------------------------------------------------------------------------

  /** Go's ParseInt, left open. */
  type Parser = string -> Option<int>

  datatype Request = SetCmd(args: seq<string>) | GetCmd(args: seq<string>) | TtlCmd(args: seq<string>)

  datatype SetRequest = Bad(kind: ErrorKind) | Good(key: string, value: string, ttlSec: Option<int>)

  /** What the arguments of SET ask for; the single-threaded executor insists on the keyword EX, the workers do not. */
  function ReadSet(args: seq<string>, parse: Parser, keyword: bool): SetRequest {
    if |args| < 2 || |args| == 3 || |args| > 4 then Bad(WrongArgs)
    else if |args| == 2 then Good(args[0], args[1], None)
    else if keyword && args[2] != "EX" then Bad(Syntax)
    else match parse(args[3])
      case None => Bad(NotAnInteger)
      case Some(n) => Good(args[0], args[1], Some(n))
  }

  /** The TTL in milliseconds, an int64: -1 for none. */
  function TtlMs(ttlSec: Option<int>): int {
    match ttlSec
    case None => -1
    case Some(n) => ToInt64(n * 1000)
  }

  /** The deadline that SET promises. */
  function PromisedDeadline(ttlSec: Option<int>, t: nat): Option<nat> {
    if ttlSec.Some? && ttlSec.value > 0 then Some(t + ttlSec.value * 1000) else None
  }

  /** The TTL in milliseconds keeps its value as an int64, or at least stays without effect. */
  predicate TtlKept(ttlSec: Option<int>) {
    ttlSec.Some? ==> if ttlSec.value > 0 then ttlSec.value * 1000 < TWO_63 else ToInt64(ttlSec.value * 1000) <= 0
  }

  /** The dictionary keeps the promised deadline exactly if the multiplication by 1000 does no harm. */
  lemma DeadlineKept(ttlSec: Option<int>, t: nat)
    requires t < TWO_63
    ensures DeadlineFor(TtlMs(ttlSec), t) == PromisedDeadline(ttlSec, t) <==> TtlKept(ttlSec)
  {
  }

  /** A negative TTL far enough out of range comes back as a positive one: the key that was to live no time lives on. */
  lemma NegativeTtlWraps(t: nat)
    requires t < TWO_63
    ensures DeadlineFor(TtlMs(Some(-9223372036854776)), t).Some? && PromisedDeadline(Some(-9223372036854776), t) == None
  {
    assert (-9223372036854776 * 1000) % TWO_64 == -9223372036854776 * 1000 + TWO_64;
  }

  /** A positive TTL out of range comes back as a negative one: the key that was to expire lives for ever. */
  lemma PositiveTtlWraps(t: nat)
    ensures DeadlineFor(TtlMs(Some(9223372036854776)), t) == None && PromisedDeadline(Some(9223372036854776), t).Some?
  {
    assert (9223372036854776 * 1000) % TWO_64 == 9223372036854776 * 1000;
  }

  /** The clock readings of one command, in order. */
  datatype Times = Times(now: nat, t1: nat, t2: nat, t3: nat)

  /** A key looks the same in two states. */
  ghost predicate SameKey(d: DictState, d': DictState, k: string) {
    && (k in d'.store <==> k in d.store) && (k in d.store ==> d'.store[k] == d.store[k])
    && (k in d'.expiry <==> k in d.expiry) && (k in d.expiry ==> d'.expiry[k] == d.expiry[k])
  }

  /** The key has the value; without a TTL it has no deadline; if there was room, a TTL of n seconds that int64 can hold
      gives it the deadline t1 + 1000 n, one that is not positive none, and all other keys are as they were. */
  ghost predicate Stored(d: DictState, d': DictState, k: string, v: string, ttlSec: Option<int>, at: Times,
                         room: bool) {
    && k in d'.store && d'.store[k] == Obj(v, at.now)
    && (ttlSec.None? ==> k !in d'.expiry)
    && (room && ttlSec.Some? && 0 < ttlSec.value * 1000 < TWO_63 && at.t1 < TWO_63 ==>
          k in d'.expiry && d'.expiry[k] == at.t1 + 1000 * ttlSec.value)
    && (room && ttlSec.Some? && -TWO_63 <= ttlSec.value * 1000 <= 0 ==> k !in d'.expiry)
    && (room ==> forall q :: q != k ==> SameKey(d, d', q))
  }

  lemma StoredIs(d: DictState, d': DictState, k: string, v: string, ttlSec: Option<int>, at: Times, gone: set<string>,
                 room: bool)
    requires d'.store == (d.store - gone)[k := Obj(v, at.now)] && (room ==> gone == {})
    requires d'.expiry == SetState(d, k, v, TtlMs(ttlSec), at.now, at.t1).expiry - gone
    ensures Stored(d, d', k, v, ttlSec, at, room)
  {
    if ttlSec.Some? {
      var ms := ttlSec.value * 1000;
      if -TWO_63 <= ms < 0 {
        assert ms % TWO_64 == ms + TWO_64;
      }
    }
  }

  /** By its arguments alone: SET k v, or SET k v EX n where n parses. */
  predicate Accepts(args: seq<string>, parse: Parser, keyword: bool) {
    |args| == 2 || (|args| == 4 && (keyword ==> args[2] == "EX") && parse(args[3]).Some?)
  }

  /** What is wrong with the others. */
  function Complaint(args: seq<string>, keyword: bool): ErrorKind {
    if |args| != 2 && |args| != 4 then WrongArgs
    else if |args| == 4 && keyword && args[2] != "EX" then Syntax
    else NotAnInteger
  }

  /** What SET makes of its arguments: the key, the value, and the number after EX. */
  lemma ReadSetIs(args: seq<string>, parse: Parser, keyword: bool)
    ensures ReadSet(args, parse, keyword) ==
              if !Accepts(args, parse, keyword) then Bad(Complaint(args, keyword))
              else if |args| == 2 then Good(args[0], args[1], None)
              else Good(args[0], args[1], Some(parse(args[3]).value))
  {
  }

  /** SET: the first argument is set to the second, with the deadline asked for, or else an error and no change. */
  method CmdSet(d: Dict, args: seq<string>, parse: Parser, keyword: bool, at: Times)
    returns (r: Reply, ghost gone: set<string>)
    modifies d
    ensures old(NoOrphans(d.State())) ==> NoOrphans(d.State())
    ensures old(d.WithinCapacity()) ==> d.WithinCapacity()
    ensures ReadSet(args, parse, keyword).Bad? ==>
      r == Error(ReadSet(args, parse, keyword).kind) && d.State() == old(d.State())
    ensures ReadSet(args, parse, keyword).Good? ==>
      var s := ReadSet(args, parse, keyword);
      && r == Ok && gone <= old(d.dictStore).Keys && (|old(d.dictStore)| < d.maxKeyNumber ==> gone == {})
      && d.dictStore == (old(d.dictStore) - gone)[s.key := Obj(s.value, at.now)]
      && d.expiredDictStore == SetState(old(d.State()), s.key, s.value, TtlMs(s.ttlSec), at.now, at.t1).expiry - gone
      && (|old(d.dictStore)| < d.maxKeyNumber ==>
            d.State() == SetState(old(d.State()), s.key, s.value, TtlMs(s.ttlSec), at.now, at.t1))
    ensures Accepts(args, parse, keyword) && |old(d.dictStore)| >= d.maxKeyNumber ==>
      d.EvictedFrom(old(d.dictStore).Keys, gone)
    ensures !Accepts(args, parse, keyword) ==>
      && r == Error(Complaint(args, keyword))
      && d.dictStore == old(d.dictStore) && d.expiredDictStore == old(d.expiredDictStore)
    ensures Accepts(args, parse, keyword) ==> r == Ok
    ensures Accepts(args, parse, keyword) ==>
      Stored(old(d.State()), d.State(), args[0], args[1], if |args| == 2 then None else parse(args[3]), at,
             |old(d.dictStore)| < d.maxKeyNumber)
  {
    gone := {};
    ReadSetIs(args, parse, keyword);
    if |args| < 2 || |args| == 3 || |args| > 4 {
      return Error(WrongArgs), {};
    }
    var ttlMs := -1;
    if |args| > 2 {
      if keyword && args[2] != "EX" {
        return Error(Syntax), {};
      }
      var ttlSec := parse(args[3]);
      if ttlSec.None? {
        return Error(NotAnInteger), {};
      }
      ttlMs := ToInt64(ttlSec.value * 1000);
    }
    gone := d.SetWithTtl(args[0], args[1], ttlMs, at.now, at.t1);
    StoredIs(old(d.State()), d.State(), args[0], args[1], if |args| == 2 then None else parse(args[3]), at, gone,
             |old(d.dictStore)| < d.maxKeyNumber);
    r := Ok;
  }

  /** A read deletes a key past its deadline at t1 from both maps, or else notes the access; it touches no other key. */
  ghost predicate Visited(d: DictState, d': DictState, k: string, at: Times) {
    && (forall q :: q != k ==> SameKey(d, d', q))
    && (k in d'.store <==> k in d.store && (k in d.expiry ==> at.t1 < d.expiry[k]))
    && (k in d'.store ==> d'.store[k] == Obj(d.store[k].value, at.now))
    && (k in d'.store ==> (k in d'.expiry <==> k in d.expiry) && (k in d.expiry ==> d'.expiry[k] == d.expiry[k]))
    && (k in d.store && k !in d'.store ==> k !in d'.expiry)
  }

  lemma VisitedIs(d: DictState, k: string, at: Times)
    ensures Visited(d, GetState(d, k, at.now, at.t1), k, at)
  {
  }

  /** GET answers for the second time it reads the clock. */
  method CmdGet(d: Dict, args: seq<string>, at: Times, ghost m: Ideal) returns (r: Reply)
    requires at.t1 <= at.t2
    modifies d
    ensures d.State() == if |args| == 1 then GetState(old(d.State()), args[0], at.now, at.t1) else old(d.State())
    ensures |args| != 1 ==> r == Error(WrongArgs)
    ensures |args| == 1 ==> Visited(old(d.State()), d.State(), args[0], at)
    ensures |args| == 1 ==>
      r == if args[0] in d.dictStore && !Expired(d.State(), args[0], at.t2)
           then Bulk(d.dictStore[args[0]].value) else Nil
    ensures |args| == 1 ==>
      r == if args[0] in old(d.dictStore)
                && (args[0] in old(d.expiredDictStore) ==> at.t2 < old(d.expiredDictStore)[args[0]])
           then Bulk(old(d.dictStore)[args[0]].value) else Nil
    ensures |args| == 1 && Refines(old(d.State()), m, at.t1) ==> r == IdealGet(m, args[0], at.t2)
  {
    if |args| != 1 {
      return Error(WrongArgs);
    }
    var key := args[0];
    VisitedIs(d.State(), key, at);
    if Refines(d.State(), m, at.t1) {
      RefinesGet(d.State(), m, key, at.now, at.t1);
    }
    var obj := d.Get(key, at.now, at.t1);
    if obj.None? {
      return Nil;
    }
    if key in d.expiredDictStore && d.expiredDictStore[key] <= at.t2 {
      return Nil;
    }
    r := Bulk(obj.value.value);
  }

  /** The answer of TTL from the state it finds: -2 for a key that is not there at t, -1 for one without a deadline, or
      else the whole seconds from `measured` to the deadline. */
  function SecondsLeft(d: DictState, k: string, measured: nat, t: nat): int {
    if k !in d.store then -2
    else if k !in d.expiry then -1
    else if d.expiry[k] <= t then -2
    else (d.expiry[k] - measured) / 1000
  }

  /** TTL measures at the second time it reads the clock and answers for the third. */
  method CmdTtl(d: Dict, args: seq<string>, at: Times, ghost m: Ideal) returns (r: Reply)
    requires at.t1 <= at.t2 <= at.t3
    modifies d
    ensures d.State() == if |args| == 1 then GetState(old(d.State()), args[0], at.now, at.t1) else old(d.State())
    ensures |args| != 1 ==> r == Error(WrongArgs)
    ensures |args| == 1 ==> Visited(old(d.State()), d.State(), args[0], at)
    ensures |args| == 1 ==> r == Integer(SecondsLeft(old(d.State()), args[0], at.t2, at.t3))
    ensures |args| == 1 && Refines(old(d.State()), m, at.t1) ==> r == IdealTtl(m, args[0], at.t2, at.t3)
  {
    if |args| != 1 {
      return Error(WrongArgs);
    }
    var key := args[0];
    VisitedIs(d.State(), key, at);
    if Refines(d.State(), m, at.t1) {
      RefinesGet(d.State(), m, key, at.now, at.t1);
    }
    var obj := d.Get(key, at.now, at.t1);
    if obj.None? {
      return Integer(-2);
    }
    if key !in d.expiredDictStore {
      return Integer(-1);
    }
    var exp := d.expiredDictStore[key];
    var remainMs := (exp - at.t2) % TWO_64;
    if exp <= at.t3 {
      return Integer(-2);
    }
    r := Integer(ToInt64(remainMs / 1000));
  }
}
