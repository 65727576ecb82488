/** The workers together are one sequential store: routing, private dictionaries and linearizability. */
module Linear {
  import opened Basics
  import opened Deadlines
  import opened Dicts
  import opened Executor
  import opened Protocol
  import opened Delivery

  // ---- routing -------------------------------------------------------------------------

  predicate AtWorker(stage: Stage) {
    stage.Queued? || stage.Running? || stage.Rechecking? || stage.Sending?
  }

  ghost predicate RouteOK(c: Config, s: State, id: nat)
    requires ConfigOK(c) && id < |s.tasks|
  {
    AtWorker(s.tasks[id].stage) ==> Routed(c, s.tasks[id].cmd, s.tasks[id].stage.w)
  }

  ghost predicate Private(c: Config, s: State, w: nat)
    requires ConfigOK(c) && w < |s.dicts|
  {
    forall k :: k in s.dicts[w].store || k in s.dicts[w].expiry ==> Partition(c, k) == w
  }

  /** Tasks are with the worker of their key, and a dictionary holds only keys of its own worker. */
  ghost predicate Sharded(c: Config, s: State)
    requires ConfigOK(c)
  {
    && (forall id: nat :: id < |s.tasks| ==> RouteOK(c, s, id))
    && (forall w: nat :: w < |s.dicts| ==> Private(c, s, w))
  }

  /** A command touches no key but its first argument, except to evict. */
  lemma ExecuteKeys(c: Config, d: DictState, cmd: Command, now: nat, t: nat, gone: set<string>, k: string)
    ensures var d' := Execute(c, d, cmd, now, t, gone).0;
            k in d'.store || k in d'.expiry ==> k in d.store || k in d.expiry || (|cmd.args| > 0 && k == cmd.args[0])
  {
  }

  lemma ShardedStep(c: Config, s: State, a: Action)
    requires ConfigOK(c) && Placed(c, s) && Enabled(c, s, a) && Sharded(c, s)
    ensures Sharded(c, Apply(c, s, a))
  {
    var s' := Apply(c, s, a);
    if a.Start? || a.Recheck? {
      assert WorkerOK(s, a.w) && RouteOK(c, s, s.workers[a.w].id);
    } else if a.Dispatch? {
      assert HandlerOK(s, a.h);
    } else if a.Take? {
      assert QueueOK(s, a.w);
    }
    forall id: nat | id < |s'.tasks| ensures RouteOK(c, s', id) { assert id < |s.tasks| ==> RouteOK(c, s, id); }
    forall w: nat | w < |s'.dicts| ensures Private(c, s', w) {
      assert Private(c, s, w);
      if a.Start? && w == a.w {
        forall k | k in s'.dicts[w].store || k in s'.dicts[w].expiry ensures Partition(c, k) == w {
          ExecuteKeys(c, s.dicts[w], s.tasks[s.workers[w].id].cmd, a.now, s.clock, a.gone, k);
        }
      }
    }
  }

  lemma {:induction false} ReachableSharded(c: Config, states: seq<State>, run: seq<Action>, n: nat)
    requires Behaviour(c, states, run) && n <= |run|
    ensures Sharded(c, states[n])
  {
    if n > 0 {
      ReachableSharded(c, states, run, n - 1);
      Reachable(c, states, run, n - 1);
      assert StepAt(c, states, run, n - 1);
      ShardedStep(c, states[n - 1], run[n - 1]);
    }
  }

  /** In every reachable state, under any eviction, a key is in no dictionary but that of the worker it hashes to. */
  lemma OneHome(c: Config, states: seq<State>, run: seq<Action>, n: nat, k: string, w: nat)
    requires Behaviour(c, states, run) && n <= |run| && w < |states[n].dicts|
    requires k in states[n].dicts[w].store || k in states[n].dicts[w].expiry
    ensures w == c.hash(k) % c.numWorkers
  {
    ReachableSharded(c, states, run, n);
    assert Private(c, states[n], w);
  }

  // ---- one sequential store ------------------------------------------------------------

  /** What a single sequential store replies to a command at time t. */
  function SpecReply(c: Config, m: Ideal, cmd: Command, t: nat): Reply {
    if cmd.name == "SET" then
      match ReadSet(cmd.args, c.parse, false)
      case Bad(kind) => Error(kind)
      case Good(_, _, _) => Ok
    else if cmd.name == "GET" then
      if |cmd.args| != 1 then Error(WrongArgs) else IdealGet(m, cmd.args[0], t)
    else if cmd.name == "PING" then Ping(cmd.args)
    else Error(UnknownCommand)
  }

  /** A SET stores its key after evicting some; if it evicts its own key, the new TTL is lost with the old value. */
  function SpecNext(c: Config, m: Ideal, cmd: Command, t: nat, gone: set<string>): Ideal {
    if cmd.name == "SET" then
      match ReadSet(cmd.args, c.parse, false)
      case Bad(_) => m
      case Good(k, v, ttl) => IdealSet(m - gone, k, v, if k in gone then None else DeadlineFor(TtlMs(ttl), t))
    else m
  }

  /** With nothing evicted, SET does to the store just what it says. */
  lemma SpecNextWithRoom(c: Config, m: Ideal, cmd: Command, t: nat)
    requires Stores(c, cmd)
    ensures var s := ReadSet(cmd.args, c.parse, false);
            SpecNext(c, m, cmd, t, {}) == IdealSet(m, s.key, s.value, DeadlineFor(TtlMs(s.ttlSec), t))
  {
    assert m - {} == m;
  }

  /** The sequential store after the executions in the history, in their order. */
  function StoreAfter(c: Config, history: seq<Event>): Ideal {
    if history == [] then map[]
    else
      var before, e := StoreAfter(c, history[..|history| - 1]), history[|history| - 1];
      if e.Exec? then SpecNext(c, before, e.cmd, e.t, e.gone) else before
  }

  ghost predicate LegalAt(c: Config, history: seq<Event>, i: nat)
    requires i < |history|
  {
    history[i].Exec? ==> history[i].reply == SpecReply(c, StoreAfter(c, history[..i]), history[i].cmd, history[i].t)
  }

  /** Every execution got the reply of the sequential store, and time went forward. */
  ghost predicate Legal(c: Config, history: seq<Event>) {
    && (forall i: nat :: i < |history| ==> LegalAt(c, history, i))
    && forall i, j :: 0 <= i < j < |history| && history[i].Exec? && history[j].Exec? ==> history[i].t <= history[j].t
  }

  lemma LegalAppend(c: Config, history: seq<Event>, e: Event)
    requires Legal(c, history) && (e.Exec? ==> e.reply == SpecReply(c, StoreAfter(c, history), e.cmd, e.t))
    requires e.Exec? ==> forall i :: 0 <= i < |history| && history[i].Exec? ==> history[i].t <= e.t
    ensures Legal(c, history + [e])
    ensures StoreAfter(c, history + [e]) ==
              if e.Exec? then SpecNext(c, StoreAfter(c, history), e.cmd, e.t, e.gone) else StoreAfter(c, history)
  {
    var longer := history + [e];
    assert longer[..|history|] == history;
    forall i: nat | i < |longer| ensures LegalAt(c, longer, i) {
      if i < |history| {
        assert LegalAt(c, history, i);
        assert longer[..i] == history[..i];
      }
    }
  }

  // ---- the workers against it ----------------------------------------------------------

  ghost predicate KeyOK(c: Config, dicts: seq<DictState>, m: Ideal, t: nat, k: string)
    requires ConfigOK(c) && |dicts| == c.numWorkers
  {
    Alike(dicts[Partition(c, k)], m, k, t)
  }

  /** A GET in progress holds the value that is in its dictionary. */
  ghost predicate HeldOK(c: Config, s: State, w: nat)
    requires w < |s.workers| && |s.dicts| == |s.workers|
  {
    s.workers[w].Holding? ==>
      && s.workers[w].id < |s.tasks|
      && var cmd := s.tasks[s.workers[w].id].cmd;
      && cmd.name == "GET" && |cmd.args| == 1
      && cmd.args[0] in s.dicts[w].store && s.dicts[w].store[cmd.args[0]].value == s.workers[w].value
  }

  ghost predicate Linearized(c: Config, s: State)
    requires ConfigOK(c) && Shape(c, s)
  {
    && Legal(c, s.history)
    && (forall i :: 0 <= i < |s.history| && s.history[i].Exec? ==> s.history[i].t <= s.clock)
    && (forall k :: KeyOK(c, s.dicts, StoreAfter(c, s.history), s.clock, k))
    && (forall w: nat :: w < |s.workers| ==> HeldOK(c, s, w))
  }

  /** A SET finds room in its worker's dictionary. */
  ghost predicate BelowCapacity(c: Config, s: State, a: Action)
    requires ConfigOK(c)
  {
    a.Start? && Enabled(c, s, a) && Stores(c, s.tasks[s.workers[a.w].id].cmd) ==> |s.dicts[a.w].store| < c.maxKeyNumber
  }

  /** One command on the dictionary of its worker: every key stays alike. */
  lemma ExecuteAlike(c: Config, d: DictState, cmd: Command, now: nat, t: nat, gone: set<string>, m: Ideal, k: string)
    requires Alike(d, m, k, t)
    ensures var (d', o) := Execute(c, d, cmd, now, t, gone);
            Alike(d', if o.Final? then SpecNext(c, m, cmd, t, gone) else m, k, t)
  {
  }

  /** Keys of other workers are left alone by the sequential store, too. */
  lemma OtherKeys(c: Config, m: Ideal, cmd: Command, t: nat, gone: set<string>, k: string)
    requires k !in gone && (|cmd.args| == 0 || k != cmd.args[0])
    ensures k in SpecNext(c, m, cmd, t, gone) <==> k in m
    ensures k in m ==> SpecNext(c, m, cmd, t, gone)[k] == m[k]
  {
  }

  lemma ExecuteReply(c: Config, d: DictState, cmd: Command, now: nat, t: nat, gone: set<string>, m: Ideal)
    requires |cmd.args| > 0 ==> Alike(d, m, cmd.args[0], t)
    ensures var (d', o) := Execute(c, d, cmd, now, t, gone);
            && (o.Final? ==> o.reply == SpecReply(c, m, cmd, t))
            && (o.Found? ==> cmd.name == "GET" && |cmd.args| == 1)
            && (o.Found? ==> cmd.args[0] in d'.store && d'.store[cmd.args[0]].value == o.value)
  {
  }

  lemma StartKey(c: Config, dicts: seq<DictState>, cmd: Command, w: nat, now: nat, t: nat, gone: set<string>, m: Ideal,
                 k: string)
    requires ConfigOK(c) && |dicts| == c.numWorkers && Routed(c, cmd, w) && KeyOK(c, dicts, m, t, k)
    requires k in gone ==> Partition(c, k) == w
    ensures var (d, o) := Execute(c, dicts[w], cmd, now, t, gone);
            KeyOK(c, dicts[w := d], if o.Final? then SpecNext(c, m, cmd, t, gone) else m, t, k)
  {
    if Partition(c, k) == w {
      ExecuteAlike(c, dicts[w], cmd, now, t, gone, m, k);
    } else {
      OtherKeys(c, m, cmd, t, gone, k);
    }
  }

  /** What the step of starting a command does to history and store. */
  lemma StartLegal(c: Config, s: State, s': State, a: Action, m: Ideal, m': Ideal)
    requires ConfigOK(c) && Shape(c, s) && a.Start? && Enabled(c, s, a) && s' == Apply(c, s, a)
    requires m == StoreAfter(c, s.history)
    requires var cmd := s.tasks[s.workers[a.w].id].cmd;
             var o := Execute(c, s.dicts[a.w], cmd, a.now, s.clock, a.gone).1;
             && (o.Final? ==> o.reply == SpecReply(c, m, cmd, s.clock))
             && m' == if o.Final? then SpecNext(c, m, cmd, s.clock, a.gone) else m
    requires Legal(c, s.history) && forall i :: 0 <= i < |s.history| && s.history[i].Exec? ==> s.history[i].t <= s.clock
    ensures Legal(c, s'.history) && StoreAfter(c, s'.history) == m'
    ensures forall i :: 0 <= i < |s'.history| && s'.history[i].Exec? ==> s'.history[i].t <= s'.clock
  {
    hide Execute, StoreAfter, SpecNext, SpecReply, Legal;
    var id := s.workers[a.w].id;
    var o := Execute(c, s.dicts[a.w], s.tasks[id].cmd, a.now, s.clock, a.gone).1;
    if o.Final? {
      LegalAppend(c, s.history, Exec(id, s.tasks[id].cmd, s.clock, o.reply, a.gone));
    }
  }

  lemma StartHeld(c: Config, s: State, s': State, a: Action, v: nat)
    requires ConfigOK(c) && Shape(c, s) && a.Start? && Enabled(c, s, a) && s' == Apply(c, s, a) && v < |s.workers|
    requires HeldOK(c, s, v)
    requires var cmd := s.tasks[s.workers[a.w].id].cmd;
             var (d, o) := Execute(c, s.dicts[a.w], cmd, a.now, s.clock, a.gone);
             o.Found? ==>
               && cmd.name == "GET" && |cmd.args| == 1
               && cmd.args[0] in d.store && d.store[cmd.args[0]].value == o.value
    ensures |s'.workers| == |s.workers| == |s'.dicts| && HeldOK(c, s', v)
  {
    hide Execute;
    var id := s.workers[a.w].id;
    var (d, o) := Execute(c, s.dicts[a.w], s.tasks[id].cmd, a.now, s.clock, a.gone);
    assert s'.dicts[a.w] == d && forall i :: 0 <= i < |s.tasks| ==> s'.tasks[i].cmd == s.tasks[i].cmd;
    if v == a.w && o.Found? {
      assert s'.workers[v] == Holding(id, o.value);
    }
  }

  lemma LinearizedStart(c: Config, s: State, s': State, a: Action)
    requires ConfigOK(c) && Shape(c, s) && a.Start? && Enabled(c, s, a) && s' == Apply(c, s, a)
    requires Routed(c, s.tasks[s.workers[a.w].id].cmd, a.w) && Private(c, s, a.w) && Linearized(c, s)
    ensures Shape(c, s') && Linearized(c, s')
  {
    hide Execute, StoreAfter, SpecNext, SpecReply, Legal, Alike, HeldOK;
    var m, cmd := StoreAfter(c, s.history), s.tasks[s.workers[a.w].id].cmd;
    var (d, o) := Execute(c, s.dicts[a.w], cmd, a.now, s.clock, a.gone);
    var m' := if o.Final? then SpecNext(c, m, cmd, s.clock, a.gone) else m;
    assert |cmd.args| > 0 ==> KeyOK(c, s.dicts, m, s.clock, cmd.args[0]);
    ExecuteReply(c, s.dicts[a.w], cmd, a.now, s.clock, a.gone, m);
    StartLegal(c, s, s', a, m, m');
    forall k ensures KeyOK(c, s'.dicts, m', s.clock, k) {
      assert KeyOK(c, s.dicts, m, s.clock, k);
      StartKey(c, s.dicts, cmd, a.w, a.now, s.clock, a.gone, m, k);
    }
    forall v: nat | v < |s'.workers| ensures HeldOK(c, s', v) {
      assert HeldOK(c, s, v);
      StartHeld(c, s, s', a, v);
    }
  }

  lemma LinearizedRecheck(c: Config, s: State, s': State, a: Action)
    requires ConfigOK(c) && Shape(c, s) && a.Recheck? && Enabled(c, s, a) && s' == Apply(c, s, a)
    requires Routed(c, s.tasks[s.workers[a.w].id].cmd, a.w) && Linearized(c, s)
    ensures Linearized(c, s')
  {
    var id, w, m := s.workers[a.w].id, a.w, StoreAfter(c, s.history);
    var cmd := s.tasks[id].cmd;
    assert HeldOK(c, s, w) && KeyOK(c, s.dicts, m, s.clock, cmd.args[0]);
    LegalAppend(c, s.history, s'.history[|s.history|]);
    forall k ensures KeyOK(c, s'.dicts, m, s.clock, k) { assert KeyOK(c, s.dicts, m, s.clock, k); }
    forall v: nat | v < |s'.workers| ensures HeldOK(c, s', v) { assert HeldOK(c, s, v); }
  }

  lemma LinearizedElse(c: Config, s: State, s': State, a: Action)
    requires ConfigOK(c) && Shape(c, s) && !a.Start? && !a.Recheck? && Enabled(c, s, a) && s' == Apply(c, s, a)
    requires Linearized(c, s)
    ensures Linearized(c, s')
  {
    hide Execute, StoreAfter, Legal;
    var m := StoreAfter(c, s.history);
    if a.Read? || a.Receive? {
      LegalAppend(c, s.history, s'.history[|s.history|]);
    }
    forall k ensures KeyOK(c, s'.dicts, m, s'.clock, k) { assert KeyOK(c, s.dicts, m, s.clock, k); }
    forall v: nat | v < |s'.workers| ensures HeldOK(c, s', v) { assert HeldOK(c, s, v); }
  }

  /** In every interleaving, under any eviction, replies are those of one sequential store that runs the commands in the
      order of their executions; by RealTimeOrder that order respects real time, and by OwnReply the clients see those
      replies. */
  lemma {:induction false} Linearizable(c: Config, states: seq<State>, run: seq<Action>, n: nat)
    requires Behaviour(c, states, run) && n <= |run|
    ensures Shape(c, states[n]) && Linearized(c, states[n]) && Legal(c, states[n].history)
  {
    Reachable(c, states, run, n);
    if n > 0 {
      hide Legal, StoreAfter, Apply, KeyOK, HeldOK;
      Linearizable(c, states, run, n - 1);
      Reachable(c, states, run, n - 1);
      ReachableSharded(c, states, run, n - 1);
      assert StepAt(c, states, run, n - 1);
      var s, a := states[n - 1], run[n - 1];
      if a.Start? || a.Recheck? {
        assert WorkerOK(s, a.w) && RouteOK(c, s, s.workers[a.w].id) && Private(c, s, a.w);
        if a.Start? {
          LinearizedStart(c, s, states[n], a);
        } else {
          LinearizedRecheck(c, s, states[n], a);
        }
      } else {
        LinearizedElse(c, s, states[n], a);
      }
    }
  }

  /** Below capacity nothing is evicted, so the sequential store forgets a key only at its deadline. */
  lemma {:induction false} NothingEvicted(c: Config, states: seq<State>, run: seq<Action>, n: nat, i: nat)
    requires Behaviour(c, states, run) && n <= |run| && forall j :: 0 <= j < n ==> BelowCapacity(c, states[j], run[j])
    requires i < |states[n].history| && states[n].history[i].Exec?
    ensures states[n].history[i].gone == {}
  {
    if n > 0 {
      assert StepAt(c, states, run, n - 1);
      hide Execute;
      if i < |states[n - 1].history| {
        NothingEvicted(c, states, run, n - 1, i);
      }
    }
  }

  // ---- replies, by the arguments alone -----------------------------------------------------

  /** Every reply but that of a well-formed GET can be told from the command. */
  lemma RepliesByArgs(c: Config, states: seq<State>, run: seq<Action>, n: nat, i: nat)
    requires Behaviour(c, states, run) && n <= |run| && i < |states[n].history| && states[n].history[i].Exec?
    ensures var e := states[n].history[i];
            var args := e.cmd.args;
            && (e.cmd.name == "SET" ==>
                  e.reply == if Accepts(args, c.parse, false) then Ok else Error(Complaint(args, false)))
            && (e.cmd.name == "GET" && |args| != 1 ==> e.reply == Error(WrongArgs))
            && (e.cmd.name == "PING" && |args| == 0 ==> e.reply == Simple("PONG"))
            && (e.cmd.name == "PING" && |args| == 1 ==> e.reply == Bulk(args[0]))
            && (e.cmd.name == "PING" && |args| > 1 ==> e.reply == Error(WrongArgs))
            && (e.cmd.name != "SET" && e.cmd.name != "GET" && e.cmd.name != "PING" ==> e.reply == Error(UnknownCommand))
  {
    Linearizable(c, states, run, n);
    hide Linearized, StoreAfter, Behaviour;
    assert LegalAt(c, states[n].history, i);
    ReadSetIs(states[n].history[i].cmd.args, c.parse, false);
  }

  predicate Writes(cmd: Command, k: string) {
    cmd.name == "SET" && |cmd.args| > 0 && cmd.args[0] == k
  }

  /** Between positions i and j no execution writes or evicts the key. */
  ghost predicate Quiet(history: seq<Event>, i: nat, j: nat, k: string)
    requires j <= |history|
  {
    forall q :: i <= q < j && history[q].Exec? ==> !Writes(history[q].cmd, k) && k !in history[q].gone
  }

  lemma NextKeeps(c: Config, m: Ideal, cmd: Command, t: nat, gone: set<string>, k: string)
    requires !Writes(cmd, k) && k !in gone
    ensures var m' := SpecNext(c, m, cmd, t, gone); (k in m' <==> k in m) && (k in m ==> m'[k] == m[k])
  {
    ReadSetIs(cmd.args, c.parse, false);
  }

  lemma {:induction false} StoreKeeps(c: Config, history: seq<Event>, i: nat, j: nat, k: string)
    requires i <= j <= |history| && Quiet(history, i, j, k)
    ensures var m, m' := StoreAfter(c, history[..i]), StoreAfter(c, history[..j]);
            (k in m' <==> k in m) && (k in m ==> m'[k] == m[k])
    decreases j
  {
    if i < j {
      StoreKeeps(c, history, i, j - 1, k);
      var e := history[j - 1];
      assert history[..j][..j - 1] == history[..j - 1];
      if e.Exec? {
        NextKeeps(c, StoreAfter(c, history[..j - 1]), e.cmd, e.t, e.gone, k);
      }
    }
  }

  /** The entry that a SET at position i leaves. */
  lemma WrittenAt(c: Config, history: seq<Event>, i: nat, k: string)
    requires i < |history| && history[i].Exec? && Writes(history[i].cmd, k)
    requires Accepts(history[i].cmd.args, c.parse, false) && history[i].t < TWO_63
    ensures var e := history[i];
            var m := StoreAfter(c, history[..i + 1]);
            && k in m && m[k].value == e.cmd.args[1]
            && (|e.cmd.args| == 2 ==> m[k].deadline == None)
            && (|e.cmd.args| == 4 && k !in e.gone && 0 < c.parse(e.cmd.args[3]).value * 1000 < TWO_63 ==>
                  m[k].deadline == Some(e.t + 1000 * c.parse(e.cmd.args[3]).value))
  {
    var e := history[i];
    assert history[..i + 1][..i] == history[..i];
    ReadSetIs(e.cmd.args, c.parse, false);
    if |e.cmd.args| == 4 {
      DeadlineKept(c.parse(e.cmd.args[3]), e.t);
    }
  }

  /** In every interleaving: a GET executed after a SET of its key, with no other SET and no eviction of it in between,
      gets the value of that SET, or nothing from its deadline on. */
  lemma ReadYourWrites(c: Config, states: seq<State>, run: seq<Action>, n: nat, i: nat, j: nat, k: string)
    requires Behaviour(c, states, run) && n <= |run| && i < j < |states[n].history|
    requires var h := states[n].history;
             && h[i].Exec? && Writes(h[i].cmd, k) && Accepts(h[i].cmd.args, c.parse, false) && h[i].t < TWO_63
             && h[j].Exec? && h[j].cmd == Command("GET", [k]) && Quiet(h, i + 1, j, k)
    ensures var put, get := states[n].history[i], states[n].history[j];
            && (|put.cmd.args| == 2 ==> get.reply == Bulk(put.cmd.args[1]))
            && (|put.cmd.args| == 4 && k !in put.gone && 0 < c.parse(put.cmd.args[3]).value * 1000 < TWO_63 ==>
                  get.reply == if get.t < put.t + 1000 * c.parse(put.cmd.args[3]).value
                               then Bulk(put.cmd.args[1]) else Nil)
  {
    Linearizable(c, states, run, n);
    var h := states[n].history;
    hide Linearized, StoreAfter, Behaviour;
    assert LegalAt(c, h, j);
    WrittenAt(c, h, i, k);
    StoreKeeps(c, h, i + 1, j, k);
  }

  lemma {:induction false} NotInStore(c: Config, history: seq<Event>, j: nat, k: string)
    requires j <= |history| && forall q :: 0 <= q < j && history[q].Exec? ==> !Writes(history[q].cmd, k)
    ensures k !in StoreAfter(c, history[..j])
  {
    if j > 0 {
      NotInStore(c, history, j - 1, k);
      assert history[..j][..j - 1] == history[..j - 1];
      ReadSetIs(if history[j - 1].Exec? then history[j - 1].cmd.args else [], c.parse, false);
    }
  }

  /** A GET of a key that no execution before it has written gets nothing. */
  lemma NeverWritten(c: Config, states: seq<State>, run: seq<Action>, n: nat, j: nat, k: string)
    requires Behaviour(c, states, run) && n <= |run| && j < |states[n].history|
    requires var h := states[n].history;
             && h[j].Exec? && h[j].cmd == Command("GET", [k])
             && forall q :: 0 <= q < j && h[q].Exec? ==> !Writes(h[q].cmd, k)
    ensures states[n].history[j].reply == Nil
  {
    Linearizable(c, states, run, n);
    hide Linearized, StoreAfter, Behaviour;
    assert LegalAt(c, states[n].history, j);
    NotInStore(c, states[n].history, j, k);
  }
}
