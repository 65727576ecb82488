/** I/O handlers, per-worker task queues, workers with private dictionaries and one-slot reply channels, as a state
    machine. */
module Protocol {
  import opened Deadlines
  import opened Dicts
  import opened Executor

  datatype Command = Command(name: string, args: seq<string>)

  /** `hash` is FNV-1a, left open; `capacity` is the buffer size of a task channel. */
  datatype Config = Config(numWorkers: nat, numHandlers: nat, capacity: nat, maxKeyNumber: int, hash: string -> nat,
                           parse: Parser)

  predicate ConfigOK(c: Config) {
    c.numWorkers >= 1 && c.capacity >= 1
  }

  /** getPartitionID. */
  function Partition(c: Config, key: string): nat
    requires ConfigOK(c)
  {
    c.hash(key) % c.numWorkers
  }

  /** The worker a command may be sent to: the one its first argument hashes to, any if it has none. */
  predicate Routed(c: Config, cmd: Command, w: nat)
    requires ConfigOK(c)
  {
    w < c.numWorkers && (|cmd.args| > 0 ==> w == Partition(c, cmd.args[0]))
  }

  // ---- state ---------------------------------------------------------------------------

  /** A handler is between commands, at the send of a task, or at the receive of its reply. Tasks have numbers. */
  datatype Handler = Idle | Dispatching(id: nat) | Waiting(id: nat)

  /** A worker is at the receive of a task, executing one, in a GET that found a value, or at the send of a reply. */
  datatype Worker = Free | Busy(id: nat) | Holding(id: nat, value: string) | Replying(id: nat, reply: Reply)

  /** How far a task has come. */
  datatype Stage =
    | Pending(h: nat)
    | Queued(h: nat, w: nat)
    | Running(h: nat, w: nat)
    | Rechecking(h: nat, w: nat)
    | Sending(h: nat, w: nat, reply: Reply)
    | Answered(h: nat, reply: Reply)
    | Done(reply: Reply)

  /** A task with its command and, for the proof, its stage and where in the history its three events are. */
  datatype Task = Task(cmd: Command, stage: Stage, invokedAt: nat, executedAt: nat, respondedAt: nat)

  /** What the outside sees, and when in between a command takes effect; `gone` are the keys a SET evicted. */
  datatype Event =
    | Invoke(id: nat, cmd: Command)
    | Exec(id: nat, cmd: Command, t: nat, reply: Reply, gone: set<string>)
    | Respond(id: nat, reply: Reply)

  /** `replies` holds the contents of the reply channels, one slot per task. */
  datatype State = State(
    handlers: seq<Handler>,
    queues: seq<seq<nat>>,
    workers: seq<Worker>,
    dicts: seq<DictState>,
    replies: map<nat, Reply>,
    clock: nat,
    tasks: seq<Task>,
    history: seq<Event>)

  function Init(c: Config, clock: nat): State {
    State(seq(c.numHandlers, i => Idle), seq(c.numWorkers, i => []), seq(c.numWorkers, i => Free),
          seq(c.numWorkers, i => DictState(map[], map[])), map[], clock, [], [])
  }

  predicate Shape(c: Config, s: State) {
    |s.handlers| == c.numHandlers && |s.queues| == |s.workers| == |s.dicts| == c.numWorkers
  }

  // ---- what a worker does with one command ---------------------------------------------

  datatype Outcome = Final(reply: Reply) | Found(value: string)

  /** cmdSET on a worker's dictionary; `gone` are the keys evicted on the way, none if there is room. */
  function ExecuteSet(c: Config, d: DictState, args: seq<string>, now: nat, t: nat, gone: set<string>): (DictState,
                                                                                                         Outcome) {
    match ReadSet(args, c.parse, false)
    case Bad(kind) => (d, Final(Error(kind)))
    case Good(k, v, ttl) =>
      (DictState((d.store - gone)[k := Obj(v, now)], SetState(d, k, v, TtlMs(ttl), now, t).expiry - gone), Final(Ok))
  }

  /** cmdGET up to its second look at the clock. */
  function ExecuteGet(d: DictState, args: seq<string>, now: nat, t: nat): (DictState, Outcome) {
    if |args| != 1 then (d, Final(Error(WrongArgs)))
    else
      var d' := GetState(d, args[0], now, t);
      if args[0] in d'.store then (d', Found(d'.store[args[0]].value)) else (d', Final(Nil))
  }

  function Ping(args: seq<string>): Reply {
    if |args| > 1 then Error(WrongArgs) else if |args| == 0 then Simple("PONG") else Bulk(args[0])
  }

  function Execute(c: Config, d: DictState, cmd: Command, now: nat, t: nat, gone: set<string>): (DictState, Outcome) {
    if cmd.name == "SET" then ExecuteSet(c, d, cmd.args, now, t, gone)
    else if cmd.name == "GET" then ExecuteGet(d, cmd.args, now, t)
    else if cmd.name == "PING" then (d, Final(Ping(cmd.args)))
    else (d, Final(Error(UnknownCommand)))
  }

  /** A well-formed SET, the only command that may evict. */
  predicate Stores(c: Config, cmd: Command) {
    cmd.name == "SET" && ReadSet(cmd.args, c.parse, false).Good?
  }

  /** The reply of a worker that reads the clock once more, at t, if it found a value. */
  function ReplyAt(d: DictState, outcome: Outcome, args: seq<string>, t: nat): Reply
    requires outcome.Found? ==> |args| > 0
  {
    match outcome
    case Final(reply) => reply
    case Found(value) => if Expired(d, args[0], t) then Nil else Bulk(value)
  }

  /** ExecuteAndResponse on the worker's dictionary object does what the steps below take as one or two. */
  method ExecuteAndResponse(c: Config, d: Dict, cmd: Command, at: Times) returns (r: Reply, ghost gone: set<string>)
    requires d.maxKeyNumber == c.maxKeyNumber && at.t1 <= at.t2
    modifies d
    ensures gone <= old(d.dictStore).Keys && (|old(d.dictStore)| < c.maxKeyNumber || !Stores(c, cmd) ==> gone == {})
    ensures d.State() == Execute(c, old(d.State()), cmd, at.now, at.t1, gone).0
    ensures var outcome := Execute(c, old(d.State()), cmd, at.now, at.t1, gone).1;
            (outcome.Found? ==> |cmd.args| > 0) && r == ReplyAt(d.State(), outcome, cmd.args, at.t2)
  {
    gone := {};
    if cmd.name == "SET" {
      ghost var evicted;
      r, evicted := CmdSet(d, cmd.args, c.parse, false, at);
      if ReadSet(cmd.args, c.parse, false).Good? {
        gone := evicted;
      }
    } else if cmd.name == "GET" {
      r := CmdGet(d, cmd.args, at, map[]);
    } else if cmd.name == "PING" {
      if |cmd.args| > 1 {
        return Error(WrongArgs), {};
      }
      r := if |cmd.args| == 0 then Simple("PONG") else Bulk(cmd.args[0]);
    } else {
      r := Error(UnknownCommand);
    }
  }

  // ---- steps ---------------------------------------------------------------------------

  datatype Action =
    | Tick(t: nat)
    | Read(h: nat, cmd: Command)
    | Dispatch(h: nat, w: nat)
    | Take(w: nat)
    | Start(w: nat, now: nat, gone: set<string>)
    | Recheck(w: nat)
    | Send(w: nat)
    | Receive(h: nat)

  predicate Enabled(c: Config, s: State, a: Action)
    requires ConfigOK(c)
  {
    Shape(c, s) &&
    match a
    case Tick(t) => s.clock <= t
    case Read(h, _) => h < c.numHandlers && s.handlers[h].Idle?
    case Dispatch(h, w) => h < c.numHandlers && s.handlers[h].Dispatching? && s.handlers[h].id < |s.tasks|
      && Routed(c, s.tasks[s.handlers[h].id].cmd, w) && |s.queues[w]| < c.capacity
    case Take(w) => w < c.numWorkers && s.workers[w].Free? && s.queues[w] != [] && s.queues[w][0] < |s.tasks|
      && s.tasks[s.queues[w][0]].stage.Queued?
    case Start(w, _, gone) => w < c.numWorkers && s.workers[w].Busy? && s.workers[w].id < |s.tasks|
      && s.tasks[s.workers[w].id].stage.Running?
      && gone <= s.dicts[w].store.Keys
      && (|s.dicts[w].store| < c.maxKeyNumber || !Stores(c, s.tasks[s.workers[w].id].cmd) ==> gone == {})
    case Recheck(w) => w < c.numWorkers && s.workers[w].Holding? && s.workers[w].id < |s.tasks|
      && s.tasks[s.workers[w].id].stage.Rechecking? && |s.tasks[s.workers[w].id].cmd.args| == 1
    case Send(w) => w < c.numWorkers && s.workers[w].Replying? && s.workers[w].id !in s.replies
      && s.workers[w].id < |s.tasks|
      && s.tasks[s.workers[w].id].stage.Sending?
    case Receive(h) =>
      && h < c.numHandlers && s.handlers[h].Waiting? && s.handlers[h].id in s.replies
      && s.handlers[h].id < |s.tasks|
  }

  function Staged(s: State, id: nat, stage: Stage): seq<Task>
    requires id < |s.tasks|
  {
    s.tasks[id := s.tasks[id].(stage := stage)]
  }

  /** The worker is done with the command and turns to sending the reply. */
  function Finish(s: State, w: nat, id: nat, reply: Reply, gone: set<string>): State
    requires w < |s.workers| && id < |s.tasks| && !s.tasks[id].stage.Answered? && !s.tasks[id].stage.Done?
  {
    s.(workers := s.workers[w := Replying(id, reply)],
       tasks := s.tasks[id := s.tasks[id].(stage := Sending(s.tasks[id].stage.h, w, reply), executedAt := |s.history|)],
       history := s.history + [Exec(id, s.tasks[id].cmd, s.clock, reply, gone)])
  }

  function Apply(c: Config, s: State, a: Action): State
    requires ConfigOK(c) && Enabled(c, s, a)
  {
    match a
    case Tick(t) => s.(clock := t)
    case Read(h, cmd) =>
      var id := |s.tasks|;
      s.(handlers := s.handlers[h := Dispatching(id)],
         tasks := s.tasks + [Task(cmd, Pending(h), |s.history|, 0, 0)],
         history := s.history + [Invoke(id, cmd)])
    case Dispatch(h, w) =>
      var id := s.handlers[h].id;
      s.(handlers := s.handlers[h := Waiting(id)], queues := s.queues[w := s.queues[w] + [id]],
         tasks := Staged(s, id, Queued(h, w)))
    case Take(w) =>
      var id := s.queues[w][0];
      s.(queues := s.queues[w := s.queues[w][1..]], workers := s.workers[w := Busy(id)],
         tasks := Staged(s, id, Running(s.tasks[id].stage.h, w)))
    case Start(w, now, gone) =>
      var id := s.workers[w].id;
      var (d, outcome) := Execute(c, s.dicts[w], s.tasks[id].cmd, now, s.clock, gone);
      var s' := s.(dicts := s.dicts[w := d]);
      (match outcome
       case Final(reply) => Finish(s', w, id, reply, gone)
       case Found(value) =>
         s'.(workers := s.workers[w := Holding(id, value)], tasks := Staged(s, id, Rechecking(s.tasks[id].stage.h, w))))
    case Recheck(w) =>
      var id := s.workers[w].id;
      Finish(s, w, id, if Expired(s.dicts[w], s.tasks[id].cmd.args[0], s.clock) then Nil else Bulk(s.workers[w].value),
             {})
    case Send(w) =>
      var id, reply := s.workers[w].id, s.workers[w].reply;
      s.(workers := s.workers[w := Free], replies := s.replies[id := reply],
         tasks := Staged(s, id, Answered(s.tasks[id].stage.h, reply)))
    case Receive(h) =>
      var id := s.handlers[h].id;
      var reply := s.replies[id];
      s.(handlers := s.handlers[h := Idle], replies := s.replies - {id},
         tasks := s.tasks[id := s.tasks[id].(stage := Done(reply), respondedAt := |s.history|)],
         history := s.history + [Respond(id, reply)])
  }

  ghost predicate StepAt(c: Config, states: seq<State>, run: seq<Action>, i: nat)
    requires ConfigOK(c) && |states| == |run| + 1 && i < |run|
  {
    Enabled(c, states[i], run[i]) && states[i + 1] == Apply(c, states[i], run[i])
  }

  /** A run from the initial state: every action was enabled when it was taken. */
  ghost predicate Behaviour(c: Config, states: seq<State>, run: seq<Action>) {
    && ConfigOK(c) && |states| == |run| + 1
    && states[0] == Init(c, states[0].clock)
    && forall i: nat {:trigger StepAt(c, states, run, i)} :: i < |run| ==> StepAt(c, states, run, i)
  }
}
