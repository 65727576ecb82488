/** Every task is in one place, is executed once and gets its own reply; no one blocks for good. */
module Delivery {
  import opened Protocol

  // ---- where a task is -----------------------------------------------------------------

  ghost predicate HandlerOK(s: State, h: nat)
    requires h < |s.handlers|
  {
    match s.handlers[h]
    case Idle => true
    case Dispatching(id) => id < |s.tasks| && s.tasks[id].stage == Pending(h)
    case Waiting(id) =>
      && id < |s.tasks| && !s.tasks[id].stage.Pending? && !s.tasks[id].stage.Done?
      && s.tasks[id].stage.h == h
  }

  ghost predicate WorkerOK(s: State, w: nat)
    requires w < |s.workers|
  {
    match s.workers[w]
    case Free => true
    case Busy(id) => id < |s.tasks| && s.tasks[id].stage.Running? && s.tasks[id].stage.w == w
    case Holding(id, _) =>
      && id < |s.tasks| && s.tasks[id].stage.Rechecking? && s.tasks[id].stage.w == w
      && |s.tasks[id].cmd.args| == 1
    case Replying(id, reply) =>
      && id < |s.tasks| && s.tasks[id].stage.Sending? && s.tasks[id].stage.w == w
      && s.tasks[id].stage.reply == reply
  }

  ghost predicate QueueOK(s: State, w: nat)
    requires w < |s.queues|
  {
    var q := s.queues[w];
    && (forall i :: 0 <= i < |q| ==> q[i] < |s.tasks| && s.tasks[q[i]].stage.Queued? && s.tasks[q[i]].stage.w == w)
    && forall i, j :: 0 <= i < j < |q| ==> q[i] != q[j]
  }

  ghost predicate ChannelOK(s: State, id: nat) {
    id in s.replies ==> id < |s.tasks| && s.tasks[id].stage.Answered? && s.tasks[id].stage.reply == s.replies[id]
  }

  ghost predicate Awaited(s: State, id: nat, h: nat) {
    h < |s.handlers| && s.handlers[h] == Waiting(id)
  }

  /** The task is where its stage says it is, and the handler that made it is waiting for it. */
  ghost predicate TaskOK(s: State, id: nat)
    requires id < |s.tasks|
  {
    match s.tasks[id].stage
    case Pending(h) => h < |s.handlers| && s.handlers[h] == Dispatching(id)
    case Queued(h, w) => Awaited(s, id, h) && w < |s.queues| && id in s.queues[w]
    case Running(h, w) => Awaited(s, id, h) && w < |s.workers| && s.workers[w] == Busy(id)
    case Rechecking(h, w) => Awaited(s, id, h) && w < |s.workers| && s.workers[w].Holding? && s.workers[w].id == id
    case Sending(h, w, reply) => Awaited(s, id, h) && w < |s.workers| && s.workers[w] == Replying(id, reply)
    case Answered(h, reply) => Awaited(s, id, h) && id in s.replies
    case Done(_) => true
  }

  ghost predicate Placed(c: Config, s: State) {
    && Shape(c, s)
    && (forall h: nat :: h < |s.handlers| ==> HandlerOK(s, h))
    && (forall w: nat :: w < |s.workers| ==> WorkerOK(s, w))
    && (forall w: nat :: w < |s.queues| ==> QueueOK(s, w))
    && (forall id :: ChannelOK(s, id))
    && (forall id: nat :: id < |s.tasks| ==> TaskOK(s, id))
  }

  lemma PlacedInit(c: Config, clock: nat)
    ensures Placed(c, Init(c, clock))
  {
  }

  lemma PlacedRead(c: Config, s: State, s': State, h: nat, cmd: Command)
    requires ConfigOK(c) && Placed(c, s) && Enabled(c, s, Read(h, cmd)) && s' == Apply(c, s, Read(h, cmd))
    ensures Placed(c, s')
  {
    forall g: nat | g < |s'.handlers| ensures HandlerOK(s', g) { assert HandlerOK(s, g); }
    forall w: nat | w < |s'.workers| ensures WorkerOK(s', w) { assert WorkerOK(s, w); }
    forall w: nat | w < |s'.queues| ensures QueueOK(s', w) { assert QueueOK(s, w); }
    forall id ensures ChannelOK(s', id) { assert ChannelOK(s, id); }
    forall id: nat | id < |s'.tasks| ensures TaskOK(s', id) { assert id < |s.tasks| ==> TaskOK(s, id); }
  }

  lemma PlacedDispatch(c: Config, s: State, s': State, h: nat, v: nat)
    requires ConfigOK(c) && Placed(c, s) && Enabled(c, s, Dispatch(h, v)) && s' == Apply(c, s, Dispatch(h, v))
    ensures Placed(c, s')
  {
    assert HandlerOK(s, h) && TaskOK(s, s.handlers[h].id);
    forall g: nat | g < |s'.handlers| ensures HandlerOK(s', g) { assert HandlerOK(s, g); }
    forall w: nat | w < |s'.workers| ensures WorkerOK(s', w) { assert WorkerOK(s, w); }
    forall w: nat | w < |s'.queues| ensures QueueOK(s', w) { assert QueueOK(s, w); }
    forall id ensures ChannelOK(s', id) { assert ChannelOK(s, id); }
    forall id: nat | id < |s'.tasks| ensures TaskOK(s', id) { assert TaskOK(s, id); }
  }

  lemma PlacedTake(c: Config, s: State, s': State, v: nat)
    requires ConfigOK(c) && Placed(c, s) && Enabled(c, s, Take(v)) && s' == Apply(c, s, Take(v))
    ensures Placed(c, s')
  {
    assert QueueOK(s, v) && TaskOK(s, s.queues[v][0]);
    forall g: nat | g < |s'.handlers| ensures HandlerOK(s', g) { assert HandlerOK(s, g); }
    forall w: nat | w < |s'.workers| ensures WorkerOK(s', w) { assert WorkerOK(s, w); }
    forall w: nat | w < |s'.queues| ensures QueueOK(s', w) { assert QueueOK(s, w); }
    forall id ensures ChannelOK(s', id) { assert ChannelOK(s, id); }
    forall id: nat | id < |s'.tasks| ensures TaskOK(s', id) { assert TaskOK(s, id); }
  }

  /** A worker's task moves from one stage to another at the same worker. */
  lemma PlacedWork(c: Config, s: State, s': State, v: nat, id: nat, stage: Stage)
    requires Placed(c, s) && v < |s.workers| && id < |s.tasks| && |s'.tasks| == |s.tasks|
    requires s.workers[v].Busy? || s.workers[v].Holding?
    requires s.workers[v].id == id && s'.handlers == s.handlers && s'.queues == s.queues && s'.replies == s.replies
    requires |s'.dicts| == |s.dicts|
    requires stage.Rechecking? || stage.Sending?
    requires WorkerOK(s, v) && stage.h == s.tasks[id].stage.h && stage.w == v
    requires forall i: nat :: i < |s.tasks| && i != id ==> s'.tasks[i] == s.tasks[i]
    requires s'.tasks[id].stage == stage && s'.tasks[id].cmd == s.tasks[id].cmd
    requires |s'.workers| == |s.workers| && s'.workers == s.workers[v := s'.workers[v]]
    requires stage.Sending? ==> s'.workers[v] == Replying(id, stage.reply)
    requires stage.Rechecking? ==> |s.tasks[id].cmd.args| == 1 && s'.workers[v].Holding? && s'.workers[v].id == id
    ensures Placed(c, s')
  {
    assert TaskOK(s, id);
    forall g: nat | g < |s'.handlers| ensures HandlerOK(s', g) { assert HandlerOK(s, g); }
    forall w: nat | w < |s'.workers| ensures WorkerOK(s', w) { assert WorkerOK(s, w); }
    forall w: nat | w < |s'.queues| ensures QueueOK(s', w) { assert QueueOK(s, w); }
    forall i ensures ChannelOK(s', i) { assert ChannelOK(s, i); }
    forall i: nat | i < |s'.tasks| ensures TaskOK(s', i) { assert TaskOK(s, i); }
  }

  lemma PlacedSend(c: Config, s: State, s': State, v: nat)
    requires ConfigOK(c) && Placed(c, s) && Enabled(c, s, Send(v)) && s' == Apply(c, s, Send(v))
    ensures Placed(c, s')
  {
    assert WorkerOK(s, v) && TaskOK(s, s.workers[v].id);
    forall g: nat | g < |s'.handlers| ensures HandlerOK(s', g) { assert HandlerOK(s, g); }
    forall w: nat | w < |s'.workers| ensures WorkerOK(s', w) { assert WorkerOK(s, w); }
    forall w: nat | w < |s'.queues| ensures QueueOK(s', w) { assert QueueOK(s, w); }
    forall id ensures ChannelOK(s', id) { assert ChannelOK(s, id); }
    forall id: nat | id < |s'.tasks| ensures TaskOK(s', id) { assert TaskOK(s, id); }
  }

  lemma PlacedReceive(c: Config, s: State, s': State, h: nat)
    requires ConfigOK(c) && Placed(c, s) && Enabled(c, s, Receive(h)) && s' == Apply(c, s, Receive(h))
    ensures Placed(c, s')
  {
    assert HandlerOK(s, h) && ChannelOK(s, s.handlers[h].id);
    forall g: nat | g < |s'.handlers| ensures HandlerOK(s', g) { assert HandlerOK(s, g); }
    forall w: nat | w < |s'.workers| ensures WorkerOK(s', w) { assert WorkerOK(s, w); }
    forall w: nat | w < |s'.queues| ensures QueueOK(s', w) { assert QueueOK(s, w); }
    forall id ensures ChannelOK(s', id) { assert ChannelOK(s, id); }
    forall id: nat | id < |s'.tasks| ensures TaskOK(s', id) { assert TaskOK(s, id); }
  }

  lemma PlacedStart(c: Config, s: State, s': State, a: Action)
    requires ConfigOK(c) && Placed(c, s) && (a.Start? || a.Recheck?) && Enabled(c, s, a) && s' == Apply(c, s, a)
    ensures Placed(c, s')
  {
    var id := s.workers[a.w].id;
    assert WorkerOK(s, a.w);
    PlacedWork(c, s, s', a.w, id, s'.tasks[id].stage);
  }

  lemma PlacedTick(c: Config, s: State, t: nat)
    requires Placed(c, s)
    ensures Placed(c, s.(clock := t))
  {
    var s' := s.(clock := t);
    forall g: nat | g < |s'.handlers| ensures HandlerOK(s', g) { assert HandlerOK(s, g); }
    forall w: nat | w < |s'.workers| ensures WorkerOK(s', w) { assert WorkerOK(s, w); }
    forall w: nat | w < |s'.queues| ensures QueueOK(s', w) { assert QueueOK(s, w); }
    forall id ensures ChannelOK(s', id) { assert ChannelOK(s, id); }
    forall id: nat | id < |s'.tasks| ensures TaskOK(s', id) { assert TaskOK(s, id); }
  }

  lemma PlacedStep(c: Config, s: State, a: Action)
    requires ConfigOK(c) && Placed(c, s) && Enabled(c, s, a)
    ensures Placed(c, Apply(c, s, a))
  {
    var s' := Apply(c, s, a);
    match a
    case Tick(t) => PlacedTick(c, s, t);
    case Read(h, cmd) => PlacedRead(c, s, s', h, cmd);
    case Dispatch(h, w) => PlacedDispatch(c, s, s', h, w);
    case Take(w) => PlacedTake(c, s, s', w);
    case Start(_, _, _) => PlacedStart(c, s, s', a);
    case Recheck(_) => PlacedStart(c, s, s', a);
    case Send(w) => PlacedSend(c, s, s', w);
    case Receive(h) => PlacedReceive(c, s, s', h);
  }

  // ---- what the history says -----------------------------------------------------------

  predicate Executed(stage: Stage) {
    stage.Sending? || stage.Answered? || stage.Done?
  }

  /** The events of a task are in the history where its record says, in the order invoke, execute, respond, with one
      reply. */
  ghost predicate RecordOK(s: State, id: nat)
    requires id < |s.tasks|
  {
    var task := s.tasks[id];
    && task.invokedAt < |s.history| && s.history[task.invokedAt] == Invoke(id, task.cmd)
    && (Executed(task.stage) ==>
          && task.invokedAt < task.executedAt < |s.history| && s.history[task.executedAt].Exec?
          && s.history[task.executedAt].id == id
          && s.history[task.executedAt].cmd == task.cmd && s.history[task.executedAt].reply == task.stage.reply)
    && (task.stage.Done? ==>
          && task.executedAt < task.respondedAt < |s.history|
          && s.history[task.respondedAt] == Respond(id, task.stage.reply))
  }

  /** Every event belongs to one task, and is the only one of its kind there. */
  ghost predicate EventOK(s: State, i: nat)
    requires i < |s.history|
  {
    match s.history[i]
    case Invoke(id, _) => id < |s.tasks| && s.tasks[id].invokedAt == i
    case Exec(id, _, _, _, _) => id < |s.tasks| && Executed(s.tasks[id].stage) && s.tasks[id].executedAt == i
    case Respond(id, _) => id < |s.tasks| && s.tasks[id].stage.Done? && s.tasks[id].respondedAt == i
  }

  ghost predicate Logged(s: State) {
    && (forall id: nat :: id < |s.tasks| ==> RecordOK(s, id))
    && (forall i: nat :: i < |s.history| ==> EventOK(s, i))
  }

  lemma LoggedWork(c: Config, s: State, s': State, a: Action)
    requires ConfigOK(c) && (a.Start? || a.Recheck?) && Enabled(c, s, a) && s' == Apply(c, s, a)
    requires WorkerOK(s, a.w) && Logged(s)
    ensures Logged(s')
  {
    hide Execute;
    forall id: nat | id < |s'.tasks| ensures RecordOK(s', id) { assert RecordOK(s, id); }
    forall i: nat | i < |s'.history| ensures EventOK(s', i) { assert i < |s.history| ==> EventOK(s, i); }
  }

  lemma LoggedMove(c: Config, s: State, s': State, a: Action)
    requires ConfigOK(c) && (a.Dispatch? || a.Take? || a.Send?) && Enabled(c, s, a) && s' == Apply(c, s, a)
    requires a.Dispatch? ==> HandlerOK(s, a.h)
    requires a.Send? ==> WorkerOK(s, a.w)
    requires Logged(s)
    ensures Logged(s')
  {
    hide Execute;
    forall id: nat | id < |s'.tasks| ensures RecordOK(s', id) { assert RecordOK(s, id); }
    forall i: nat | i < |s'.history| ensures EventOK(s', i) { assert EventOK(s, i); }
  }

  lemma LoggedEnds(c: Config, s: State, s': State, a: Action)
    requires ConfigOK(c) && (a.Read? || a.Receive? || a.Tick?) && Enabled(c, s, a) && s' == Apply(c, s, a)
    requires a.Receive? ==> HandlerOK(s, a.h) && ChannelOK(s, s.handlers[a.h].id)
    requires Logged(s)
    ensures Logged(s')
  {
    forall id: nat | id < |s'.tasks| ensures RecordOK(s', id) { assert id < |s.tasks| ==> RecordOK(s, id); }
    forall i: nat | i < |s'.history| ensures EventOK(s', i) { assert i < |s.history| ==> EventOK(s, i); }
  }

  lemma LoggedStep(c: Config, s: State, a: Action)
    requires ConfigOK(c) && Placed(c, s) && Logged(s) && Enabled(c, s, a)
    ensures Logged(Apply(c, s, a))
  {
    if a.Start? || a.Recheck? {
      LoggedWork(c, s, Apply(c, s, a), a);
    } else if a.Dispatch? || a.Take? || a.Send? {
      LoggedMove(c, s, Apply(c, s, a), a);
    } else {
      LoggedEnds(c, s, Apply(c, s, a), a);
    }
  }

  lemma {:induction false} Reachable(c: Config, states: seq<State>, run: seq<Action>, i: nat)
    requires Behaviour(c, states, run) && i <= |run|
    ensures Placed(c, states[i]) && Logged(states[i])
  {
    if i == 0 {
      PlacedInit(c, states[0].clock);
    } else {
      Reachable(c, states, run, i - 1);
      assert StepAt(c, states, run, i - 1);
      PlacedStep(c, states[i - 1], run[i - 1]);
      LoggedStep(c, states[i - 1], run[i - 1]);
    }
  }

  // ---- once each, in real-time order, with its own reply -------------------------------

  /** In every reachable state a task has been executed at most once and answered at most once. */
  lemma AtMostOnce(c: Config, states: seq<State>, run: seq<Action>, n: nat, i: nat, j: nat)
    requires Behaviour(c, states, run) && n <= |run| && i < j < |states[n].history|
    ensures var e, f := states[n].history[i], states[n].history[j];
            e.id == f.id ==> (e.Invoke? && !f.Invoke?) || (e.Exec? && f.Respond?)
  {
    Reachable(c, states, run, n);
    assert EventOK(states[n], i) && EventOK(states[n], j);
    assert RecordOK(states[n], states[n].history[i].id);
  }

  /** A handler gets the reply that its own task was executed with, to the command it read. */
  lemma OwnReply(c: Config, states: seq<State>, run: seq<Action>, n: nat, i: nat) returns (invoked: nat, executed: nat)
    requires Behaviour(c, states, run) && n <= |run| && i < |states[n].history| && states[n].history[i].Respond?
    ensures invoked < executed < i && states[n].history[invoked].Invoke? && states[n].history[executed].Exec?
    ensures var e, x, r := states[n].history[invoked], states[n].history[executed], states[n].history[i];
            e.id == x.id == r.id && e.cmd == x.cmd && x.reply == r.reply
  {
    Reachable(c, states, run, n);
    assert EventOK(states[n], i);
    var id := states[n].history[i].id;
    assert RecordOK(states[n], id);
    invoked, executed := states[n].tasks[id].invokedAt, states[n].tasks[id].executedAt;
  }

  /** If one command was answered before another was read, it was executed before the other, too. */
  lemma RealTimeOrder(c: Config, states: seq<State>, run: seq<Action>, n: nat, responded: nat, invoked: nat, first: nat,
                      second: nat)
    requires Behaviour(c, states, run) && n <= |run|
    requires responded < invoked < |states[n].history| && first < |states[n].history| && second < |states[n].history|
    requires var h := states[n].history;
             && h[responded].Respond? && h[first].Exec? && h[first].id == h[responded].id
             && h[invoked].Invoke? && h[second].Exec? && h[second].id == h[invoked].id
    ensures first < second
  {
    Reachable(c, states, run, n);
    var s := states[n];
    assert EventOK(s, responded) && EventOK(s, first) && EventOK(s, invoked) && EventOK(s, second);
    assert RecordOK(s, s.history[first].id) && RecordOK(s, s.history[second].id);
  }

  /** A worker that is to send a reply finds the one-slot channel empty. */
  lemma SendNeverBlocks(c: Config, states: seq<State>, run: seq<Action>, n: nat, w: nat)
    requires Behaviour(c, states, run) && n <= |run| && w < c.numWorkers && |states[n].workers| == c.numWorkers
    requires states[n].workers[w].Replying?
    ensures Enabled(c, states[n], Send(w))
  {
    Reachable(c, states, run, n);
    assert WorkerOK(states[n], w) && ChannelOK(states[n], states[n].workers[w].id);
  }

  // ---- how many tasks are out ----------------------------------------------------------

  function Outstanding(s: State): set<nat> {
    set id: nat | id < |s.tasks| && !s.tasks[id].stage.Done?
  }

  /** At most as many numbers below n as n, if f maps them there one to one. */
  lemma {:induction false} Pigeons(ids: set<nat>, n: nat, f: map<nat, nat>)
    requires ids <= f.Keys && (forall i :: i in ids ==> f[i] < n)
    requires forall i, j :: i in ids && j in ids && f[i] == f[j] ==> i == j
    ensures |ids| <= n
    decreases n
  {
    if n == 0 {
      assert ids == {};
    } else if i :| i in ids && f[i] == n - 1 {
      Pigeons(ids - {i}, n - 1, f);
    } else {
      Pigeons(ids, n - 1, f);
    }
  }

  /** There are never more tasks out than I/O handlers. */
  lemma OutstandingBound(c: Config, s: State)
    requires Placed(c, s)
    ensures |Outstanding(s)| <= c.numHandlers
  {
    var f := map id | id in Outstanding(s) :: s.tasks[id].stage.h;
    forall id | id in Outstanding(s) ensures f[id] < c.numHandlers { assert TaskOK(s, id); }
    forall i, j | i in Outstanding(s) && j in Outstanding(s) && f[i] == f[j] ensures i == j {
      assert TaskOK(s, i) && TaskOK(s, j);
    }
    Pigeons(Outstanding(s), c.numHandlers, f);
  }

  /** A queue with different numbers in it is no longer than the set of them. */
  lemma {:induction false} QueueSize(q: seq<nat>, ids: set<nat>)
    requires (forall i :: 0 <= i < |q| ==> q[i] in ids) && forall i, j :: 0 <= i < j < |q| ==> q[i] != q[j]
    ensures |q| <= |ids|
  {
    if q != [] {
      QueueSize(q[1..], ids - {q[0]});
    }
  }

  /** With no more handlers than a task channel has slots, a dispatch never blocks: the dispatcher's own task is not
      queued yet. */
  lemma DispatchNeverBlocks(c: Config, states: seq<State>, run: seq<Action>, n: nat, h: nat, w: nat)
    requires Behaviour(c, states, run) && n <= |run| && c.numHandlers <= c.capacity
    requires h < |states[n].handlers| && states[n].handlers[h].Dispatching?
    requires states[n].handlers[h].id < |states[n].tasks|
    requires Routed(c, states[n].tasks[states[n].handlers[h].id].cmd, w)
    ensures Enabled(c, states[n], Dispatch(h, w))
  {
    Reachable(c, states, run, n);
    var s := states[n];
    OutstandingBound(c, s);
    assert HandlerOK(s, h) && QueueOK(s, w);
    var mine := s.handlers[h].id;
    QueueSize(s.queues[w], Outstanding(s) - {mine});
  }

  // ---- progress ------------------------------------------------------------------------

  /** The steps that work off what has been read; the others are the clock and new commands. */
  predicate Work(a: Action) {
    !a.Tick? && !a.Read?
  }

  lemma WorkerCanStep(c: Config, s: State, w: nat) returns (a: Action)
    requires ConfigOK(c) && Placed(c, s) && w < c.numWorkers && (s.queues[w] != [] || !s.workers[w].Free?)
    ensures Enabled(c, s, a) && Work(a)
  {
    assert WorkerOK(s, w) && QueueOK(s, w);
    match s.workers[w]
    case Free => a := Take(w);
    case Busy(id) =>
      var evicts := Stores(c, s.tasks[id].cmd) && |s.dicts[w].store| >= c.maxKeyNumber;
      a := Start(w, 0, if evicts then s.dicts[w].store.Keys else {});
    case Holding(id, _) => a := Recheck(w);
    case Replying(id, _) =>
      assert ChannelOK(s, id);
      a := Send(w);
  }

  /** Whenever a handler is waiting, for a queue slot or for a reply, some working step can be taken. */
  lemma NoDeadlock(c: Config, states: seq<State>, run: seq<Action>, n: nat, h: nat) returns (a: Action)
    requires Behaviour(c, states, run) && n <= |run| && h < |states[n].handlers| && !states[n].handlers[h].Idle?
    ensures Enabled(c, states[n], a) && Work(a)
  {
    Reachable(c, states, run, n);
    var s := states[n];
    assert HandlerOK(s, h);
    var id := s.handlers[h].id;
    assert TaskOK(s, id);
    match s.tasks[id].stage
    case Pending(_) =>
      var cmd := s.tasks[id].cmd;
      var w := if |cmd.args| > 0 then Partition(c, cmd.args[0]) else 0;
      if |s.queues[w]| < c.capacity {
        a := Dispatch(h, w);
      } else {
        a := WorkerCanStep(c, s, w);
      }
    case Queued(_, w) => a := WorkerCanStep(c, s, w);
    case Running(_, w) => a := WorkerCanStep(c, s, w);
    case Rechecking(_, w) => a := WorkerCanStep(c, s, w);
    case Sending(_, w, _) => a := WorkerCanStep(c, s, w);
    case Answered(_, _) =>
      assert ChannelOK(s, id);
      a := Receive(h);
  }

  function StepsLeft(stage: Stage): nat {
    match stage
    case Pending(_) => 6
    case Queued(_, _) => 5
    case Running(_, _) => 4
    case Rechecking(_, _) => 3
    case Sending(_, _, _) => 2
    case Answered(_, _) => 1
    case Done(_) => 0
  }

  function Rank(tasks: seq<Task>): nat {
    if tasks == [] then 0 else Rank(tasks[..|tasks| - 1]) + StepsLeft(tasks[|tasks| - 1].stage)
  }

  lemma {:induction false} RankMove(tasks: seq<Task>, id: nat, task: Task)
    requires id < |tasks|
    ensures Rank(tasks[id := task]) == Rank(tasks) - StepsLeft(tasks[id].stage) + StepsLeft(task.stage)
  {
    var n := |tasks| - 1;
    if id < n {
      RankMove(tasks[..n], id, task);
      assert tasks[id := task][..n] == tasks[..n][id := task];
    } else {
      assert tasks[id := task][..n] == tasks[..n];
    }
  }

  lemma RankStep(c: Config, s: State, a: Action)
    requires ConfigOK(c) && Placed(c, s) && Enabled(c, s, a)
    ensures Work(a) ==> Rank(Apply(c, s, a).tasks) < Rank(s.tasks)
    ensures a.Read? ==> Rank(Apply(c, s, a).tasks) == Rank(s.tasks) + 6
    ensures a.Tick? ==> Rank(Apply(c, s, a).tasks) == Rank(s.tasks)
  {
    hide Execute;
    var s' := Apply(c, s, a);
    if a.Read? {
      assert s'.tasks[..|s'.tasks| - 1] == s.tasks;
    } else if Work(a) {
      if a.Dispatch? || a.Receive? {
        assert HandlerOK(s, a.h);
      }
      var id := if a.Dispatch? || a.Receive? then s.handlers[a.h].id
                else if a.Take? then s.queues[a.w][0]
                else s.workers[a.w].id;
      RankMove(s.tasks, id, s'.tasks[id]);
    }
  }

  function Count(run: seq<Action>, work: bool): nat {
    if run == [] then 0
    else
      var last := run[|run| - 1];
      Count(run[..|run| - 1], work) + if (if work then Work(last) else last.Read?) then 1 else 0
  }

  /** Every command costs at most six working steps, in any interleaving: so once no more are read, work dries up,
      and by NoDeadlock it does so only when every handler has its answer. */
  lemma {:induction false} WorkIsBounded(c: Config, states: seq<State>, run: seq<Action>, n: nat)
    requires Behaviour(c, states, run) && n <= |run|
    ensures Count(run[..n], true) + Rank(states[n].tasks) <= 6 * Count(run[..n], false)
  {
    if n > 0 {
      WorkIsBounded(c, states, run, n - 1);
      Reachable(c, states, run, n - 1);
      assert StepAt(c, states, run, n - 1);
      RankStep(c, states[n - 1], run[n - 1]);
      assert run[..n][..n - 1] == run[..n - 1];
    }
  }

  /** A state without a working step to take has answered every command that was read. */
  lemma QuietMeansAnswered(c: Config, states: seq<State>, run: seq<Action>, n: nat, id: nat)
    requires Behaviour(c, states, run) && n <= |run| && id < |states[n].tasks|
    requires forall a :: Work(a) ==> !Enabled(c, states[n], a)
    ensures exists i :: 0 <= i < |states[n].history| && states[n].history[i].Respond? && states[n].history[i].id == id
  {
    Reachable(c, states, run, n);
    var s := states[n];
    assert TaskOK(s, id) && RecordOK(s, id);
    if !s.tasks[id].stage.Done? {
      var a := NoDeadlock(c, states, run, n, s.tasks[id].stage.h);
    }
    assert s.history[s.tasks[id].respondedAt].id == id;
  }

  // ---- first come, first served ----------------------------------------------------------

  ghost predicate InQueue(s: State, w: nat, id: nat) {
    w < |s.queues| && id in s.queues[w]
  }

  ghost predicate BeforeInQueue(q: seq<nat>, a: nat, b: nat) {
    exists x, y :: 0 <= x < y < |q| && q[x] == a && q[y] == b
  }

  /** The worker is executing the task. */
  ghost predicate AtWork(s: State, w: nat, id: nat) {
    w < |s.workers| && (s.workers[w].Busy? || s.workers[w].Holding?) && s.workers[w].id == id
  }

  ghost predicate ExecutedBefore(s: State, a: nat, b: nat) {
    && a < |s.tasks| && b < |s.tasks| && Executed(s.tasks[a].stage) && Executed(s.tasks[b].stage)
    && s.tasks[a].executedAt < s.tasks[b].executedAt
  }

  /** Task a is ahead of task b at worker w. */
  ghost predicate Ahead(s: State, w: nat, a: nat, b: nat) {
    || (w < |s.queues| && BeforeInQueue(s.queues[w], a, b))
    || (AtWork(s, w, a) && InQueue(s, w, b))
    || (a < |s.tasks| && Executed(s.tasks[a].stage) && (InQueue(s, w, b) || AtWork(s, w, b)))
    || ExecutedBefore(s, a, b)
  }

  lemma AheadTake(c: Config, s: State, s': State, v: nat, w: nat, a: nat, b: nat)
    requires ConfigOK(c) && Placed(c, s) && Enabled(c, s, Take(v)) && s' == Apply(c, s, Take(v)) && Ahead(s, w, a, b)
    ensures Ahead(s', w, a, b)
  {
    assert QueueOK(s, v) && WorkerOK(s, v);
    var q, id := s.queues[v], s.queues[v][0];
    assert !Executed(s.tasks[id].stage);
    if w == v {
      assert forall x :: 0 < x < |q| ==> q[x] == q[1..][x - 1];
      if BeforeInQueue(q, a, b) {
        var x, y :| 0 <= x < y < |q| && q[x] == a && q[y] == b;
        assert q[1..][y - 1] == b;
        if x > 0 {
          assert q[1..][x - 1] == a;
        }
      }
    }
  }

  lemma AheadWork(c: Config, s: State, s': State, e: Action, w: nat, a: nat, b: nat)
    requires ConfigOK(c) && Placed(c, s) && Logged(s) && (e.Start? || e.Recheck?) && Enabled(c, s, e)
    requires s' == Apply(c, s, e)
    requires Ahead(s, w, a, b)
    ensures Ahead(s', w, a, b)
  {
    hide Execute;
    var id := s.workers[e.w].id;
    assert WorkerOK(s, e.w);
    assert a < |s.tasks| ==> RecordOK(s, a);
    assert !Executed(s.tasks[id].stage) && s'.queues == s.queues;
    if AtWork(s, w, b) && a < |s.tasks| && Executed(s.tasks[a].stage) {
      assert WorkerOK(s, w);
    }
  }

  lemma AheadElse(c: Config, s: State, s': State, e: Action, w: nat, a: nat, b: nat)
    requires ConfigOK(c) && Placed(c, s) && !e.Take? && !e.Start? && !e.Recheck? && Enabled(c, s, e)
    requires s' == Apply(c, s, e)
    requires Ahead(s, w, a, b)
    ensures Ahead(s', w, a, b)
  {
    if e.Dispatch? || e.Receive? {
      assert HandlerOK(s, e.h) && ChannelOK(s, s.handlers[e.h].id);
    } else if e.Send? {
      assert WorkerOK(s, e.w);
    }
    if w < |s.queues| && BeforeInQueue(s.queues[w], a, b) {
      var x, y :| 0 <= x < y < |s.queues[w]| && s.queues[w][x] == a && s.queues[w][y] == b;
      assert s'.queues[w][x] == a && s'.queues[w][y] == b;
    }
  }

  /** In every interleaving a worker executes tasks in the order in which they were put into its queue. */
  lemma {:induction false} FirstComeFirstServed(c: Config, states: seq<State>, run: seq<Action>, m: nat, n: nat, w: nat,
                                                a: nat, b: nat)
    requires Behaviour(c, states, run) && m <= n <= |run|
    requires w < |states[m].queues| && BeforeInQueue(states[m].queues[w], a, b)
    ensures Ahead(states[n], w, a, b)
    ensures b < |states[n].tasks| && Executed(states[n].tasks[b].stage) ==> ExecutedBefore(states[n], a, b)
  {
    Reachable(c, states, run, n);
    if m < n {
      FirstComeFirstServed(c, states, run, m, n - 1, w, a, b);
      Reachable(c, states, run, n - 1);
      assert StepAt(c, states, run, n - 1);
      AheadStep(c, states[n - 1], states[n], run[n - 1], w, a, b);
    }
    NotYet(c, states[n], w, a, b);
  }

  lemma AheadStep(c: Config, s: State, s': State, e: Action, w: nat, a: nat, b: nat)
    requires ConfigOK(c) && Placed(c, s) && Logged(s) && Enabled(c, s, e) && s' == Apply(c, s, e) && Ahead(s, w, a, b)
    ensures Ahead(s', w, a, b)
  {
    hide Ahead, Placed, Logged, Apply;
    if e.Take? {
      AheadTake(c, s, s', e.w, w, a, b);
    } else if e.Start? || e.Recheck? {
      AheadWork(c, s, s', e, w, a, b);
    } else {
      AheadElse(c, s, s', e, w, a, b);
    }
  }

  lemma NotYet(c: Config, s: State, w: nat, a: nat, b: nat)
    requires Placed(c, s) && Ahead(s, w, a, b)
    ensures b < |s.tasks| && Executed(s.tasks[b].stage) ==> ExecutedBefore(s, a, b)
  {
    assert w < |s.queues| ==> QueueOK(s, w);
    assert w < |s.workers| ==> WorkerOK(s, w);
  }
}
