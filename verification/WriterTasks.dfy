/** The hand-off between a writing client and its background task: a bounded queue of chunks, a queue of
    control messages, and a task that serves both. Every interleaving of the two sides is a run of `Apply`. */
module WriterTasks {
  import opened Common

  const CONTROL_CAPACITY: nat := 2

  datatype Config = Config(capacity: nat, biased: bool)

  datatype Order = FlushOrder | CompleteOrder

  /** The task: at its select; there, having found no chunk; emptying the queue for an order; done; failed. */
  datatype Task = Ready | NoChunk | Draining(order: Order) | Stopped | Broken

  datatype Client = Idle | Sending(chunk: seq<byte>) | Asking(order: Order) | Waiting(order: Order) | Failed

  /** `accepted` and `handed` record the chunks the queue took in, and those given to the writer below. */
  datatype Chan = Chan(queue: seq<seq<byte>>, control: seq<Order>, acked: bool, task: Task, client: Client,
                       accepted: seq<seq<byte>>, handed: seq<seq<byte>>)

  datatype Action =
    | TakeChunk | MissChunk | TakeOrder | Sleep | DrainChunk | Acknowledge | Break
    | CallWrite(chunk: seq<byte>) | Send(sent: seq<byte>) | CallOrder(order: Order) | Ask | TakeAck | GiveUp

  function Init(): Chan {
    Chan([], [], false, Ready, Idle, [], [])
  }

  predicate Running(s: Chan) {
    !s.task.Stopped? && !s.task.Broken?
  }

  /** The chunk at the head of the queue goes to the writer. */
  function HandOver(s: Chan): Chan
    requires s.queue != []
  {
    s.(queue := s.queue[1..], handed := s.handed + [s.queue[0]])
  }

  /** One step of either side. A biased select looks at the chunks first; but chunks may arrive between that
      look and the one at the orders. */
  function Apply(cfg: Config, s: Chan, a: Action): Option<Chan> {
    match a
    case TakeChunk => if s.task.Ready? && s.queue != [] then Some(HandOver(s)) else None
    case MissChunk => if s.task.Ready? && s.queue == [] then Some(s.(task := NoChunk)) else None
    case TakeOrder =>
      if (s.task.NoChunk? || (s.task.Ready? && !cfg.biased)) && s.control != []
      then Some(s.(task := Draining(s.control[0]), control := s.control[1..])) else None
    case Sleep => if s.task.NoChunk? && s.control == [] then Some(s.(task := Ready)) else None
    case DrainChunk => if s.task.Draining? && s.queue != [] then Some(HandOver(s)) else None
    case Acknowledge =>
      if s.task.Draining? && s.queue == []
      then Some(s.(acked := true, task := if s.task.order.CompleteOrder? then Stopped else Ready)) else None
    case Break => if Running(s) then Some(s.(task := Broken)) else None
    case CallWrite(chunk) => if s.client.Idle? && chunk != [] then Some(s.(client := Sending(chunk))) else None
    case Send(sent) =>
      if s.client == Sending(sent) && Running(s) && |s.queue| < cfg.capacity
      then Some(s.(queue := s.queue + [sent], accepted := s.accepted + [sent], client := Idle)) else None
    case CallOrder(order) => if s.client.Idle? then Some(s.(client := Asking(order))) else None
    case Ask =>
      if s.client.Asking? && Running(s) && |s.control| < CONTROL_CAPACITY
      then Some(s.(control := s.control + [s.client.order], acked := false, client := Waiting(s.client.order)))
      else None
    case TakeAck => if s.client.Waiting? && s.acked then Some(s.(client := Idle)) else None
    case GiveUp =>
      if (s.client.Sending? || s.client.Asking? || (s.client.Waiting? && !s.acked)) && !Running(s)
      then Some(s.(client := Failed)) else None
  }

  function Run(cfg: Config, s: Chan, actions: seq<Action>): Option<Chan>
    decreases |actions|
  {
    if actions == [] then Some(s)
    else match Run(cfg, s, actions[..|actions| - 1])
      case None => None
      case Some(t) => Apply(cfg, t, actions[|actions| - 1])
  }

  /** The chunks that write calls got rid of in a run. */
  function Sent(actions: seq<Action>): seq<seq<byte>>
    decreases |actions|
  {
    if actions == [] then []
    else
      var last := actions[|actions| - 1];
      Sent(actions[..|actions| - 1]) + if last.Send? then [last.sent] else []
  }

  /** An order is with the task only while the client waits for its answer, and the answer comes only when
      every accepted chunk has been handed over. */
  predicate Inv(s: Chan) {
    && s.handed + s.queue == s.accepted
    && (s.task.Draining? ==> s.client == Waiting(s.task.order) && s.control == [] && !s.acked)
    && (s.control != [] ==> s.client.Failed? || (s.client.Waiting? && s.control == [s.client.order] && !s.acked))
    && (s.client.Waiting? && s.acked ==> s.queue == [])
    && (s.client.Waiting? && !s.acked && Running(s) ==> s.task.Draining? || s.control != [])
    && (s.task.Stopped? ==> s.queue == [])
    && (s.client == Waiting(CompleteOrder) && s.acked ==> s.task.Stopped?)
    && (s.client.Failed? ==> !Running(s))
    && (s.client.Waiting? && s.task.Stopped? ==> s.client.order.CompleteOrder? && s.acked)
  }

  lemma {:induction false} StepKeeps(cfg: Config, s: Chan, a: Action)
    requires Inv(s) && Apply(cfg, s, a).Some?
    ensures Inv(Apply(cfg, s, a).value)
    ensures Apply(cfg, s, a).value.accepted == s.accepted + if a.Send? then [a.sent] else []
  {
    var t := Apply(cfg, s, a).value;
    if a.TakeChunk? || a.DrainChunk? {
      assert s.handed + s.queue == (s.handed + [s.queue[0]]) + s.queue[1..];
    } else if a.Send? {
      assert (s.handed + s.queue) + [a.sent] == s.handed + (s.queue + [a.sent]);
    }
  }

  lemma {:induction false} RunKeeps(cfg: Config, actions: seq<Action>)
    requires Run(cfg, Init(), actions).Some?
    ensures Inv(Run(cfg, Init(), actions).value)
    ensures Run(cfg, Init(), actions).value.accepted == Sent(actions)
    decreases |actions|
  {
    hide Apply;
    if actions != [] {
      var before := actions[..|actions| - 1];
      RunKeeps(cfg, before);
      StepKeeps(cfg, Run(cfg, Init(), before).value, actions[|actions| - 1]);
    }
  }

  /** The barrier, over every interleaving: what the writer below has been given is always the first chunks
      sent, each once and in order; and when a flush or a complete is answered it is all of them. */
  lemma {:induction false} FlushBarrier(cfg: Config, actions: seq<Action>)
    requires Run(cfg, Init(), actions).Some?
    ensures var s := Run(cfg, Init(), actions).value;
            s.handed <= Sent(actions) && (s.client.Waiting? && s.acked ==> s.handed == Sent(actions))
  {
    RunKeeps(cfg, actions);
  }

  /** Neither queue ever holds more than it has room for; of the orders there is never more than one. */
  lemma {:induction false} QueuesBounded(cfg: Config, actions: seq<Action>)
    requires Run(cfg, Init(), actions).Some?
    ensures var s := Run(cfg, Init(), actions).value;
            |s.queue| <= cfg.capacity && |s.control| <= 1
    decreases |actions|
  {
    hide Apply, Inv;
    if actions != [] {
      var before := actions[..|actions| - 1];
      QueuesBounded(cfg, before);
      RunKeeps(cfg, before);
      StepBounded(cfg, Run(cfg, Init(), before).value, actions[|actions| - 1]);
    }
  }

  lemma {:induction false} StepBounded(cfg: Config, s: Chan, a: Action)
    requires Inv(s) && |s.queue| <= cfg.capacity && |s.control| <= 1 && Apply(cfg, s, a).Some?
    ensures |Apply(cfg, s, a).value.queue| <= cfg.capacity && |Apply(cfg, s, a).value.control| <= 1
  {
  }

  /** Looking at the chunks first does not make draining superfluous: a chunk sent between the task's two
      looks is in the queue when the order is taken. */
  lemma {:induction false} BiasNeedsDrain(capacity: nat, chunk: seq<byte>)
    requires capacity > 0 && chunk != []
    ensures var s := Run(Config(capacity, true), Init(),
                         [MissChunk, CallWrite(chunk), Send(chunk), CallOrder(FlushOrder), Ask, TakeOrder]);
            s.Some? && s.value.task == Draining(FlushOrder) && s.value.queue == [chunk] && s.value.handed == []
  {
    var cfg := Config(capacity, true);
    var a := [MissChunk, CallWrite(chunk), Send(chunk), CallOrder(FlushOrder), Ask, TakeOrder];
    assert a[..6] == a;
    forall n | 0 <= n < 6 ensures a[..n + 1][..n] == a[..n] {
    }
    assert Run(cfg, Init(), a[..1]) == Some(Init().(task := NoChunk));
    assert Run(cfg, Init(), a[..2]).value.client == Sending(chunk);
    assert Run(cfg, Init(), a[..3]).value.queue == [chunk];
    assert Run(cfg, Init(), a[..4]).value.client == Asking(FlushOrder);
    assert Run(cfg, Init(), a[..5]).value.control == [FlushOrder];
  }

  predicate IsTask(a: Action) {
    a.TakeChunk? || a.MissChunk? || a.TakeOrder? || a.Sleep? || a.DrainChunk? || a.Acknowledge?
  }

  /** The client cannot go on without the task. */
  predicate Blocked(cfg: Config, s: Chan) {
    || (s.client.Sending? && |s.queue| >= cfg.capacity)
    || (s.client.Asking? && |s.control| >= CONTROL_CAPACITY)
    || (s.client.Waiting? && !s.acked)
  }

  /** An upper bound on the steps a blocked client still waits for. */
  function Patience(s: Chan): nat {
    2 * |s.queue| +
    match s.task
    case Ready => 3
    case NoChunk => if s.control == [] then 4 else 2
    case Draining(_) => 1
    case Stopped => 0
    case Broken => 0
  }

  /** What the task does next, whatever the select prefers. */
  function NextStep(s: Chan): Action {
    match s.task
    case Ready => if s.queue != [] then TakeChunk else MissChunk
    case NoChunk => if s.control != [] then TakeOrder else Sleep
    case Draining(_) => if s.queue != [] then DrainChunk else Acknowledge
    case Stopped => Break
    case Broken => Break
  }

  /** There is no deadlock: while the client is blocked a running task can step. */
  lemma {:induction false} NeverStuck(cfg: Config, s: Chan)
    requires Inv(s) && Running(s)
    ensures IsTask(NextStep(s)) && Apply(cfg, s, NextStep(s)).Some?
    ensures !(s.client.Asking? && |s.control| >= 2)
  {
  }

  /** And every step it takes brings the end of the wait nearer. */
  lemma {:induction false} WaitEnds(cfg: Config, s: Chan, a: Action)
    requires cfg.capacity > 0 && Inv(s) && Running(s) && Blocked(cfg, s) && IsTask(a) && Apply(cfg, s, a).Some?
    ensures var t := Apply(cfg, s, a).value;
            t.client == s.client && (!Blocked(cfg, t) || (Running(t) && Patience(t) < Patience(s)))
  {
  }

  /** A run of task steps during which the client stays blocked. */
  ghost predicate BlockedThroughout(cfg: Config, s: Chan, actions: seq<Action>) {
    && (forall i :: 0 <= i < |actions| ==> IsTask(actions[i]))
    && (forall n :: 0 <= n <= |actions| ==>
          Run(cfg, s, actions[..n]).Some? && Blocked(cfg, Run(cfg, s, actions[..n]).value))
  }

  /** However the task is scheduled, a client is blocked for a bounded number of its steps; and until then
      the task always has one to take. */
  lemma {:induction false} WaitIsBounded(cfg: Config, s: Chan, actions: seq<Action>)
    requires cfg.capacity > 0 && Inv(s) && Running(s) && BlockedThroughout(cfg, s, actions)
    ensures |actions| <= Patience(s)
    ensures var t := Run(cfg, s, actions);
            && t.Some? && Inv(t.value) && Running(t.value)
            && IsTask(NextStep(t.value)) && Apply(cfg, t.value, NextStep(t.value)).Some?
            && Patience(t.value) + |actions| <= Patience(s)
    decreases |actions|
  {
    assert actions[..|actions|] == actions;
    if actions == [] {
      NeverStuck(cfg, s);
    } else {
      var before := actions[..|actions| - 1];
      forall n | 0 <= n <= |before| ensures before[..n] == actions[..n] {
      }
      WaitIsBounded(cfg, s, before);
      var t, a := Run(cfg, s, before).value, actions[|actions| - 1];
      assert before[..|before|] == before;
      WaitEnds(cfg, t, a);
      StepKeeps(cfg, t, a);
      NeverStuck(cfg, Apply(cfg, t, a).value);
    }
  }

  /** Once the task has ended, a client in the middle of a call finds its answer there, or gives up; no other does. */
  lemma ServedOrClosed(cfg: Config, s: Chan)
    ensures Apply(cfg, s, GiveUp).Some? <==>
            && !Running(s) && !s.client.Idle? && !s.client.Failed? && Apply(cfg, s, TakeAck).None?
  {
  }
}
