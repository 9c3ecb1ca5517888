/**
  * The prefetch protocol between a client and one background read task: a bounded queue of chunks, a
  * queue of control messages, and the Seek / Start / Stop handshake. Every interleaving of the two is a
  * sequence of actions; the select over both queues may take either one when both are ready.
  */
module Prefetch {
  import opened Common
  import opened FileBlocks
  import opened FsReaderBases
  import opened Slices
  import opened ParallelReads

  /** What is fixed for one channel: the file, the reader's slices, the capacity of the chunk queue. */
  datatype Config = Config(layout: Layout, slices: seq<Range>, k: nat, capacity: nat) {
    predicate Valid() {
      && layout.Valid() && slices != [] && capacity > 0
      && IsShare(slices, layout.Len(), layout.SliceStep(), layout.parallel, k)
    }
  }

  const CONTROL_CAPACITY: nat := 2

  datatype Task = SeekTask(pos: nat) | StartTask | StopTask

  /** A queued chunk. `era` counts the seeks the task had executed when it read the chunk. */
  datatype Item = Item(chunk: FileChunk, era: nat)

  /** Where the client is inside its calls on the channel. */
  datatype Client =
    | Idle
    | Receiving
    | SeekSend(pos: nat) | SeekWait(pos: nat) | Draining(pos: nat) | StartSend(pos: nat)
    | StopSend | StopWait
    | Ended
    | Failed

  datatype Chan = Chan(
    queue: seq<Item>,
    control: seq<Task>,
    paused: bool,      // the task waits for a control message
    reading: bool,     // the task holds a slot of the queue and reads the chunk to put there
    running: bool,
    acked: bool,       // the answer to the pending Seek or Stop has arrived
    reader: View,
    era: nat,
    client: Client,
    clientEra: nat)    // how many seeks the client has completed

  datatype Action =
    // the task
    | Control | Reserve | Deliver | Fail
    // the client
    | CallRead | Receive
    | CallSeek(pos: nat) | SendSeek | TakeAck | Drain | DrainEnd | SendStart
    | CallStop | SendStop | TakeStopAck
    | SeeClosed

  function Init(): Chan {
    Chan([], [], false, false, true, false, View(None, 0), 0, Idle, 0)
  }

  /** The reader will only ever produce empty chunks. */
  predicate Exhausted(c: Config, v: View)
    requires c.Valid() && ValidView(c.layout, c.slices, v)
  {
    ReadView(c.layout, c.slices, v).0.data == []
  }

  lemma ReadKeepsValid(c: Config, v: View)
    requires c.Valid() && ValidView(c.layout, c.slices, v)
    ensures ValidView(c.layout, c.slices, ReadView(c.layout, c.slices, v).1)
    ensures Exhausted(c, v) ==> Exhausted(c, ReadView(c.layout, c.slices, v).1)
  {
  }

  lemma SeekKeepsValid(c: Config, pos: nat)
    requires c.Valid()
    ensures ValidView(c.layout, c.slices, SeekView(c.layout, c.slices, pos))
  {
  }

  /** The task takes the next control message. */
  function TakeControl(c: Config, s: Chan): (s': Chan)
    requires c.Valid() && s.control != [] && ValidView(c.layout, c.slices, s.reader)
    ensures ValidView(c.layout, c.slices, s'.reader)
  {
    var rest := s.control[1..];
    match s.control[0]
    case SeekTask(p) =>
      SeekKeepsValid(c, p);
      s.(control := rest, reader := SeekView(c.layout, c.slices, p), paused := true, acked := true, era := s.era + 1)
    case StartTask => s.(control := rest, paused := false)
    case StopTask => s.(control := rest, running := false, acked := true)
  }

  /** The client cannot get what it waits for any more: the task has ended. */
  predicate Cut(s: Chan) {
    !s.running &&
    match s.client
    case Receiving => s.queue == []
    case Draining(_) => s.queue == []
    case SeekSend(_) => true
    case StartSend(_) => true
    case StopSend => true
    case SeekWait(_) => !s.acked
    case StopWait => !s.acked
    case _ => false
  }

  /** One step, or None when the action is not possible. */
  function Apply(c: Config, s: Chan, a: Action): (r: Option<Chan>)
    requires c.Valid() && ValidView(c.layout, c.slices, s.reader)
    ensures r.Some? ==> ValidView(c.layout, c.slices, r.value.reader)
  {
    match a
    case Control =>
      if s.running && !s.reading && s.control != [] then Some(TakeControl(c, s)) else None
    case Reserve =>
      if s.running && !s.reading && !s.paused && |s.queue| < c.capacity then Some(s.(reading := true)) else None
    case Deliver =>
      if s.running && s.reading then
        ReadKeepsValid(c, s.reader);
        var (chunk, v) := ReadView(c.layout, c.slices, s.reader);
        Some(s.(queue := s.queue + [Item(chunk, s.era)], reader := v, reading := false, paused := chunk.data == []))
      else None
    case Fail => if s.running then Some(s.(running := false, reading := false)) else None
    case CallRead => if s.client == Idle then Some(s.(client := Receiving)) else None
    case Receive =>
      if s.client == Receiving && s.queue != [] then Some(s.(queue := s.queue[1..], client := Idle)) else None
    case CallSeek(p) => if s.client == Idle then Some(s.(client := SeekSend(p))) else None
    case SendSeek =>
      if s.client.SeekSend? && s.running && |s.control| < CONTROL_CAPACITY
      then Some(s.(control := s.control + [SeekTask(s.client.pos)], acked := false, client := SeekWait(s.client.pos)))
      else None
    case TakeAck => if s.client.SeekWait? && s.acked then Some(s.(client := Draining(s.client.pos))) else None
    case Drain => if s.client.Draining? && s.queue != [] then Some(s.(queue := s.queue[1..])) else None
    case DrainEnd =>
      if s.client.Draining? && s.queue == [] && s.running then Some(s.(client := StartSend(s.client.pos))) else None
    case SendStart =>
      if s.client.StartSend? && s.running && |s.control| < CONTROL_CAPACITY
      then Some(s.(control := s.control + [StartTask], client := Idle, clientEra := s.clientEra + 1))
      else None
    case CallStop => if s.client == Idle then Some(s.(client := StopSend)) else None
    case SendStop =>
      if s.client == StopSend && s.running && |s.control| < CONTROL_CAPACITY
      then Some(s.(control := s.control + [StopTask], acked := false, client := StopWait))
      else None
    case TakeStopAck => if s.client == StopWait && s.acked then Some(s.(client := Ended)) else None
    case SeeClosed => if Cut(s) then Some(s.(client := Failed)) else None
  }

  /** The queued chunks are what a reader in state `v` reads one after the other, all in era `era`, and
      they leave it in state `last`. */
  predicate Chain(c: Config, v: View, queue: seq<Item>, era: nat, last: View)
    requires c.Valid() && ValidView(c.layout, c.slices, v)
    decreases |queue|
  {
    if queue == [] then v == last
    else
      ReadKeepsValid(c, v);
      var (chunk, v') := ReadView(c.layout, c.slices, v);
      queue[0] == Item(chunk, era) && Chain(c, v', queue[1..], era, last)
  }

  /** Between seeks: the queue continues what the client has seen, and a paused task has a Start on its
      way or nothing left to read. */
  predicate Settled(c: Config, s: Chan, v: View)
    requires c.Valid() && ValidView(c.layout, c.slices, v) && ValidView(c.layout, c.slices, s.reader)
  {
    && Chain(c, v, s.queue, s.era, s.reader) && s.era == s.clientEra
    && (s.control == [] || s.control == [StartTask])
    && (s.control == [StartTask] ==> s.paused && s.queue == [])
    && (s.control == [] && s.paused ==> Exhausted(c, s.reader))
  }

  /** After the task executed the client's seek and before the client restarts it. */
  predicate Sought(c: Config, s: Chan, pos: nat)
    requires c.Valid()
  {
    && s.control == [] && s.paused && s.era == s.clientEra + 1
    && s.reader == SeekView(c.layout, c.slices, pos)
  }

  /** The invariant. `v` is the state a reader would be in that had executed the client's calls itself. */
  predicate Inv(c: Config, s: Chan, v: View)
    requires c.Valid()
  {
    && ValidView(c.layout, c.slices, v) && ValidView(c.layout, c.slices, s.reader)
    && (s.reading ==> s.running && !s.paused)
    && |s.queue| + (if s.reading then 1 else 0) <= c.capacity
    && match s.client
       case Idle => Settled(c, s, v)
       case Receiving => Settled(c, s, v)
       case SeekSend(_) => Settled(c, s, v)
       case StopSend => Settled(c, s, v)
       case SeekWait(p) =>
         if s.acked then Sought(c, s, p)
         else s.era == s.clientEra && (s.control == [SeekTask(p)] || s.control == [StartTask, SeekTask(p)])
       case Draining(p) => Sought(c, s, p)
       case StartSend(p) => Sought(c, s, p) && s.queue == []
       case StopWait => s.acked || s.control == [StopTask] || s.control == [StartTask, StopTask]
       case Ended => true
       case Failed => true
  }

  /** The task is only told to stop by a client that waits for the answer. */
  lemma {:induction false} StopIsAwaited(c: Config, s: Chan, v: View)
    requires c.Valid() && Inv(c, s, v) && s.control != [] && s.control[0] == StopTask
    ensures s.client.StopWait? || s.client.Ended? || s.client.Failed?
  {
  }

  /** What the action does to a reader that serves the client's calls directly. */
  function Follow(c: Config, s: Chan, v: View, a: Action): View
    requires c.Valid() && ValidView(c.layout, c.slices, v)
  {
    if a.Receive? then ReadView(c.layout, c.slices, v).1
    else if a.SendStart? && s.client.StartSend? then SeekView(c.layout, c.slices, s.client.pos)
    else v
  }

  /** A chunk read ahead continues the chain. */
  lemma {:induction false} ChainGrows(c: Config, v: View, queue: seq<Item>, era: nat, last: View)
    requires c.Valid() && ValidView(c.layout, c.slices, v) && ValidView(c.layout, c.slices, last)
    requires Chain(c, v, queue, era, last)
    ensures var (chunk, next) := ReadView(c.layout, c.slices, last);
            Chain(c, v, queue + [Item(chunk, era)], era, next)
    decreases |queue|
  {
    var (chunk, next) := ReadView(c.layout, c.slices, last);
    var longer := queue + [Item(chunk, era)];
    ReadKeepsValid(c, v);
    if queue != [] {
      ChainGrows(c, ReadView(c.layout, c.slices, v).1, queue[1..], era, last);
      assert longer[1..] == queue[1..] + [Item(chunk, era)];
    }
  }

  /** The task's actions keep the invariant. */
  lemma {:induction false} TaskStep(c: Config, s: Chan, v: View, a: Action)
    requires c.Valid() && Inv(c, s, v) && IsTask(a)
    requires Apply(c, s, a).Some?
    ensures Inv(c, Apply(c, s, a).value, v)
  {
    if a.Deliver? {
      ReadKeepsValid(c, s.reader);
      if s.client.Idle? || s.client.Receiving? || s.client.SeekSend? || s.client.StopSend? {
        ChainGrows(c, v, s.queue, s.era, s.reader);
      }
    }
  }

  predicate IsTask(a: Action) {
    a.Control? || a.Reserve? || a.Deliver? || a.Fail?
  }

  /** A chunk the client receives is the next one of the direct reader, read after the client's last
      seek. */
  lemma {:induction false} ReceiveStep(c: Config, s: Chan, v: View)
    requires c.Valid() && Inv(c, s, v) && Apply(c, s, Receive).Some?
    ensures Inv(c, Apply(c, s, Receive).value, ReadView(c.layout, c.slices, v).1)
    ensures s.queue[0] == Item(ReadView(c.layout, c.slices, v).0, s.clientEra)
  {
    ReadKeepsValid(c, v);
  }

  lemma {:induction false} StartStep(c: Config, s: Chan, v: View)
    requires c.Valid() && Inv(c, s, v) && Apply(c, s, SendStart).Some?
    ensures s.client.StartSend? && Inv(c, Apply(c, s, SendStart).value, SeekView(c.layout, c.slices, s.client.pos))
  {
    SeekKeepsValid(c, s.client.pos);
    hide SeekView, ReadView, ValidView, Config.Valid;
  }

  lemma {:induction false} QuietStep(c: Config, s: Chan, v: View, a: Action)
    requires c.Valid() && Inv(c, s, v) && !IsTask(a) && !a.Receive? && !a.SendStart? && Apply(c, s, a).Some?
    ensures Inv(c, Apply(c, s, a).value, v)
  {
    hide Chain, Exhausted, SeekView, ReadView, ValidView, Config.Valid;
  }

  /** The client's actions keep the invariant. */
  lemma {:induction false} ClientStep(c: Config, s: Chan, v: View, a: Action)
    requires c.Valid() && Inv(c, s, v) && !IsTask(a) && Apply(c, s, a).Some?
    ensures Inv(c, Apply(c, s, a).value, Follow(c, s, v, a))
  {
    hide Inv, Apply, SeekView, ReadView, ValidView, Config.Valid;
    match a
    case Receive => ReceiveStep(c, s, v);
    case SendStart => StartStep(c, s, v);
    case _ => QuietStep(c, s, v, a);
  }

  lemma {:induction false} AnyStep(c: Config, s: Chan, v: View, a: Action)
    requires c.Valid() && Inv(c, s, v) && Apply(c, s, a).Some?
    ensures Inv(c, Apply(c, s, a).value, Follow(c, s, v, a))
  {
    if IsTask(a) {
      TaskStep(c, s, v, a);
    } else {
      ClientStep(c, s, v, a);
    }
  }

  /** The state after a run, if every action of it is possible in turn. */
  function Run(c: Config, s: Chan, acts: seq<Action>): (r: Option<Chan>)
    requires c.Valid() && ValidView(c.layout, c.slices, s.reader)
    ensures r.Some? ==> ValidView(c.layout, c.slices, r.value.reader)
    decreases |acts|
  {
    if acts == [] then Some(s)
    else
      match Apply(c, s, acts[0])
      case None => None
      case Some(s') => Run(c, s', acts[1..])
  }

  /** What the client receives in a run. */
  function Received(c: Config, s: Chan, acts: seq<Action>): seq<Item>
    requires c.Valid() && ValidView(c.layout, c.slices, s.reader) && Run(c, s, acts).Some?
    decreases |acts|
  {
    if acts == [] then []
    else
      var rest := Received(c, Apply(c, s, acts[0]).value, acts[1..]);
      if acts[0].Receive? then [s.queue[0]] + rest else rest
  }

  /** A client that has the reader to itself: `v` is the reader, `target` where the current seek goes,
      `seeks` how many it has completed. */
  datatype Alone = Alone(v: View, target: nat, seeks: nat)

  /** Each receive reads and each completed seek seeks; the actions of the task play no part. */
  function StepAlone(c: Config, d: Alone, a: Action): (d': Alone)
    requires c.Valid() && ValidView(c.layout, c.slices, d.v)
    ensures ValidView(c.layout, c.slices, d'.v)
  {
    match a
    case CallSeek(p) => d.(target := p)
    case SendStart =>
      SeekKeepsValid(c, d.target);
      Alone(SeekView(c.layout, c.slices, d.target), d.target, d.seeks + 1)
    case Receive =>
      ReadKeepsValid(c, d.v);
      d.(v := ReadView(c.layout, c.slices, d.v).1)
    case _ => d
  }

  /** What such a client receives, tagged with the seeks it had completed. */
  function ReceivedAlone(c: Config, d: Alone, acts: seq<Action>): seq<Item>
    requires c.Valid() && ValidView(c.layout, c.slices, d.v)
    decreases |acts|
  {
    if acts == [] then []
    else
      var rest := ReceivedAlone(c, StepAlone(c, d, acts[0]), acts[1..]);
      if acts[0].Receive? then [Item(ReadView(c.layout, c.slices, d.v).0, d.seeks)] + rest else rest
  }

  /** The channel serves the client as if it were alone with the reader. */
  predicate Matches(c: Config, s: Chan, d: Alone)
    requires c.Valid()
  {
    && Inv(c, s, d.v) && d.seeks == s.clientEra
    && (s.client.SeekSend? || s.client.SeekWait? || s.client.Draining? || s.client.StartSend? ==>
          s.client.pos == d.target)
  }

  lemma {:induction false} StepMatches(c: Config, s: Chan, d: Alone, a: Action)
    requires c.Valid() && Matches(c, s, d) && Apply(c, s, a).Some?
    ensures Matches(c, Apply(c, s, a).value, StepAlone(c, d, a))
  {
    AnyStep(c, s, d.v, a);
    assert StepAlone(c, d, a).v == Follow(c, s, d.v, a);
  }

  lemma {:induction false} RunMatches(c: Config, s: Chan, d: Alone, acts: seq<Action>)
    requires c.Valid() && Matches(c, s, d) && Run(c, s, acts).Some?
    ensures Received(c, s, acts) == ReceivedAlone(c, d, acts)
    decreases |acts|
  {
    if acts != [] {
      StepMatches(c, s, d, acts[0]);
      if acts[0].Receive? {
        ReceiveStep(c, s, d.v);
      }
      RunMatches(c, Apply(c, s, acts[0]).value, StepAlone(c, d, acts[0]), acts[1..]);
    }
  }

  /** For every interleaving of client and task, with any failures of the task: the client receives
      exactly the chunks it would have read itself, and every one of them was read after its last
      completed seek. Prefetching cannot be observed. */
  lemma {:induction false} PrefetchInvisible(c: Config, acts: seq<Action>)
    requires c.Valid() && Run(c, Init(), acts).Some?
    ensures Received(c, Init(), acts) == ReceivedAlone(c, Alone(View(None, 0), 0, 0), acts)
  {
    RunMatches(c, Init(), Alone(View(None, 0), 0, 0), acts);
  }

  /** The client waits: for a chunk, or for an answer. */
  predicate Waiting(s: Chan) {
    || (s.client.Receiving? && s.queue == [])
    || ((s.client.SeekWait? || s.client.StopWait?) && !s.acked)
  }

  /** A step of the task, short of failing. */
  predicate IsProgress(a: Action) {
    a.Control? || a.Reserve? || a.Deliver?
  }

  /** How many task steps can pass before a waiting client goes on. */
  function Patience(c: Config, s: Chan): nat
    requires |s.queue| + (if s.reading then 1 else 0) <= c.capacity
  {
    var room := 2 * (c.capacity - |s.queue|) - (if s.reading then 1 else 0);
    if s.client.Receiving? then (if s.reading then 1 else 2 + |s.control|)
    else |s.control| * (2 * c.capacity + 1) + room
  }

  /** No call blocks on a full control queue: there is always room for what the client sends. */
  lemma ControlNeverFull(c: Config, s: Chan, v: View)
    requires c.Valid() && Inv(c, s, v) && s.running
    requires s.client.SeekSend? || s.client.StartSend? || s.client.StopSend?
    ensures |s.control| < 2
  {
  }

  /** Once the task has ended, a client in the middle of a call can go on with what the task left it, and sees that
      the channel is closed exactly if there is nothing left. */
  lemma ServedOrClosed(c: Config, s: Chan, v: View)
    requires c.Valid() && Inv(c, s, v)
    ensures Apply(c, s, SeeClosed).Some? <==>
            && !s.running && !s.client.Idle? && !s.client.Ended? && !s.client.Failed?
            && Apply(c, s, Receive).None? && Apply(c, s, Drain).None?
            && Apply(c, s, TakeAck).None? && Apply(c, s, TakeStopAck).None?
  {
  }

  /** A client that waits for a chunk that exists, or for an answer, is never stuck: the task, while it
      runs, can take a step, and each step it takes leaves fewer to wait for or ends the wait. */
  lemma {:induction false} NeverStuck(c: Config, s: Chan, v: View)
    requires c.Valid() && Inv(c, s, v) && Waiting(s) && s.running
    requires s.client.Receiving? ==> !Exhausted(c, v)
    ensures exists a :: IsProgress(a) && Apply(c, s, a).Some?
  {
    if s.reading {
      assert Apply(c, s, Deliver).Some?;
    } else if s.control != [] {
      assert Apply(c, s, Control).Some?;
    } else {
      assert Apply(c, s, Reserve).Some?;
    }
  }

  lemma {:induction false} EachStepCounts(c: Config, s: Chan, v: View, a: Action)
    requires c.Valid() && Inv(c, s, v) && Waiting(s) && IsProgress(a)
    requires Apply(c, s, a).Some?
    ensures var s' := Apply(c, s, a).value;
            && |s'.queue| + (if s'.reading then 1 else 0) <= c.capacity
            && (Waiting(s') ==> Patience(c, s') < Patience(c, s))
  {
  }

  /** The client still waits after each step of a run in which only the task moves. */
  predicate WaitsThroughout(c: Config, s: Chan, acts: seq<Action>)
    requires c.Valid() && ValidView(c.layout, c.slices, s.reader)
    decreases |acts|
  {
    && Waiting(s)
    && (acts == [] ||
        (IsProgress(acts[0]) && Apply(c, s, acts[0]).Some?
         && WaitsThroughout(c, Apply(c, s, acts[0]).value, acts[1..])))
  }

  /** The task goes on running while the client waits. */
  lemma {:induction false} RunsOn(c: Config, s: Chan, v: View, a: Action)
    requires c.Valid() && Inv(c, s, v) && Waiting(s) && s.running && IsProgress(a) && Apply(c, s, a).Some?
    requires Waiting(Apply(c, s, a).value)
    ensures Apply(c, s, a).value.running && Apply(c, s, a).value.client == s.client
  {
    hide Chain, Exhausted, SeekView, ReadView, ValidView, Config.Valid;
    if a.Control? && s.control[0].StopTask? {
      StopIsAwaited(c, s, v);
    }
  }

  /** The wait is bounded, for a chunk that exists and for the answer to a seek or a stop: however the task is
      scheduled, a client waits through no more than `Patience` of its steps; and as long as it waits the task has a
      step to take. */
  lemma {:induction false} WaitEnds(c: Config, s: Chan, v: View, acts: seq<Action>)
    requires c.Valid() && Inv(c, s, v) && s.running && WaitsThroughout(c, s, acts)
    requires s.client.Receiving? ==> !Exhausted(c, v)
    ensures |acts| <= Patience(c, s) && Run(c, s, acts).Some?
    ensures var t := Run(c, s, acts).value;
            Waiting(t) && t.running && exists a :: IsProgress(a) && Apply(c, t, a).Some?
    decreases |acts|
  {
    if acts == [] {
      NeverStuck(c, s, v);
    } else {
      hide Inv, Apply, Waiting, Patience, Exhausted, ValidView, Config.Valid;
      TaskStep(c, s, v, acts[0]);
      EachStepCounts(c, s, v, acts[0]);
      RunsOn(c, s, v, acts[0]);
      WaitEnds(c, Apply(c, s, acts[0]).value, v, acts[1..]);
    }
  }

  /** Whether nothing but the task's failure can happen any more. */
  ghost predicate Stuck(c: Config, s: Chan)
    requires c.Valid() && ValidView(c.layout, c.slices, s.reader)
  {
    forall a :: a != Fail ==> Apply(c, s, a).None?
  }

  lemma {:induction false} StuckIsPaused(c: Config, s: Chan, v: View)
    requires c.Valid() && Inv(c, s, v) && s.running && s.client.Receiving?
    ensures Stuck(c, s) <==> s.queue == [] && s.control == [] && s.paused
  {
    if s.queue != [] {
      assert Apply(c, s, Receive).Some?;
    } else if s.reading {
      assert Apply(c, s, Deliver).Some?;
    } else if s.control != [] {
      assert Apply(c, s, Control).Some?;
    } else if !s.paused {
      assert Apply(c, s, Reserve).Some?;
    }
  }

  lemma {:induction false} PausedIsStuck(c: Config, s: Chan)
    requires c.Valid() && ValidView(c.layout, c.slices, s.reader) && s.running && s.client.Receiving?
    requires s.queue == [] && s.control == [] && s.paused && !s.reading
    ensures Stuck(c, s)
  {
  }

  /** Whether the client has been given an empty chunk since its last completed seek, `seen` at the start. */
  function EndSeen(c: Config, s: Chan, acts: seq<Action>, seen: bool): bool
    requires c.Valid() && ValidView(c.layout, c.slices, s.reader) && Run(c, s, acts).Some?
    decreases |acts|
  {
    if acts == [] then seen
    else EndSeen(c, Apply(c, s, acts[0]).value, acts[1..], SeenAfter(s, acts[0], seen))
  }

  predicate SeenAfter(s: Chan, a: Action, seen: bool) {
    if a.Receive? && s.queue != [] then s.queue[0].chunk.data == [] else if a.SendStart? then false else seen
  }

  /** Between seeks a task that paused has put the end marker last into the queue; the client has seen it
      exactly if it is not there any more. */
  predicate EndInv(s: Chan, seen: bool) {
    s.client.Idle? || s.client.Receiving? || s.client.SeekSend? || s.client.StopSend? ==>
      if s.paused && s.control == [] then
        && seen == (s.queue == [])
        && forall i :: 0 <= i < |s.queue| ==> (s.queue[i].chunk.data == [] <==> i == |s.queue| - 1)
      else
        !seen && forall i :: 0 <= i < |s.queue| ==> s.queue[i].chunk.data != []
  }

  lemma {:induction false} EndStep(c: Config, s: Chan, v: View, a: Action, seen: bool)
    requires c.Valid() && Inv(c, s, v) && EndInv(s, seen) && Apply(c, s, a).Some?
    ensures EndInv(Apply(c, s, a).value, SeenAfter(s, a, seen))
  {
    hide EndInv, Apply, Inv, ValidView, Config.Valid;
    if IsTask(a) {
      EndTaskStep(c, s, v, a, seen);
    } else {
      EndClientStep(c, s, v, a, seen);
    }
  }

  lemma {:induction false} EndTaskStep(c: Config, s: Chan, v: View, a: Action, seen: bool)
    requires c.Valid() && Inv(c, s, v) && EndInv(s, seen) && IsTask(a) && Apply(c, s, a).Some?
    ensures EndInv(Apply(c, s, a).value, seen)
  {
    hide Chain, ReadView, SeekView, Exhausted, ValidView, Config.Valid;
  }

  lemma {:induction false} EndClientStep(c: Config, s: Chan, v: View, a: Action, seen: bool)
    requires c.Valid() && Inv(c, s, v) && EndInv(s, seen) && !IsTask(a) && Apply(c, s, a).Some?
    ensures EndInv(Apply(c, s, a).value, SeenAfter(s, a, seen))
  {
    hide Chain, ReadView, SeekView, Exhausted, ValidView, Config.Valid;
  }

  lemma {:induction false} EndRun(c: Config, s: Chan, v: View, acts: seq<Action>, seen: bool)
    requires c.Valid() && Inv(c, s, v) && EndInv(s, seen) && Run(c, s, acts).Some?
    requires Run(c, s, acts).value.running && Run(c, s, acts).value.client.Receiving?
    ensures Stuck(c, Run(c, s, acts).value) <==> EndSeen(c, s, acts, seen)
    decreases |acts|
  {
    if acts == [] {
      StuckIsPaused(c, s, v);
    } else {
      EndStep(c, s, v, acts[0], seen);
      AnyStep(c, s, v, acts[0]);
      EndRun(c, Apply(c, s, acts[0]).value, Follow(c, s, v, acts[0]), acts[1..], SeenAfter(s, acts[0], seen));
    }
  }

  /** What the protocol does not promise: in every run, a client that asks for a chunk while the task runs is
      stuck if and only if it has been given the end marker since its last seek. */
  lemma {:induction false} StuckOnlyAtTheEnd(c: Config, acts: seq<Action>)
    requires c.Valid() && Run(c, Init(), acts).Some?
    requires Run(c, Init(), acts).value.running && Run(c, Init(), acts).value.client.Receiving?
    ensures Stuck(c, Run(c, Init(), acts).value) <==> EndSeen(c, Init(), acts, false)
  {
    EndRun(c, Init(), View(None, 0), acts, false);
  }

  /** Two steps of a run. */
  lemma {:induction false} RunTwo(c: Config, s: Chan, acts: seq<Action>, mid: Chan, end: Chan)
    requires c.Valid() && ValidView(c.layout, c.slices, s.reader) && |acts| >= 2
    requires Apply(c, s, acts[0]) == Some(mid) && ValidView(c.layout, c.slices, mid.reader)
    requires Apply(c, mid, acts[1]) == Some(end)
    ensures ValidView(c.layout, c.slices, end.reader) && Run(c, s, acts) == Run(c, end, acts[2..])
  {
    hide Apply;
    assert acts[1..][0] == acts[1] && acts[1..][1..] == acts[2..];
  }

  /** One chunk fetched and received. */
  lemma {:induction false} RunRound(c: Config, s: Chan, acts: seq<Action>, chunk: FileChunk, v: View)
    requires c.Valid() && ValidView(c.layout, c.slices, s.reader)
             && (chunk, v) == ReadView(c.layout, c.slices, s.reader)
    requires s.running && !s.reading && !s.paused && s.queue == [] && s.client.Idle?
    requires |acts| >= 4 && acts[..4] == [Reserve, Deliver, CallRead, Receive]
    ensures var end := s.(reader := v, paused := chunk.data == []);
            ValidView(c.layout, c.slices, v) && Run(c, s, acts) == Run(c, end, acts[4..])
  {
    ReadKeepsValid(c, s.reader);
    assert c.capacity > 0;
    hide ReadView, ValidView, Config.Valid;
    var read := s.(queue := [Item(chunk, s.era)], reader := v, paused := chunk.data == []);
    assert s.queue + [Item(chunk, s.era)] == read.queue && read.queue[1..] == s.queue;
    assert acts[0] == acts[..4][0] && acts[1] == acts[..4][1] && acts[2] == acts[..4][2] && acts[3] == acts[..4][3];
    RunTwo(c, s, acts, s.(reading := true), read);
    RunTwo(c, read, acts[2..], read.(client := Receiving), read.(queue := []));
    assert acts[2..][2..] == acts[4..];
  }

  /** A file of one byte, and one reader for it. */
  function OneByte(b: byte): Config {
    Config(Layout([Block(1, [b])], 4096, 4096, 1), [Range(0, 1)], 0, 1)
  }

  lemma {:induction false} OneByteFile(b: byte)
    ensures var l := OneByte(b).layout; l.Len() == 1 && l.File() == [b] && ChunkLen(l.blocks, 4096, 0) == 1
  {
    var bs := OneByte(b).layout.blocks;
    assert Start(bs, 1) == Start(bs, 0) + |bs[0].data|;
    assert Joined(bs, 1) == Joined(bs, 0) + bs[0].data;
    assert Holds(bs, 0, 0);
    HoldsUnique(bs, 0, BlockAt(bs, 0), 0);
  }

  lemma {:induction false} OneByteShare(list: seq<Range>, one: nat)
    requires list == [Range(0, 1)] && one == 1
    ensures IsShare(list, one, one, one, 0)
  {
    forall j | 0 <= j < |list| ensures list[j] == SliceNo(one, one, Nth(one, 0, j)) && list[j].start < one {
      assert Nth(one, 0, j) == j;
    }
    assert Nth(one, 0, |list|) == 1;
  }

  lemma {:induction false} OneByteReads(b: byte)
    ensures var c := OneByte(b);
            && c.Valid() && ValidView(c.layout, c.slices, View(None, 0))
            && ValidView(c.layout, c.slices, View(Some(0), 1))
            && ReadView(c.layout, c.slices, View(None, 0)) == (FileChunk(0, [b]), View(Some(0), 1))
            && ReadView(c.layout, c.slices, View(Some(0), 1)) == (FileChunk(-1, []), View(Some(0), 1))
  {
    OneByteFile(b);
    OneByteShare([Range(0, 1)], 1);
    hide Start, Joined, ChunkLen, BlockAt, Layout.File, Layout.Len, IsShare;
    assert [b][0..1] == [b];
  }

  /** It can happen: the one byte of the file, the end marker, and a third read. */
  lemma {:induction false} GetsStuck(b: byte)
    ensures var c := OneByte(b);
            var acts := [Reserve, Deliver, CallRead, Receive, Reserve, Deliver, CallRead, Receive, CallRead];
            && c.Valid() && ValidView(c.layout, c.slices, Init().reader) && Run(c, Init(), acts).Some?
            && var s := Run(c, Init(), acts).value;
            s.running && s.client.Receiving? && Stuck(c, s)
  {
    var c := OneByte(b);
    OneByteReads(b);
    hide ReadView, ValidView, Config.Valid, OneByte;
    var acts := [Reserve, Deliver, CallRead, Receive, Reserve, Deliver, CallRead, Receive, CallRead];
    var read := Init().(reader := View(Some(0), 1));
    var ended := read.(paused := true);
    RunRound(c, Init(), acts, FileChunk(0, [b]), View(Some(0), 1));
    RunRound(c, read, acts[4..], FileChunk(-1, []), View(Some(0), 1));
    assert acts[4..][4..] == [CallRead];
    assert Run(c, ended, [CallRead]) == Some(ended.(client := Receiving));
    PausedIsStuck(c, ended.(client := Receiving));
  }
}
