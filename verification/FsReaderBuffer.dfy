/** The buffered reader: prefetch channels or direct readers, and the reassembly of their chunks. */
module FsReaderBuffers {
  import opened Common
  import opened FileBlocks
  import opened BlockReaders
  import opened FsReaderBases
  import opened HalfSeeks
  import opened ParallelReads
  import opened Prefetch
  import opened FsReaderParallels
  import opened Reassembly

  /**
    * The client's end of a prefetch channel together with its task. Between any two steps of the client
    * the task may run any number of steps; `Preempt` stands for them.
    */
  class BufferChannel {
    ghost const cfg: Config
    const reader: FsReaderParallel     // owned by the task
    const capacity: nat
    var s: Chan
    var error: Option<FsError>         // what the task ended with, until it is reported
    ghost var view: View               // the reader, as the client's calls have moved it

    ghost function Repr(): set<object>
      reads reader, reader.inner
    {
      {this} + reader.Repr()
    }

    ghost predicate AllCompleted()
      reads reader.inner, reader.inner.everOpened
    {
      forall b :: b in reader.inner.everOpened ==> b.completed || b in reader.inner.dropped
    }

    ghost predicate Valid()
      reads this, reader, reader.inner, reader.inner.Repr
    {
      && this !in reader.Repr() && reader.inner.everOpened <= reader.inner.Repr
      && cfg == Config(reader.layout, reader.allocSlices, reader.parallelId, capacity)
      && cfg.Valid() && Inv(cfg, s, view)
      && (s.running ==> reader.Valid() && reader.State() == s.reader)
      && (reader.inner.reliable ==> reader.inner.faults == 0 && !s.client.Failed? && !s.client.Ended?)
      && (s.running || (s.client.StopWait? && s.acked) || s.client.Ended? || Broken())
      && (s.client.Failed? ==> !s.running)
      && (s.client.StopWait? && s.acked ==> AllCompleted())
      && (error.Some? ==> IsFault(error.value) && Broken())
    }

    /** The reader has failed, and ended the task. */
    ghost predicate Broken()
      reads this, reader.inner
    {
      !s.running && reader.inner.faults > 0
    }

    /** The task did as `a` says, or its reader failed and ended it. */
    twostate predicate Did(a: Action)
      reads this, reader.inner
    {
      if reader.inner.faults == old(reader.inner.faults)
      then old(cfg.Valid() && ValidView(cfg.layout, cfg.slices, s.reader)) && Some(s) == Apply(cfg, old(s), a)
      else old(cfg.Valid() && ValidView(cfg.layout, cfg.slices, s.reader)) && Some(s) == Apply(cfg, old(s), Fail)
           && reader.inner.faults == old(reader.inner.faults) + 1 && error.Some?
    }

    constructor (reader: FsReaderParallel, capacity: nat)
      requires reader.Valid() && reader.State() == View(None, 0) && capacity > 0
      ensures Valid() && s.client.Idle? && view == View(None, 0)
      ensures this.reader == reader && this.capacity == capacity
    {
      this.reader, this.capacity := reader, capacity;
      cfg := Config(reader.layout, reader.allocSlices, reader.parallelId, capacity);
      s, error := Init(), None;
      view := View(None, 0);
    }

    /** Whether the task can take a step, as it sees it. */
    predicate CanStep(a: Action)
      reads this
    {
      && s.running
      && match a
         case Control => !s.reading && s.control != []
         case Reserve => !s.reading && !s.paused && |s.queue| < capacity
         case Deliver => s.reading
         case _ => false
    }

    /** The chunk being read goes into the queue. */
    method DeliverChunk()
      requires Valid() && CanStep(Deliver) && !(s.client.StopWait? && s.acked)
      modifies Repr()
      ensures Valid() && view == old(view) && fresh(Repr() - old(Repr()))
      ensures Did(Deliver)
    {
      hide FsReaderParallel.Valid, FsReaderParallel.State, Inv;
      TaskStep(cfg, s, view, Deliver);
      TaskStep(cfg, s, view, Fail);
      var r := reader.Read();
      if r.Ok? {
        s := s.(queue := s.queue + [Item(r.value, s.era)], reader := reader.State(), reading := false,
                paused := r.value.data == []);
      } else {
        s, error := s.(running := false, reading := false), Some(r.error);
      }
    }

    /** The first control message is served. */
    method ServeControl()
      requires Valid() && CanStep(Control) && !(s.client.StopWait? && s.acked)
      modifies Repr()
      ensures Valid() && view == old(view) && fresh(Repr() - old(Repr()))
      ensures Did(Control)
    {
      hide FsReaderParallel.Valid, FsReaderParallel.State, Inv;
      TaskStep(cfg, s, view, Control);
      TaskStep(cfg, s, view, Fail);
      match s.control[0]
      case SeekTask(p) => ServeSeek(p);
      case StartTask => s := s.(control := s.control[1..], paused := false);
      case StopTask => ServeStop();
    }

    method ServeSeek(p: nat)
      requires Valid() && CanStep(Control) && !(s.client.StopWait? && s.acked) && s.control[0] == SeekTask(p)
      modifies Repr()
      ensures Valid() && view == old(view) && fresh(Repr() - old(Repr()))
      ensures Did(Control)
    {
      hide FsReaderParallel.Valid, FsReaderParallel.State, Inv;
      TaskStep(cfg, s, view, Control);
      TaskStep(cfg, s, view, Fail);
      var r := reader.Seek(p);
      if r.Ok? {
        s := s.(control := s.control[1..], reader := reader.State(), paused := true, acked := true, era := s.era + 1);
      } else {
        s, error := s.(running := false, reading := false), Some(r.error);
      }
    }

    method ServeStop()
      requires Valid() && CanStep(Control) && !(s.client.StopWait? && s.acked) && s.control[0] == StopTask
      modifies Repr()
      ensures Valid() && view == old(view) && fresh(Repr() - old(Repr()))
      ensures Did(Control)
    {
      hide FsReaderParallel.Valid, FsReaderParallel.State, Inv;
      TaskStep(cfg, s, view, Control);
      TaskStep(cfg, s, view, Fail);
      StopIsAwaited(cfg, s, view);
      var r := reader.Complete();
      if r.Ok? {
        s := s.(control := s.control[1..], running := false, acked := true);
      } else {
        s, error := s.(running := false, reading := false), Some(r.error);
      }
    }

    /** One step of `read_future`. An error of the reader ends the task. */
    method Step(a: Action)
      requires Valid() && CanStep(a) && !(s.client.StopWait? && s.acked)
      modifies Repr()
      ensures Valid() && view == old(view) && fresh(Repr() - old(Repr()))
      ensures Did(a)
    {
      hide FsReaderParallel.Valid, FsReaderParallel.State, Inv;
      match a
      case Reserve =>
        TaskStep(cfg, s, view, Reserve);
        s := s.(reading := true);
      case Deliver => DeliverChunk();
      case Control => ServeControl();
    }

    /** Any number of task steps, of any kind that is possible. */
    method Preempt()
      requires Valid() && !(s.client.StopWait? && s.acked)
      modifies Repr()
      ensures Valid() && view == old(view) && fresh(Repr() - old(Repr()))
      ensures s.client == old(s.client) && !(s.client.StopWait? && s.acked && s.running) && old(s.queue) <= s.queue
      ensures !old(s.running) ==> !s.running
    {
      hide FsReaderParallel.Valid, FsReaderParallel.State, Chain, ValidView, Config.Valid, ReadView, SeekView;
      var more: nat := *;
      while more > 0 && !(s.client.StopWait? && s.acked)
        invariant Valid() && view == old(view) && fresh(Repr() - old(Repr()))
        invariant s.client == old(s.client) && !(s.client.StopWait? && s.acked && s.running)
                  && old(s.queue) <= s.queue && (!old(s.running) ==> !s.running)
      {
        var a: Action := *;
        if CanStep(a) {
          Step(a);
        }
        more := more - 1;
      }
    }

    /** One step of the task while the client waits; it brings the end of the wait closer. */
    method StepWhileWaiting()
      requires Valid() && Waiting(s) && s.running && (s.client.Receiving? ==> !Exhausted(cfg, view))
      modifies Repr()
      ensures Valid() && view == old(view) && fresh(Repr() - old(Repr())) && s.client == old(s.client)
      ensures old(s.queue) <= s.queue
      ensures s.running && Waiting(s) ==> Patience(cfg, s) < old(Patience(cfg, s))
    {
      hide FsReaderParallel.Valid, FsReaderParallel.State, Inv, Exhausted, ReadView, SeekView;
      var a := ChooseStep();
      EachStepCounts(cfg, s, view, a);
      Step(a);
    }

    /** Some step the task can take. */
    method ChooseStep() returns (a: Action)
      requires Valid() && Waiting(s) && s.running && (s.client.Receiving? ==> !Exhausted(cfg, view))
      ensures CanStep(a) && IsProgress(a) && cfg.Valid() && Inv(cfg, s, view) && Apply(cfg, s, a).Some?
    {
      hide FsReaderParallel.Valid, FsReaderParallel.State;
      NeverStuck(cfg, s, view);
      a := *;
      if !CanStep(a) {
        a := if s.reading then Deliver else if s.control != [] then Control else Reserve;
      }
    }

    /** The client waits, for a chunk or an answer, while the task gets its turn. Every wait ends. */
    method Await()
      requires Valid() && (s.client.Receiving? ==> s.queue != [] || !Exhausted(cfg, view))
      modifies Repr()
      ensures Valid() && view == old(view) && fresh(Repr() - old(Repr()))
      ensures s.client == old(s.client) && !(Waiting(s) && s.running) && old(s.queue) <= s.queue
    {
      hide FsReaderParallel.Valid, FsReaderParallel.State;
      while Waiting(s) && s.running
        invariant Valid() && view == old(view) && fresh(Repr() - old(Repr())) && s.client == old(s.client)
        invariant old(s.queue) <= s.queue
        decreases s.running, if Waiting(s) then 1 + Patience(cfg, s) else 0
      {
        StepWhileWaiting();
      }
    }

    /** Take the first chunk off the queue. */
    method Take() returns (chunk: FileChunk)
      requires Valid() && s.client.Receiving? && s.queue != []
      modifies this
      ensures Valid() && s.client.Idle?
      ensures (chunk, view) == ReadView(reader.layout, reader.allocSlices, old(view))
      ensures chunk == old(s.queue)[0].chunk && s.queue == old(s.queue)[1..]
    {
      hide FsReaderParallel.Valid, FsReaderParallel.State;
      ReceiveStep(cfg, s, view);
      chunk := s.queue[0].chunk;
      s := s.(queue := s.queue[1..], client := Idle);
      view := ReadView(reader.layout, reader.allocSlices, view).1;
    }

    /** The next chunk: the one the reader would have returned directly. What the task had queued is handed out even
        if the task is gone; only then its error is reported, if the task has come to record it, and otherwise that
        the channel is closed. */
    method Read() returns (r: Result<FileChunk>)
      requires Valid() && s.client.Idle? && (s.queue != [] || !Exhausted(cfg, view))
      modifies Repr()
      ensures fresh(Repr() - old(Repr()))
      ensures old(s.queue) != [] ==> r.Ok? && r.value == old(s.queue)[0].chunk && old(s.queue)[1..] <= s.queue
      ensures r.Err? ==> IsTransport(r.error) && !reader.inner.reliable && Broken() && s.queue == []
      ensures r.Err? ==> s.client.Failed? && error.None?
      ensures r.Ok? ==>
              Valid() && s.client.Idle? && (r.value, view) == ReadView(reader.layout, reader.allocSlices, old(view))
    {
      hide Valid, ReadView;
      AwaitChunk();
      if s.queue == [] {
        r := GiveUp();
        return;
      }
      var chunk := Take();
      r := Ok(chunk);
    }

    /** Ask for a chunk, and wait until there is one or the task is gone. */
    method AwaitChunk()
      requires Valid() && s.client.Idle? && (s.queue != [] || !Exhausted(cfg, view))
      modifies Repr()
      ensures Valid() && view == old(view) && fresh(Repr() - old(Repr())) && s.client.Receiving?
      ensures old(s.queue) <= s.queue && (s.queue == [] ==> !s.running)
    {
      hide FsReaderParallel.Valid, FsReaderParallel.State, Inv, ReadView, Exhausted, ValidView;
      StillToCome();
      ghost var q0 := s.queue;
      Enter(CallRead, Receiving);
      StillToCome();
      ghost var q1 := s.queue;
      Await();
      ghost var q2 := s.queue;
      Preempt();
      PrefixOfPrefix(q0, q1, q2);
      PrefixOfPrefix(q0, q2, s.queue);
    }

    lemma StillToCome()
      requires Valid()
      ensures ValidView(cfg.layout, cfg.slices, view)
    {
    }

    /** Report why there is no chunk. */
    method GiveUp() returns (r: Result<FileChunk>)
      requires Valid() && s.client.Receiving? && s.queue == [] && !s.running
      modifies this`s, this`error
      ensures r.Err? && IsTransport(r.error) && !reader.inner.reliable && Broken() && s.queue == []
      ensures (r.error.Closed? || old(error) == Some(r.error)) && error.None? && s == old(s).(client := Failed)
    {
      hide FsReaderParallel.Valid, FsReaderParallel.State, Inv;
      var early: bool := *;
      r := Err(if error.None? || early then FsError.Closed else error.value);
      s, error := s.(client := Failed), None;
    }

    /** A client that reads on gets every chunk that was queued, in order, whatever has become of the task. */
    method ReadQueued() returns (chunks: seq<FileChunk>)
      requires Valid() && s.client.Idle?
      modifies Repr()
      ensures Valid() && s.client.Idle? && fresh(Repr() - old(Repr()))
      ensures |chunks| == |old(s.queue)| && forall i :: 0 <= i < |chunks| ==> chunks[i] == old(s.queue)[i].chunk
    {
      hide Valid;
      chunks := [];
      ghost var queued := s.queue;
      var n := |s.queue|;
      for k := 0 to n
        invariant Valid() && s.client.Idle? && fresh(Repr() - old(Repr())) && queued[k..] <= s.queue
        invariant |chunks| == k && forall i :: 0 <= i < k ==> chunks[i] == queued[i].chunk
      {
        assert queued[k..][1..] == queued[k + 1..];
        var r := Read();
        chunks := chunks + [r.value];
      }
    }

    /** The client goes from one of its calls' phases to another; the task may run before it goes on. */
    method Enter(ghost a: Action, phase: Client)
      requires Valid() && !phase.StopWait? && !phase.Failed? && !phase.Ended? && !IsTask(a) && !a.Receive?
               && !a.SendStart?
      requires Apply(cfg, s, a) == Some(s.(client := phase))
      modifies Repr()
      ensures Valid() && view == old(view) && fresh(Repr() - old(Repr())) && s.client == phase
      ensures old(s.queue) <= s.queue
    {
      hide FsReaderParallel.Valid, FsReaderParallel.State, Inv;
      ClientStep(cfg, s, view, a);
      s := s.(client := phase);
      Preempt();
    }

    /** Send a control message, if the task is still there to take it. */
    method Send(ghost a: Action, task: Task, phase: Client) returns (r: Result<()>)
      requires Valid() && (a == SendSeek || a == SendStop) && (s.client.SeekSend? || s.client.StopSend?)
      requires s.running ==>
               Apply(cfg, s, a) == Some(s.(control := s.control + [task], acked := false, client := phase))
      modifies this
      ensures view == old(view)
      ensures r.Err? ==> r.error.Closed? && !reader.inner.reliable && s.client.Failed? && Broken()
      ensures r.Ok? ==> Valid() && s.client == phase && s.running && !s.acked
    {
      hide FsReaderParallel.Valid, FsReaderParallel.State;
      if !s.running {
        s := s.(client := Failed);
        return Err(FsError.Closed);
      }
      ClientStep(cfg, s, view, a);
      s := s.(control := s.control + [task], acked := false, client := phase);
      r := Ok(());
    }

    /** Once this returns, the channel continues as a reader that has just been moved to `pos`: no chunk
        read before is left. */
    method Seek(pos: nat) returns (r: Result<()>)
      requires Valid() && s.client.Idle?
      modifies Repr()
      ensures fresh(Repr() - old(Repr()))
      ensures r.Err? ==> r.error.Closed? && !reader.inner.reliable && !s.client.Idle? && Broken()
      ensures r.Ok? ==> Valid() && s.client.Idle? && view == SeekView(reader.layout, reader.allocSlices, pos)
    {
      hide FsReaderParallel.Valid, FsReaderParallel.State, Inv, SeekView, ReadView;
      r := AskSeek(pos);
      if r.Ok? {
        Enter(TakeAck, Draining(pos));
        DrainAll();
        r := Restart(pos);
      }
    }

    /** Have the task seek, and wait for its answer. */
    method AskSeek(pos: nat) returns (r: Result<()>)
      requires Valid() && s.client.Idle?
      modifies Repr()
      ensures fresh(Repr() - old(Repr()))
      ensures r.Err? ==> r.error.Closed? && !reader.inner.reliable && !s.client.Idle? && Broken()
      ensures r.Ok? ==> Valid() && s.client == SeekWait(pos) && s.acked
    {
      hide FsReaderParallel.Valid, FsReaderParallel.State, SeekView, ReadView, Chain, ValidView;
      Enter(CallSeek(pos), SeekSend(pos));
      if s.running {
        ControlNeverFull(cfg, s, view);
      }
      r := Send(SendSeek, SeekTask(pos), SeekWait(pos));
      if r.Ok? {
        Await();
        r := if s.acked then Ok(()) else Err(FsError.Closed);
      }
    }

    /** Throw away what was read before the seek. */
    method DrainAll()
      requires Valid() && s.client.Draining?
      modifies this
      ensures Valid() && view == old(view) && s.client == old(s.client) && s.queue == []
    {
      hide FsReaderParallel.Valid, FsReaderParallel.State;
      while s.queue != []
        invariant Valid() && view == old(view) && s.client == old(s.client)
        decreases |s.queue|
      {
        ClientStep(cfg, s, view, Drain);
        s := s.(queue := s.queue[1..]);
      }
    }

    method Restart(pos: nat) returns (r: Result<()>)
      requires Valid() && s.client == Draining(pos) && s.queue == []
      modifies Repr()
      ensures fresh(Repr() - old(Repr()))
      ensures r.Err? ==> r.error.Closed? && !reader.inner.reliable && s.client.Failed? && Broken()
      ensures r.Ok? ==> Valid() && s.client.Idle? && view == SeekView(reader.layout, reader.allocSlices, pos)
    {
      hide FsReaderParallel.Valid, FsReaderParallel.State, Inv, SeekView, ReadView, ValidView;
      if !s.running {
        s := s.(client := Failed);
        return Err(FsError.Closed);
      }
      Enter(DrainEnd, StartSend(pos));
      if !s.running {
        s := s.(client := Failed);
        return Err(FsError.Closed);
      }
      ControlNeverFull(cfg, s, view);
      ClientStep(cfg, s, view, SendStart);
      s := s.(control := s.control + [StartTask], client := Idle, clientEra := s.clientEra + 1);
      view := SeekView(reader.layout, reader.allocSlices, pos);
      r := Ok(());
    }

    /** Stop the task. It has completed every block reader it opened. */
    method Complete() returns (r: Result<()>)
      requires Valid() && s.client.Idle?
      modifies Repr()
      ensures fresh(Repr() - old(Repr()))
      ensures r.Ok? ==> AllCompleted() && reader.inner.everOpened <= reader.inner.Repr
      ensures r.Err? ==> r.error.Closed? && !reader.inner.reliable && Broken()
    {
      hide FsReaderParallel.Valid, FsReaderParallel.State, SeekView, ReadView, Chain, ValidView;
      Enter(CallStop, StopSend);
      if s.running {
        ControlNeverFull(cfg, s, view);
      }
      r := Send(SendStop, StopTask, StopWait);
      if r.Err? {
        return;
      }
      Await();
      r := if s.acked then Ok(()) else Err(FsError.Closed);
    }
  }

  lemma {:induction false} PrefixOfPrefix<T>(a: seq<T>, b: seq<T>, c: seq<T>)
    requires a <= b <= c
    ensures a <= c
  {
  }

  /** `ReaderAdapter`: with a chunk queue of one the client reads directly, else through a task. */
  datatype ReaderAdapter = Buffer(chan: BufferChannel) | Base(reader: FsReaderParallel) {

    ghost function Inner(): FsReaderParallel {
      if Buffer? then chan.reader else reader
    }

    ghost function Roots(): set<object> {
      {Inner(), Inner().inner} + if Buffer? then {chan} else {}
    }

    ghost function Repr(): set<object>
      reads Inner().inner
    {
      Roots() + Inner().inner.Repr
    }

    ghost predicate Valid()
      reads Roots(), Inner().inner.Repr
    {
      if Buffer? then chan.Valid() && chan.s.client.Idle? else reader.Valid()
    }

    /** The reader's state as the calls on the adapter have moved it. */
    ghost function State(): View
      reads Roots()
    {
      if Buffer? then chan.view else reader.State()
    }

    /** A reader whose objects did not change did not change. */
    twostate lemma Kept()
      requires old(Valid()) && unchanged(old(Repr()))
      ensures Valid() && State() == old(State()) && Repr() == old(Repr())
    {
    }

    /** A chunk of this reader has been read already. */
    ghost predicate Queued()
      reads Roots()
    {
      Buffer? && chan.s.queue != []
    }

    /** There is a chunk to come. */
    ghost predicate HasNext()
      requires Valid()
      reads Roots(), Inner().inner.Repr
    {
      ReadView(Inner().layout, Inner().allocSlices, State()).0.data != []
    }

    method Read() returns (r: Result<FileChunk>)
      requires Valid() && HasNext()
      modifies Repr()
      ensures fresh(Repr() - old(Repr()))
      ensures r.Err? ==> IsTransport(r.error) && !Inner().inner.reliable && Inner().inner.faults > 0
      ensures old(Queued()) ==> r.Ok?
      ensures r.Ok? ==> Valid() && (r.value, State()) == ReadView(Inner().layout, Inner().allocSlices, old(State()))
    {
      match this
      case Buffer(c) => r := c.Read();
      case Base(b) => r := b.Read();
    }

    method Seek(pos: nat) returns (r: Result<()>)
      requires Valid()
      modifies Repr()
      ensures fresh(Repr() - old(Repr()))
      ensures r.Err? ==> IsTransport(r.error) && !Inner().inner.reliable && Inner().inner.faults > 0
      ensures r.Ok? ==> Valid() && State() == SeekView(Inner().layout, Inner().allocSlices, pos)
      ensures r.Err? ==> (Valid() <==> Base?) && (Base? ==> State() == old(State()))
    {
      match this
      case Buffer(c) => r := c.Seek(pos);
      case Base(b) => r := b.Seek(pos);
    }

    /** Every block reader that was opened has been completed. */
    ghost predicate Completed()
      reads Inner().inner, Inner().inner.Repr
    {
      && Inner().inner.everOpened <= Inner().inner.Repr
      && forall b :: b in Inner().inner.everOpened ==> b.completed || b in Inner().inner.dropped
    }

    twostate lemma KeptCompleted()
      requires old(Completed()) && unchanged(old(Repr()))
      ensures Completed() && Repr() == old(Repr())
    {
    }

    method Complete() returns (r: Result<()>)
      requires Valid()
      modifies Repr()
      ensures fresh(Repr() - old(Repr()))
      ensures r.Ok? ==> Completed()
      ensures r.Err? ==> IsTransport(r.error) && !Inner().inner.reliable && Inner().inner.faults > 0
    {
      match this
      case Buffer(c) => r := c.Complete();
      case Base(b) => r := b.Complete();
    }
  }

  /** The adapters made so far, for the first of the parallel readers. */
  ghost predicate AllWrapped(adapters: seq<ReaderAdapter>, parallels: seq<FsReaderParallel>)
    requires |adapters| <= |parallels|
    reads set a | a in adapters :: a.Inner().inner, set p | p in parallels :: p.inner
    reads set a, o | a in adapters && o in a.Roots() :: o, set a, o | a in adapters && o in a.Inner().inner.Repr :: o
  {
    && (forall i :: 0 <= i < |adapters| ==>
          adapters[i].Valid() && adapters[i].State() == View(None, 0) && adapters[i].Inner() == parallels[i])
    && (forall i, j :: 0 <= i < j < |adapters| ==> adapters[i].Repr() !! adapters[j].Repr())
    && (forall i, j :: 0 <= i < |adapters| && 0 <= j < |parallels| && adapters[i].Buffer? ==>
          adapters[i].chan !in parallels[j].Repr())
  }

  /** Without a queue a reader is used directly; otherwise it gets a channel and a task. */
  method Wrap(parallel: FsReaderParallel, chunkNum: nat) returns (adapter: ReaderAdapter)
    requires chunkNum > 0 && parallel.Valid() && parallel.State() == View(None, 0)
    ensures adapter.Valid() && adapter.State() == View(None, 0) && adapter.Inner() == parallel
    ensures adapter.Repr() - parallel.Repr() == (if adapter.Buffer? then {adapter.chan} else {})
    ensures adapter.Buffer? ==> fresh(adapter.chan) && adapter.chan.capacity == chunkNum
    ensures adapter.Base? <==> chunkNum == 1
  {
    hide FsReaderParallel.Valid;
    if chunkNum == 1 {
      adapter := Base(parallel);
    } else {
      var chan := new BufferChannel(parallel, chunkNum);
      parallel.Kept();
      adapter := Buffer(chan);
    }
  }

  method WrapOne(ghost layout: Layout, ghost lists: seq<seq<Range>>, parallels: seq<FsReaderParallel>,
                 adapters: seq<ReaderAdapter>, chunkNum: nat, ghost reliable: bool)
    returns (more: seq<ReaderAdapter>)
    requires |adapters| < |parallels| == |lists| && chunkNum > 0
    requires AllNew(parallels, layout, lists, reliable) && AllWrapped(adapters, parallels)
    ensures |more| == |adapters| + 1 && AllNew(parallels, layout, lists, reliable) && AllWrapped(more, parallels)
    ensures more[|adapters|].Base? <==> chunkNum == 1
    ensures more[..|adapters|] == adapters && fresh(more[|adapters|].Repr() - old(parallels[|adapters|].Repr()))
    ensures forall i :: 0 <= i < |parallels| ==> parallels[i].Repr() == old(parallels[i].Repr())
    ensures forall i :: 0 <= i < |adapters| ==> adapters[i].Repr() == old(adapters[i].Repr())
  {
    hide FsReaderParallel.Valid, FsReaderParallel.State, ReaderAdapter.Valid, ReaderAdapter.State;
    var adapter := Wrap(parallels[|adapters|], chunkNum);
    forall i | 0 <= i < |parallels|
      ensures parallels[i].Valid() && parallels[i].State() == old(parallels[i].State())
      ensures parallels[i].Repr() == old(parallels[i].Repr())
    {
      parallels[i].Kept();
    }
    forall i | 0 <= i < |adapters|
      ensures adapters[i].Valid() && adapters[i].State() == old(adapters[i].State())
      ensures adapters[i].Repr() == old(adapters[i].Repr())
    {
      adapters[i].Kept();
    }
    more := adapters + [adapter];
  }

  /** The vector of adapters: one per share of the file, sharing nothing with each other. */
  class ReaderVec {
    ghost const layout: Layout
    ghost const lists: seq<seq<Range>>
    const readers: seq<ReaderAdapter>
    ghost const reliable: bool
    ghost var views: seq<View>
    ghost var Repr: set<object>

    ghost predicate Separate()
      reads this, Repr
    {
      && this in Repr
      && (forall i :: 0 <= i < |readers| ==> readers[i].Roots() <= Repr)
      && (forall i :: 0 <= i < |readers| ==> readers[i].Repr() <= Repr && this !in readers[i].Repr())
      && (forall i, j :: 0 <= i < j < |readers| ==> readers[i].Repr() !! readers[j].Repr())
    }

    /** Reader `k` has met a fault. */
    ghost predicate Faulty(k: nat)
      requires k < |readers|
      reads readers[k].Inner().inner
    {
      readers[k].Inner().inner.faults > 0
    }

    /** Every reader but `k` works, and stands where `views` says. */
    ghost predicate ValidExcept(k: int)
      reads this, Repr
    {
      && Separate()
      && |lists| == |readers| == |views|
      && (forall i :: 0 <= i < |readers| && i != k ==> readers[i].Valid())
      && (forall i :: 0 <= i < |readers| ==> readers[i].Inner().layout == layout)
      && (forall i :: 0 <= i < |readers| ==> readers[i].Inner().allocSlices == lists[i])
      && (forall i :: 0 <= i < |readers| ==> readers[i].Inner().inner.reliable == reliable)
      && (forall i :: 0 <= i < |readers| && i != k ==> readers[i].State() == views[i])
    }

    ghost predicate Valid()
      reads this, Repr
    {
      ValidExcept(-1)
    }

    constructor (ghost layout: Layout, ghost lists: seq<seq<Range>>, readers: seq<ReaderAdapter>,
                 ghost owned: set<object>, ghost reliable: bool)
      requires |readers| == |lists|
      requires forall i :: 0 <= i < |readers| ==> readers[i].Valid() && readers[i].State() == View(None, 0)
      requires forall i :: 0 <= i < |readers| ==> readers[i].Inner().layout == layout
      requires forall i :: 0 <= i < |readers| ==> readers[i].Inner().allocSlices == lists[i]
      requires forall i :: 0 <= i < |readers| ==> readers[i].Inner().inner.reliable == reliable
      requires forall i :: 0 <= i < |readers| ==> readers[i].Repr() <= owned
      requires forall i, j :: 0 <= i < j < |readers| ==> readers[i].Repr() !! readers[j].Repr()
      ensures Valid() && views == InitBuf(lists).views && Repr == {this} + owned && this.reliable == reliable
      ensures this.layout == layout && this.lists == lists && this.readers == readers
    {
      hide ReaderAdapter.Valid, ReaderAdapter.State;
      this.layout, this.lists, this.readers, this.reliable := layout, lists, readers, reliable;
      views := InitBuf(lists).views;
      Repr := {this} + owned;
      new;
      forall i | 0 <= i < |readers|
        ensures readers[i].Valid() && readers[i].State() == old(readers[i].State())
        ensures readers[i].Repr() == old(readers[i].Repr())
      {
        readers[i].Kept();
      }
    }

    /** What happens inside reader `k` the other readers do not notice. */
    twostate lemma OthersStay(k: nat)
      requires old(Valid()) && k < |readers|
      requires unchanged(old(Repr) - {this} - old(readers[k].Repr()))
      requires fresh(readers[k].Repr() - old(readers[k].Repr()))
      requires Repr == old(Repr) + readers[k].Repr() && views == old(views)[k := readers[k].State()]
      ensures ValidExcept(k) && (readers[k].Valid() <==> Valid())
    {
      hide ReaderAdapter.Valid, ReaderAdapter.State;
      forall i | 0 <= i < |readers| && i != k
        ensures readers[i].Valid() && readers[i].State() == old(readers[i].State())
        ensures readers[i].Repr() == old(readers[i].Repr())
      {
        readers[i].Kept();
      }
    }

    /** One chunk of reader `k`, which has one; the other readers do not notice. */
    method ReadRaw(k: nat) returns (r: Result<FileChunk>)
      requires Valid() && k < |readers| && readers[k].HasNext()
      modifies readers[k].Repr()
      ensures fresh(readers[k].Repr() - old(readers[k].Repr()))
      ensures r.Err? ==> IsTransport(r.error) && !reliable && Faulty(k)
      ensures old(readers[k].Queued()) ==> r.Ok?
      ensures r.Ok? ==> readers[k].Valid() && ValidView(layout, lists[k], views[k])
      ensures r.Ok? ==> (r.value, readers[k].State()) == ReadView(layout, lists[k], views[k])
    {
      r := readers[k].Read();
    }

    method Read(k: nat) returns (r: Result<FileChunk>)
      requires Valid() && layout.Valid() && k < |readers| && ValidView(layout, lists[k], views[k])
      requires ReadView(layout, lists[k], views[k]).0.data != []
      modifies Repr
      ensures fresh(Repr - old(Repr))
      ensures r.Err? ==> IsTransport(r.error) && !reliable && Faulty(k)
      ensures old(readers[k].Queued()) ==> r.Ok?
      ensures r.Ok? ==> Valid()
      ensures r.Ok? ==> ReadView(layout, lists[k], old(views[k])) == (r.value, views[k])
      ensures r.Ok? ==> views == old(views)[k := views[k]]
    {
      hide ReaderAdapter.Valid, ReaderAdapter.State;
      r := ReadRaw(k);
      Repr, views := Repr + readers[k].Repr(), views[k := readers[k].State()];
      OthersStay(k);
    }

    /** Move reader `k`. If that fails, the others still stand where they stood; `k` does so if it is read
        directly, and is of no use any more otherwise. */
    method SeekOne(k: nat, pos: nat) returns (r: Result<()>)
      requires Valid() && k < |readers|
      modifies Repr
      ensures fresh(Repr - old(Repr)) && ValidExcept(k) && |old(views)| == |views|
      ensures forall i :: 0 <= i < |views| && i != k ==> views[i] == old(views)[i]
      ensures r.Err? ==> IsTransport(r.error) && !reliable && Faulty(k)
      ensures r.Err? ==> (Valid() <==> readers[k].Base?) && (readers[k].Base? ==> views == old(views))
      ensures r.Ok? ==> Valid() && lists[k] != []
      ensures r.Ok? ==> views == old(views)[k := SeekView(layout, lists[k], pos)]
    {
      hide ReaderAdapter.Valid, ReaderAdapter.State;
      r := readers[k].Seek(pos);
      Repr, views := Repr + readers[k].Repr(), views[k := readers[k].State()];
      OthersStay(k);
    }

    /** Move every reader, in turn. If reader `at` fails, those before it have moved and those behind have not. */
    method Seek(pos: nat) returns (r: Result<()>, ghost at: nat)
      requires Valid() && Shares(layout, lists)
      modifies Repr
      ensures fresh(Repr - old(Repr)) && |views| == |old(views)| == |lists| == |readers|
      ensures r.Err? ==> IsTransport(r.error) && !reliable && at < |readers| && ValidExcept(at) && Faulty(at)
      ensures r.Err? ==> (Valid() <==> readers[at].Base?) && (readers[at].Base? ==> views[at] == old(views)[at])
      ensures r.Ok? ==> Valid() && at == |readers|
      ensures forall i :: 0 <= i < at && i < |lists| && i < |views| ==> views[i] == SeekView(layout, lists[i], pos)
      ensures forall i :: at < i < |views| ==> views[i] == old(views)[i]
    {
      hide ReaderAdapter.Valid, ReaderAdapter.State;
      at := 0;
      for k := 0 to |readers|
        invariant Valid() && fresh(Repr - old(Repr)) && at == k && |views| == |old(views)|
        invariant forall i :: 0 <= i < k ==> views[i] == SeekView(layout, lists[i], pos)
        invariant forall i :: k <= i < |views| ==> views[i] == old(views)[i]
      {
        r := SeekOne(k, pos);
        if r.Err? {
          return;
        }
        at := k + 1;
      }
      r := Ok(());
    }

    /** Readers up to `k` are completed, the others still work. */
    ghost predicate CompletedBelow(k: nat)
      reads this, Repr
    {
      && Separate()
      && (forall i :: 0 <= i < k && i < |readers| ==> readers[i].Completed())
      && (forall i :: k <= i < |readers| ==> readers[i].Valid())
      && (forall i :: 0 <= i < |readers| ==> readers[i].Inner().inner.reliable == reliable)
    }

    method CompleteOne(k: nat) returns (r: Result<()>)
      requires CompletedBelow(k) && k < |readers|
      modifies Repr
      ensures fresh(Repr - old(Repr))
      ensures r.Ok? ==> CompletedBelow(k + 1)
      ensures r.Err? ==> IsTransport(r.error) && !reliable && Faulty(k)
    {
      hide ReaderAdapter.Valid, ReaderAdapter.Completed;
      r := readers[k].Complete();
      Repr := Repr + readers[k].Repr();
      if r.Ok? {
        forall i | 0 <= i < |readers| && i != k
          ensures i < k ==> readers[i].Completed()
          ensures k < i ==> readers[i].Valid()
          ensures readers[i].Repr() == old(readers[i].Repr())
        {
          if i < k {
            readers[i].KeptCompleted();
          } else {
            readers[i].Kept();
          }
        }
      }
    }

    /** Every block reader any of the readers opened has been completed. */
    method Complete() returns (r: Result<()>)
      requires Valid()
      modifies Repr
      ensures fresh(Repr - old(Repr))
      ensures r.Ok? ==> CompletedBelow(|readers|)
      ensures r.Err? ==> IsTransport(r.error) && !reliable && exists k :: 0 <= k < |readers| && Faulty(k)
    {
      hide ReaderAdapter.Valid, ReaderAdapter.Completed;
      for k := 0 to |readers|
        invariant CompletedBelow(k) && fresh(Repr - old(Repr))
      {
        r := CompleteOne(k);
        if r.Err? {
          return;
        }
      }
      r := Ok(());
    }
  }

  /** An adapter for every reader; `owned` are the readers' objects, `all` those of the adapters too. */
  method WrapEach(ghost layout: Layout, ghost lists: seq<seq<Range>>, parallels: seq<FsReaderParallel>, chunkNum: nat,
                  ghost owned: set<object>, ghost reliable: bool)
    returns (adapters: seq<ReaderAdapter>, ghost all: set<object>)
    requires |parallels| == |lists| && chunkNum > 0 && AllNew(parallels, layout, lists, reliable)
    requires forall i :: 0 <= i < |parallels| ==> parallels[i].Repr() <= owned
    ensures |adapters| == |parallels| && AllNew(parallels, layout, lists, reliable) && AllWrapped(adapters, parallels)
    ensures fresh(all - owned) && forall i :: 0 <= i < |adapters| ==> adapters[i].Repr() <= all
    ensures forall i :: 0 <= i < |adapters| ==> (adapters[i].Base? <==> chunkNum == 1)
  {
    hide FsReaderParallel.Valid, ReaderAdapter.Valid, ReaderAdapter.State;
    adapters, all := [], {};
    for k := 0 to |parallels|
      invariant |adapters| == k && AllNew(parallels, layout, lists, reliable) && AllWrapped(adapters, parallels)
      invariant forall i :: 0 <= i < |parallels| ==> parallels[i].Repr() <= owned
      invariant fresh(all - owned) && forall i :: 0 <= i < k ==> adapters[i].Repr() <= all
      invariant forall i :: 0 <= i < k ==> (adapters[i].Base? <==> chunkNum == 1)
    {
      adapters := WrapOne(layout, lists, parallels, adapters, chunkNum, reliable);
      all := all + adapters[k].Repr();
    }
  }

  method WrapAll(ghost layout: Layout, ghost lists: seq<seq<Range>>, parallels: seq<FsReaderParallel>, chunkNum: nat,
                 ghost owned: set<object>, ghost reliable: bool)
    returns (vec: ReaderVec)
    requires |parallels| == |lists| && chunkNum > 0 && AllNew(parallels, layout, lists, reliable)
    requires forall i :: 0 <= i < |parallels| ==> parallels[i].Repr() <= owned
    ensures vec.Valid() && vec.layout == layout && vec.lists == lists && vec.views == InitBuf(lists).views
    ensures fresh(vec.Repr - owned) && vec.reliable == reliable
    ensures forall k :: 0 <= k < |vec.readers| ==> !vec.Faulty(k) && (vec.readers[k].Base? <==> chunkNum == 1)
  {
    hide FsReaderParallel.Valid, FsReaderParallel.State, ReaderAdapter.Valid, ReaderAdapter.State, ReaderVec.Valid;
    var adapters, all := WrapEach(layout, lists, parallels, chunkNum, owned, reliable);
    vec := new ReaderVec(layout, lists, adapters, all, reliable);
  }

  class FsReaderBuffer {
    const readers: ReaderVec
    const len: nat
    const readParallel: nat
    const sliceSize: nat
    var pos: nat

    constructor (readers: ReaderVec, len: nat, readParallel: nat, sliceSize: nat)
      requires readers.Valid() && readers.layout.Valid() && Shares(readers.layout, readers.lists)
      requires readers.views == InitBuf(readers.lists).views
      requires len == readers.layout.Len() && readParallel == readers.layout.parallel
               && sliceSize == readers.layout.sliceSize
      ensures Valid() && pos == 0 && this.readers == readers
    {
      this.readers, this.len, this.readParallel, this.sliceSize := readers, len, readParallel, sliceSize;
      pos := 0;
      new;
      hide Safe, AllInPlace, ReaderVec.ValidExcept, Shares;
      InitAligned(readers.layout, readers.lists, Safe(readers.layout));
    }

    ghost function Plan(): Layout {
      readers.layout
    }

    /** Some call of a block reader has failed since the file was opened. */
    ghost predicate AnyFault()
      reads set k | 0 <= k < |readers.readers| :: readers.readers[k].Inner().inner
    {
      exists k :: 0 <= k < |readers.readers| && readers.Faulty(k)
    }

    /** The state, as the value the reassembly reasons about. */
    ghost function State(): Buf
      reads this, readers
    {
      Buf(readers.views, pos)
    }

    ghost function Repr(): set<object>
      reads readers
    {
      {this} + readers.Repr
    }

    ghost predicate Valid()
      reads this, readers, readers.Repr
    {
      && this !in readers.Repr && readers.Valid()
      && Plan().Valid() && Shares(Plan(), readers.lists)
      && len == Plan().Len() && readParallel == Plan().parallel && sliceSize == Plan().sliceSize
      && Aligned(Plan(), readers.lists, State(), Safe(Plan()))
    }

    /** The reader in charge of the position has a chunk in its queue. */
    ghost predicate NextQueued()
      requires sliceSize > 0 && readParallel > 0
      reads this, set k, o | 0 <= k < |readers.readers| && o in readers.readers[k].Roots() :: o
    {
      var id := pos / sliceSize % readParallel;
      pos < len && id < |readers.readers| && readers.readers[id].Queued()
    }

    /** The next bytes of the file. The guards against a missing reader or a chunk that does not fit
        never fire. */
    method Read() returns (r: Result<seq<byte>>)
      requires Valid()
      modifies Repr()
      ensures fresh(Repr() - old(Repr()))
      ensures old(pos) >= len ==> r == Ok([]) && pos == old(pos) && Valid()
      ensures old(pos) < len && r.Ok? ==>
                && Valid() && old(pos) <= pos <= len && (Safe(Plan()) ==> old(pos) < pos)
                && r.value == Plan().File()[old(pos)..pos]
      ensures old(NextQueued()) ==> r.Ok?
      ensures r.Err? ==> pos == old(pos) && IsTransport(r.error) && !readers.reliable && AnyFault()
    {
      if pos >= len {
        return Ok([]);
      }
      OwnerDeliversNext(Plan(), readers.lists, Buf(readers.views, pos), Safe(Plan()));
      var id := pos / sliceSize % readParallel;
      if id >= |readers.readers| {
        assert false;
        return Err(NotInitialized);
      }
      r := ReadFromReader(id);
    }

    /** Take one chunk of reader `id` and drop the bytes already delivered. */
    method ReadFromReader(id: nat) returns (r: Result<seq<byte>>)
      requires Valid() && pos < len && id < |readers.readers|
      requires ValidBuf(Plan(), readers.lists, Buf(readers.views, pos)) && id < |readers.lists|
      requires Delivers(Plan(), readers.lists, Buf(readers.views, pos), id, Safe(Plan()))
      modifies Repr()
      ensures fresh(Repr() - old(Repr()))
      ensures r.Ok? ==> Valid() && old(pos) <= pos <= len && (Safe(Plan()) ==> old(pos) < pos)
      ensures r.Ok? ==> r.value == Plan().File()[old(pos)..pos]
      ensures old(readers.readers[id].Queued()) ==> r.Ok?
      ensures r.Err? ==> pos == old(pos) && IsTransport(r.error) && !readers.reliable && AnyFault()
    {
      hide ReaderVec.Valid, Aligned, ReadView, Trim;
      var got := readers.Read(id);
      if got.Err? {
        return Err(got.error);
      }
      r := Trim(pos, got.value);
      if r.Err? {
        assert false;
        return;
      }
      pos := pos + |r.value|;
    }

    /** Every run of reads from here returns the file. */
    ghost predicate ReadsOn()
      reads this, readers
    {
      && Plan().Valid() && Shares(Plan(), readers.lists) && ValidBuf(Plan(), readers.lists, State())
      && GoesOn(Plan(), readers.lists, State(), Safe(Plan()))
    }

    /** A seek to `to` may fail at reader `at`: the readers moved before it will still do. */
    ghost predicate Withstands(to: nat, at: nat)
      requires Valid()
      reads this, readers, readers.Repr
    {
      CanGoOn(Plan(), readers.lists, State(), to, at, Safe(Plan()))
    }

    lemma AfterFailure(before: Buf, to: nat, at: nat)
      requires Plan().Valid() && Shares(Plan(), readers.lists) && ValidBuf(Plan(), readers.lists, before)
      requires State() == HalfSeek(Plan(), readers.lists, before, to, at)
      ensures var could := CanGoOn(Plan(), readers.lists, before, to, at, Safe(Plan()));
              (ReadsOn() <==> could) && (Aligned(Plan(), readers.lists, State(), Safe(Plan())) <==> could)
    {
      hide CanGoOn, Safe, GoesOn, Shares, Aligned;
      HalfSeekAligned(Plan(), readers.lists, before, to, at, Safe(Plan()));
      HalfSeekGoesOn(Plan(), readers.lists, before, to, at, Safe(Plan()));
    }

    /** Any position is accepted; past the end, reads return nothing. After a failure at a reader that is read
        directly, every run of reads from the old position returns the file, and the buffer keeps its invariant, if
        and only if it withstood that seek before the call. A reader with a task of its own that failed has left its
        protocol, and with it the buffer its invariant. */
    method Seek(to: nat) returns (r: Result<()>, ghost at: nat)
      requires Valid()
      modifies Repr()
      ensures fresh(Repr() - old(Repr()))
      ensures r.Ok? ==> Valid() && pos == to
      ensures r.Err? ==> pos == old(pos) && IsTransport(r.error) && !readers.reliable && AnyFault()
      ensures r.Err? ==> at < |readers.readers|
      ensures r.Err? ==> (Valid() <==> readers.readers[at].Base? && old(Withstands(to, at)))
      ensures r.Err? && readers.readers[at].Base? ==> (ReadsOn() <==> old(Withstands(to, at)))
    {
      ghost var before := State();
      assert ValidBuf(Plan(), readers.lists, before);
      hide ReaderVec.ValidExcept, Aligned, CanGoOn, Safe, Shares, ValidBuf, ReadsOn;
      r, at := readers.Seek(to);
      if r.Err? {
        if readers.readers[at].Base? {
          assert HalfSeek(Plan(), readers.lists, before, to, at).views == readers.views;
          AfterFailure(before, to, at);
        }
        return;
      }
      SeekAligned(Plan(), readers.lists, before, to, Safe(Plan()));
      pos := to;
      assert State() == SeekBuf(Plan(), readers.lists, before, to);
    }

    /** No block reader is left open. */
    method Complete() returns (r: Result<()>)
      requires Valid()
      modifies Repr()
      ensures fresh(Repr() - old(Repr()))
      ensures r.Ok? ==> readers.CompletedBelow(|readers.readers|)
      ensures r.Err? ==> IsTransport(r.error) && !readers.reliable && AnyFault()
    {
      r := readers.Complete();
    }

    /** `FsReaderBuffer::new`. */
    static method Open(search: SearchFileBlocks, locs: int -> seq<Worker>, localHost: Option<string>, reliable: bool,
                       closeReaderLimit: nat, chunkNum: nat, chunkSize: nat, readParallel: nat, sliceSize: nat)
      returns (r: Result<FsReaderBuffer>)
      requires search.Valid() && UniqueIds(search.blocks) && (reliable ==> Served(search.blocks, locs))
      requires readParallel > 0 && chunkNum > 0
      ensures r.Ok? <==> 4096 <= chunkSize <= sliceSize && chunkSize % 4096 == 0 && sliceSize % chunkSize == 0
      ensures r.Err? ==> r.error == Misaligned
      ensures r.Ok? ==> r.value.Valid() && fresh(r.value.Repr()) && r.value.pos == 0
      ensures r.Ok? ==> r.value.Plan() == Layout(search.blocks, chunkSize, sliceSize, readParallel)
      ensures r.Ok? ==> r.value.readers.reliable == reliable && !r.value.AnyFault()
      ensures r.Ok? ==> forall a :: a in r.value.readers.readers ==> (a.Base? <==> chunkNum == 1)
    {
      hide FsReaderParallel.Valid, FsReaderParallel.State, ReaderVec.Valid, AllNew, Shares, Aligned, Safe, Layout.File;
      var all, layout, lists, owned := CreateAll(search, locs, localHost, reliable, closeReaderLimit, readParallel,
                                                 sliceSize, chunkSize);
      if all.Err? {
        return Err(all.error);
      }
      var vec := WrapAll(layout, lists, all.value, chunkNum, owned, reliable);
      var buffer := new FsReaderBuffer(vec, Start(search.blocks, |search.blocks|), readParallel, sliceSize);
      r := Ok(buffer);
    }
  }
}
