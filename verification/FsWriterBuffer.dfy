/** The buffered writer: a client that queues chunks, and a task that passes them to the block writer. The
    task runs whenever it likes between the client's steps. */
module FsWriterBuffers {
  import opened Common
  import opened FileBlocks
  import opened Clusters
  import opened FsWriterBases
  import opened WriterTasks

  /** The chunk at the head of the queue is part of what was accepted. */
  lemma {:induction false} HeadIsAccepted(handed: seq<seq<byte>>, queue: seq<seq<byte>>)
    requires queue != []
    ensures |Flatten(handed)| + |queue[0]| <= |Flatten(handed + queue)|
  {
    FlattenMore(handed, queue[0]);
    FlattenJoined(handed + [queue[0]], queue[1..]);
    assert handed + queue == (handed + [queue[0]]) + queue[1..];
  }

  class FsWriterBuffer {
    const writer: FsWriterBase
    const cfg: Config
    var s: Chan
    var pos: int
    var error: Option<FsError>         // what the task ended with
    ghost const fits: bool             // at the start the sizes fitted
    ghost const refused: bool          // at the start the workers refused the block to be reopened
    ghost const room: int              // how many bytes the first block took at the start
    ghost const reopened: bool         // at the start a block with bytes was to be reopened

    ghost function Repr(): set<object>
      reads writer
    {
      {this} + writer.Repr()
    }

    /** Every byte the queue has taken in, in order. */
    ghost function Accepted(): seq<byte>
      reads this
    {
      Flatten(s.accepted)
    }

    /** The file is closed and holds, after what it held before, exactly the accepted bytes. */
    ghost predicate Finished()
      reads this, writer.cluster
    {
      && writer.cluster.Valid() && writer.cluster.Sealed() && !writer.cluster.writing
      && !Overruns(|Accepted()|) && (reopened ==> Accepted() != []) && writer.cluster.faults == writer.faults0
      && Contents(writer.cluster.Contained()) == writer.initial + Accepted()
      && (fits ==> writer.cluster.Settled() && (Accepted() != [] || writer.initial == []))
    }

    /** So many bytes cannot be written in one session: the block to be reopened is refused, or client and master
        disagree about the block size and the bytes do not all go into the first block. */
    ghost predicate Overruns(n: nat) {
      n > 0 && (refused || (writer.cluster.blockSize != writer.blockSize && n > room))
    }

    /** Why a session that is to write `n` bytes can fail before it is completed: a fault, or an overrun. */
    ghost predicate Cause(e: FsError, n: nat)
      reads writer.cluster
    {
      writer.Faulted(e) || (e.Rejected? && Overruns(n))
    }

    /** Why the task can have failed while it took chunks. */
    ghost predicate WriteCause(e: FsError)
      reads this, writer.cluster
    {
      Cause(e, |Accepted()|)
    }

    /** And when it was told to complete the file: nothing was added to the block that was to be reopened. */
    ghost predicate CompleteCause(e: FsError)
      reads this, writer.cluster
    {
      WriteCause(e) || (e.Rejected? && Accepted() == [] && reopened)
    }

    /** The error the task ended with is there until it is reported, and has a cause. */
    ghost predicate ValidError()
      reads this, writer.cluster
    {
      && (error.Some? ==> s.task.Broken?)
      && (s.task.Broken? && !s.client.Failed? ==> error.Some?)
      && (error.Some? && !s.client.Failed? ==>
            if s.client == Waiting(CompleteOrder) then CompleteCause(error.value) else WriteCause(error.value))
    }

    /** The block writer has the chunks handed over, which did not overrun. */
    ghost predicate Wrote(handed: seq<seq<byte>>)
      reads writer, writer.cluster, writer.curWriter
    {
      && writer.Valid() && writer.written == Flatten(handed) && (fits ==> writer.Fits())
      && (writer.curWriter != null ==> writer.written != []) && !Overruns(|Flatten(handed)|)
      && (Flatten(handed) == [] ==> writer.Refused() == refused && writer.Reopens() == reopened)
      && (writer.cluster.blockSize != writer.blockSize ==> writer.RoomNow() == room - |Flatten(handed)|)
    }

    ghost predicate Valid()
      reads this, writer, writer.cluster, writer.curWriter
    {
      && Inv(s) && cfg.capacity > 0 && ValidError()
      && pos == |writer.initial| + |Accepted()| < I64_LIMIT
      && (Running(s) ==> Wrote(s.handed))
      && (s.task.Stopped? ==> Finished())
    }

    constructor (writer: FsWriterBase, capacity: nat, biased: bool)
      requires writer.Valid() && writer.written == [] && writer.curWriter == null && capacity > 0
               && writer.pos < I64_LIMIT
      ensures Valid() && s == Init() && this.writer == writer && cfg == Config(capacity, biased)
      ensures fits == writer.Fits() && refused == writer.Refused() && room == writer.RoomNow()
      ensures reopened == writer.Reopens()
    {
      this.writer, cfg, s, pos, error := writer, Config(capacity, biased), Init(), writer.pos, None;
      fits, refused, room, reopened := writer.Fits(), writer.Refused(), writer.RoomNow(), writer.Reopens();
    }

    /** What the first chunk of the queue finds. */
    lemma HeadFits()
      requires Valid() && Running(s) && s.queue != []
      ensures Wrote(s.handed) && |writer.initial| + |writer.written| + |s.queue[0]| < I64_LIMIT
      ensures Flatten(s.handed + [s.queue[0]]) == Flatten(s.handed) + s.queue[0]
      ensures s.queue[0] != [] ==>
                (writer.Overruns(|s.queue[0]|) <==> Overruns(|Flatten(s.handed)| + |s.queue[0]|))
      ensures writer.Overruns(|s.queue[0]|) ==> Overruns(|Accepted()|)
    {
      FlattenMore(s.handed, s.queue[0]);
      HeadIsAccepted(s.handed, s.queue);
      writer.StuckOverruns();
      hide FsWriterBase.RoomNow, FsWriterBase.Refused, Flatten;
    }

    /** The first chunk goes to the block writer. */
    method PassOn() returns (r: Result<()>)
      requires Valid() && Running(s) && s.queue != []
      modifies writer.Repr()
      ensures fresh(Repr() - old(Repr()))
      ensures if r.Ok? then Wrote(s.handed + [s.queue[0]]) else WriteCause(r.error)
    {
      hide Valid, Flatten;
      hide FsWriterBase.Fits, FsWriterBase.Refused, FsWriterBase.Stuck, FsWriterBase.RoomNow;
      hide FsWriterBase.Overruns, FsWriterBase.Consistent;
      HeadFits();
      r := writer.Write(s.queue[0]);
    }

    /** The task hands the first chunk over, or fails. */
    method HandOverOne()
      requires Valid() && Running(s) && s.queue != [] && Inv(HandOver(s))
      modifies Repr()
      ensures Valid() && fresh(Repr() - old(Repr()))
      ensures s == old(s).(task := Broken) || s == HandOver(old(s))
    {
      hide Wrote, Finished, Flatten;
      var done := PassOn();
      if done.Err? {
        s, error := s.(task := Broken), Some(done.error);
      } else {
        s := HandOver(s);
      }
    }

    /** The task has emptied the queue and answers, or fails. */
    method Answer()
      requires Valid() && s.task.Draining? && s.queue == [] && Apply(cfg, s, Acknowledge).Some?
      modifies Repr()
      ensures Valid() && fresh(Repr() - old(Repr()))
      ensures s == old(s).(task := Broken) || Some(s) == Apply(cfg, old(s), Acknowledge)
    {
      hide Wrote, Finished, Flatten;
      if s.task.order.CompleteOrder? {
        AnswerComplete();
      } else {
        AnswerFlush();
      }
    }

    method AnswerComplete()
      requires Valid() && s.task == Task.Draining(CompleteOrder) && s.queue == [] && Apply(cfg, s, Acknowledge).Some?
      modifies Repr()
      ensures Valid() && fresh(Repr() - old(Repr()))
      ensures s == old(s).(task := Broken) || Some(s) == Apply(cfg, old(s), Acknowledge)
    {
      hide FsWriterBase.Consistent, FsWriterBase.Fits, Cluster.Settled, Cluster.ValidUpTo, Cluster.Sealed, Flatten;
      StepKeeps(cfg, s, Acknowledge);
      assert s.handed == s.accepted;
      var done := writer.Complete();
      if done.Err? {
        s, error := s.(task := Broken), Some(done.error);
      } else {
        s := s.(acked := true, task := Stopped);
      }
    }

    /** The workers may fail to flush their files. */
    method AnswerFlush()
      requires Valid() && s.task == Task.Draining(FlushOrder) && s.queue == [] && Apply(cfg, s, Acknowledge).Some?
      modifies this, writer.cluster`faults
      ensures Valid()
      ensures s == old(s).(task := Broken) || Some(s) == Apply(cfg, old(s), Acknowledge)
    {
      NoFaultSoFar();
      hide Wrote, Finished, Flatten;
      StepKeeps(cfg, s, Acknowledge);
      var lost: bool := *;
      if lost && !writer.cluster.reliable {
        writer.cluster.faults := writer.cluster.faults + 1;
        s, error := s.(task := Broken), Some(Io);
      } else {
        s := s.(acked := true, task := Ready);
      }
    }

    lemma NoFaultSoFar()
      requires Valid() && Running(s)
      ensures writer.cluster.faults == writer.faults0
    {
    }

    /** One step of the task, which may fail at it. */
    method Step(a: Action)
      requires Valid() && IsTask(a) && Apply(cfg, s, a).Some?
      modifies Repr()
      ensures Valid() && fresh(Repr() - old(Repr()))
      ensures s == old(s).(task := Broken) || Some(s) == Apply(cfg, old(s), a)
    {
      hide FsWriterBase.Valid, FsWriterBase.Fits, Finished, Flatten;
      StepKeeps(cfg, s, a);
      if a.TakeChunk? || a.DrainChunk? {
        HandOverOne();
      } else if a.Acknowledge? {
        Answer();
      } else {
        s := Apply(cfg, s, a).value;
      }
    }

    /** The client stays where it is, nothing is accepted, and the task ends its work only for a client that
        waits. */
    twostate predicate ClientKept()
      reads this
    {
      && s.client == old(s.client) && s.accepted == old(s.accepted)
      && (s.task.Stopped? ==> old(s.task.Stopped?) || s.client.Waiting?)
      && (old(s.task.Stopped?) ==> s.task.Stopped?)
    }

    /** Some step of the task: which one is the scheduler's choice. */
    method AnyStep()
      requires Valid() && Running(s)
      modifies Repr()
      ensures Valid() && fresh(Repr() - old(Repr())) && ClientKept()
      ensures Running(s) && Blocked(cfg, old(s)) && Blocked(cfg, s) ==> Patience(s) < Patience(old(s))
    {
      hide FsWriterBase.Valid, FsWriterBase.Fits, Finished, Flatten;
      NeverStuck(cfg, s);
      var a: Action := *;
      if !IsTask(a) || Apply(cfg, s, a).None? {
        a := NextStep(s);
      }
      if Blocked(cfg, s) {
        WaitEnds(cfg, s, a);
      }
      Step(a);
    }

    /** The task runs for a while. */
    method Preempt()
      requires Valid()
      modifies Repr()
      ensures Valid() && fresh(Repr() - old(Repr())) && ClientKept()
    {
      hide Valid, Inv, Flatten;
      var n: nat := *;
      while n > 0 && Running(s)
        invariant Valid() && fresh(Repr() - old(Repr())) && ClientKept()
        decreases n
      {
        AnyStep();
        n := n - 1;
      }
    }

    /** The client is blocked until the task lets it go on, or is gone. It always does. */
    method Await()
      requires Valid()
      modifies Repr()
      ensures Valid() && fresh(Repr() - old(Repr())) && ClientKept()
      ensures !(Blocked(cfg, s) && Running(s))
    {
      hide Valid, Inv, Flatten;
      while Blocked(cfg, s) && Running(s)
        invariant Valid() && fresh(Repr() - old(Repr())) && ClientKept()
        decreases Running(s), if Blocked(cfg, s) then 1 + Patience(s) else 0
      {
        AnyStep();
      }
    }

    /** A step of the client that leaves the queue of chunks alone. */
    method Enter(a: Action)
      requires Valid() && !IsTask(a) && !a.Break? && !a.Send? && !a.GiveUp? && Apply(cfg, s, a).Some?
      requires s.client != Waiting(CompleteOrder) || s.task.Stopped?
      modifies this`s
      ensures Valid() && Some(s) == Apply(cfg, old(s), a)
    {
      hide FsWriterBase.Valid, FsWriterBase.Fits, Cluster.Settled, Flatten, Inv;
      StepKeeps(cfg, s, a);
      s := Apply(cfg, s, a).value;
    }

    /** Put a chunk into the queue, which has room. */
    method Enqueue(chunk: seq<byte>)
      requires Valid() && Apply(cfg, s, Send(chunk)).Some? && pos + |chunk| < I64_LIMIT
      modifies this`s, this`pos
      ensures Valid() && Some(s) == Apply(cfg, old(s), Send(chunk)) && Accepted() == old(Accepted()) + chunk
    {
      hide FsWriterBase.Valid, FsWriterBase.Fits, Cluster.Settled, Inv;
      StepKeeps(cfg, s, Send(chunk));
      FlattenMore(s.accepted, chunk);
      s, pos := Apply(cfg, s, Send(chunk)).value, pos + |chunk|;
    }

    lemma PosCounts()
      requires Valid()
      ensures pos == |writer.initial| + |Accepted()|
    {
    }

    /** Ask to queue a chunk, and wait until it can be or the task is gone. */
    method WaitForRoom(data: seq<byte>)
      requires Valid() && s.client.Idle? && data != []
      modifies Repr()
      ensures Valid() && fresh(Repr() - old(Repr())) && s.accepted == old(s.accepted) && pos == old(pos)
      ensures !s.client.Failed? && !s.client.Waiting? && (Running(s) ==> Apply(cfg, s, Send(data)).Some?)
      ensures s.task.Stopped? <==> old(s.task.Stopped?)
    {
      hide Valid, Flatten, Inv;
      PosCounts();
      Enter(CallWrite(data));
      Preempt();
      Await();
      PosCounts();
    }

    /** Report why the queue takes nothing. */
    method GiveUp() returns (r: Result<()>, ghost cause: FsError)
      requires Valid() && !Running(s) && !s.client.Failed? && s.client != Waiting(CompleteOrder)
      modifies this`s, this`error
      ensures r.Err? && (r.error == cause || r.error.Closed?) && s == old(s).(client := Failed) && error.None?
      ensures !old(s.task.Stopped?) ==> old(error) == Some(cause) && WriteCause(cause)
    {
      cause := if error.Some? then error.value else FsError.Closed;
      var early: bool := *;
      r := Err(if error.None? || early then FsError.Closed else error.value);
      s, error := s.(client := Failed), None;
    }

    /** Queue a chunk, waiting for room if need be. It fails if the task is gone. The task's error is reported, if
        the task has come to record it, and otherwise that the channel is closed. */
    method Write(data: seq<byte>) returns (r: Result<()>, ghost cause: FsError)
      requires Valid() && s.client.Idle? && pos + |data| < I64_LIMIT
      modifies Repr()
      ensures fresh(Repr() - old(Repr()))
      ensures r.Ok? ==> Valid() && s.client.Idle? && Accepted() == old(Accepted()) + data
      ensures r.Ok? ==> s.accepted == old(s.accepted) + if data == [] then [] else [data]
      ensures r.Ok? && !old(s.task.Stopped?) ==> !s.task.Stopped?
      ensures r.Err? ==> data != [] && (r.error == cause || r.error.Closed?)
      ensures r.Err? && !old(s.task.Stopped?) ==> Cause(cause, |old(Accepted())|)
      ensures r.Err? ==> s.client.Failed? && error.None?
    {
      hide Valid, Flatten, Inv;
      cause := FsError.Closed;
      if data == [] {
        return Ok(()), cause;
      }
      WaitForRoom(data);
      if !Running(s) {
        r, cause := GiveUp();
        return;
      }
      Enqueue(data);
      Preempt();
      r := Ok(());
    }

    /** Send an order to the task, if it is still there. The control queue always has room. */
    method SendOrder(order: Order) returns (sent: bool)
      requires Valid() && s.client.Idle?
      modifies Repr()
      ensures fresh(Repr() - old(Repr())) && s.accepted == old(s.accepted)
      ensures sent ==> Valid() && s.client == Waiting(order) && Running(s)
      ensures !sent ==> s.client.Failed?
      ensures !sent && !old(s.task.Stopped?) ==> error.Some? && WriteCause(error.value)
    {
      hide FsWriterBase.Valid, FsWriterBase.Fits, Finished, Flatten, Inv;
      Enter(CallOrder(order));
      Preempt();
      if !Running(s) {
        s := s.(client := Failed);
        return false;
      }
      NeverStuck(cfg, s);
      Enter(Ask);
      sent := true;
    }

    /** Send an order and wait for the answer: by then every accepted chunk has been handed over. If none comes
        the caller is told that the channel is closed; the task's own error stays unread. */
    method Request(order: Order) returns (r: Result<()>)
      requires Valid() && s.client.Idle?
      modifies Repr()
      ensures fresh(Repr() - old(Repr())) && s.accepted == old(s.accepted)
      ensures r.Err? ==> r.error.Closed? && s.client.Failed?
      ensures r.Err? && !old(s.task.Stopped?) ==>
                error.Some? && if order.CompleteOrder? then CompleteCause(error.value) else WriteCause(error.value)
      ensures r.Ok? ==> Valid() && s.client.Idle? && s.accepted == s.handed
      ensures r.Ok? ==> s.task.Stopped? == order.CompleteOrder?
    {
      hide FsWriterBase.Valid, FsWriterBase.Fits, Finished, Flatten;
      var sent := SendOrder(order);
      if !sent {
        return Err(FsError.Closed);
      }
      Await();
      if !s.acked {
        s := s.(client := Failed);
        return Err(FsError.Closed);
      }
      assert s.handed == s.accepted;
      Enter(TakeAck);
      r := Ok(());
    }

    /** Everything accepted so far is with the block writer. */
    method Flush() returns (r: Result<()>)
      requires Valid() && s.client.Idle?
      modifies Repr()
      ensures fresh(Repr() - old(Repr())) && Accepted() == old(Accepted())
      ensures r.Err? ==> r.error.Closed? && (!old(s.task.Stopped?) ==> error.Some? && WriteCause(error.value))
      ensures r.Ok? ==> Valid() && s.client.Idle? && !s.task.Stopped?
      ensures r.Ok? && Running(s) ==> writer.written == Accepted()
    {
      hide FsWriterBase.Valid, FsWriterBase.Fits, Finished, Flatten, Inv;
      r := Request(FlushOrder);
    }

    /** The file is closed and complete. */
    method Complete() returns (r: Result<()>)
      requires Valid() && s.client.Idle?
      modifies Repr()
      ensures fresh(Repr() - old(Repr())) && Accepted() == old(Accepted())
      ensures r.Err? ==> r.error.Closed? && (!old(s.task.Stopped?) ==> error.Some? && CompleteCause(error.value))
      ensures r.Ok? ==> Valid() && Finished()
    {
      hide FsWriterBase.Valid, FsWriterBase.Fits, Finished, Flatten, Inv;
      r := Request(CompleteOrder);
    }
  }
}
