/** The writer an application holds: small writes are gathered into chunks before they are queued. */
module FsWriters {
  import opened Common
  import opened FileBlocks
  import opened Clusters
  import opened BlockWriters
  import opened FsWriterBases
  import opened WriterTasks
  import opened FsWriterBuffers

  /** Bytes gathered in a buffer of `size`: chunks of that size are queued, and the last one, full or not, is held. */
  function Queued(bytes: seq<byte>, size: nat): seq<seq<byte>>
    requires size > 0
    decreases |bytes|
  {
    if |bytes| <= size then [] else [bytes[..size]] + Queued(bytes[size..], size)
  }

  function Held(bytes: seq<byte>, size: nat): seq<byte>
    requires size > 0
    decreases |bytes|
  {
    if |bytes| <= size then bytes else Held(bytes[size..], size)
  }

  /** Nothing is lost, what is queued are full chunks, and the buffer is empty only if there was nothing. */
  lemma {:induction false} GatheredIsAll(bytes: seq<byte>, size: nat)
    requires size > 0
    ensures Flatten(Queued(bytes, size)) + Held(bytes, size) == bytes
    ensures forall i :: 0 <= i < |Queued(bytes, size)| ==> |Queued(bytes, size)[i]| == size
    ensures |Held(bytes, size)| <= size && (Held(bytes, size) == [] <==> bytes == [])
    decreases |bytes|
  {
    if |bytes| <= size {
      FlattenNothing();
    } else {
      GatheredIsAll(bytes[size..], size);
      FlattenJoined([bytes[..size]], Queued(bytes[size..], size));
      FlattenMore([], bytes[..size]);
      FlattenNothing();
      assert [] + [bytes[..size]] == [bytes[..size]];
    }
  }

  class FsWriter {
    const inner: FsWriterBuffer
    const chunkSize: nat
    var buf: seq<byte>
    var pos: int

    ghost function Repr(): set<object>
      reads inner.writer
    {
      {this} + inner.Repr()
    }

    /** Every byte written so far. */
    ghost function Written(): seq<byte>
      reads this, inner
    {
      inner.Accepted() + buf
    }

    ghost predicate Valid()
      reads this, inner, inner.writer, inner.writer.cluster, inner.writer.curWriter
    {
      && inner.Valid() && inner.s.client.Idle? && !inner.s.task.Stopped?
      && chunkSize > 0 && |buf| <= chunkSize
      && pos == inner.pos + |buf| < I64_LIMIT
    }

    constructor (inner: FsWriterBuffer, chunkSize: nat)
      requires inner.Valid() && inner.s == Init() && chunkSize > 0
      ensures Valid() && Written() == [] && this.inner == inner && pos == inner.pos && this.chunkSize == chunkSize
    {
      this.inner, this.chunkSize, buf, pos := inner, chunkSize, [], inner.pos;
    }

    /** `FsWriter::create` and `FsWriter::append`, for a file that is open for this client. */
    static method Open(cluster: Cluster, lastBlock: Option<LocatedBlock>, blockSize: nat, chunkSize: nat,
                       chunkNum: nat, biased: bool)
      returns (w: FsWriter)
      requires cluster.Valid() && cluster.Sealed() && cluster.writing && 0 < blockSize < I64_LIMIT
      requires chunkSize > 0 && chunkNum > 0 && cluster.len == |Contents(cluster.Contained())| < I64_LIMIT
      requires cluster.reliable && lastBlock.Some? ==> lastBlock.value.locs != []
      requires if lastBlock.None? then cluster.blocks == []
               else && cluster.blocks != [] && var last := cluster.blocks[|cluster.blocks| - 1];
                    last.writing && last.id == lastBlock.value.id && last.len == lastBlock.value.len
      ensures w.Valid() && w.Written() == [] && w.inner.writer.cluster == cluster && fresh(w.Repr() - {cluster})
      ensures w.inner.writer.initial == Contents(cluster.Contained()) && w.pos == |w.inner.writer.initial|
      ensures w.inner.writer.faults0 == cluster.faults
      ensures w.chunkSize == chunkSize && w.inner.cfg == Config(chunkNum, biased)
      ensures w.inner.fits <==>
              cluster.blockSize == blockSize && (lastBlock.Some? ==> 0 < lastBlock.value.len < blockSize)
      ensures w.inner.refused <==>
              lastBlock.Some? && Refuses(lastBlock.value.len, blockSize, lastBlock.value.id in cluster.stored)
      ensures w.inner.room == blockSize - if lastBlock.Some? then lastBlock.value.len else 0
      ensures w.inner.writer.blockSize == blockSize
              && (w.inner.reopened <==> lastBlock.Some? && lastBlock.value.len > 0)
    {
      var base := new FsWriterBase(cluster, blockSize, lastBlock);
      var buffer := new FsWriterBuffer(base, chunkNum, biased);
      w := new FsWriter(buffer, chunkSize);
    }

    /** A call fails with its cause, or with a closed channel, while `n` bytes are written. */
    ghost predicate Explains(r: Result<()>, cause: FsError, n: nat)
      reads inner.writer.cluster
    {
      r.Err? ==> (r.error == cause || r.error.Closed?) && inner.Cause(cause, n)
    }

    /** Queue what has been gathered. */
    method FlushChunk() returns (r: Result<()>, ghost cause: FsError)
      requires Valid()
      modifies Repr()
      ensures fresh(Repr() - old(Repr())) && Explains(r, cause, |old(Written())|)
      ensures r.Ok? ==> Valid() && buf == [] && Written() == old(Written()) && pos == old(pos)
      ensures r.Ok? ==> inner.s.accepted == old(inner.s.accepted) + if old(buf) == [] then [] else [old(buf)]
      ensures pos == old(pos)
    {
      hide FsWriterBuffer.Valid, FsWriterBuffer.Finished;
      if buf == [] {
        return Ok(()), Io;
      }
      var chunk := buf;
      buf := [];
      r, cause := WriteChunk(chunk);
    }

    /** Queue a chunk as it is. */
    method WriteChunk(chunk: seq<byte>) returns (r: Result<()>, ghost cause: FsError)
      requires inner.Valid() && inner.s.client.Idle? && !inner.s.task.Stopped? && inner.pos + |chunk| < I64_LIMIT
      modifies inner.Repr()
      ensures fresh(Repr() - old(Repr())) && Explains(r, cause, |old(inner.Accepted())|)
      ensures r.Ok? ==> inner.Valid() && inner.s.client.Idle? && !inner.s.task.Stopped?
      ensures r.Ok? ==> inner.Accepted() == old(inner.Accepted()) + chunk
      ensures r.Ok? ==> inner.s.accepted == old(inner.s.accepted) + if chunk == [] then [] else [chunk]
      ensures r.Ok? ==> inner.pos == old(inner.pos) + |chunk|
    {
      r, cause := inner.Write(chunk);
    }

    /** Gather bytes, queueing the buffer each time it is full. */
    method Write(chunk: seq<byte>) returns (r: Result<()>, ghost cause: FsError)
      requires Valid() && pos + |chunk| < I64_LIMIT
      modifies Repr()
      ensures fresh(Repr() - old(Repr())) && Explains(r, cause, |old(Written())| + |chunk|)
      ensures r.Ok? ==> Valid() && Written() == old(Written()) + chunk && pos == old(pos) + |chunk|
      ensures r.Ok? ==> inner.s.accepted == old(inner.s.accepted) + Queued(old(buf) + chunk, chunkSize)
      ensures r.Ok? ==> buf == Held(old(buf) + chunk, chunkSize)
    {
      hide FsWriterBuffer.Valid, FsWriterBuffer.Accepted, Queued, Held;
      cause := Io;
      if chunk == [] {
        NothingToQueue();
        return Ok(()), cause;
      }
      assert chunk[0..] == chunk;
      var remaining, off := |chunk|, 0;
      while remaining > 0
        invariant Valid() && fresh(Repr() - old(Repr()))
        invariant 0 <= remaining == |chunk| - off && off <= |chunk| && pos == old(pos) + off
        invariant Written() == old(Written()) + chunk[..off]
        invariant inner.s.accepted + Queued(buf + chunk[off..], chunkSize)
                  == old(inner.s.accepted) + Queued(old(buf) + chunk, chunkSize)
        invariant Held(buf + chunk[off..], chunkSize) == Held(old(buf) + chunk, chunkSize)
        decreases remaining
      {
        var size: nat;
        r, size, cause := GatherSome(chunk, off);
        if r.Err? {
          return;
        }
        assert chunk[..off + size] == chunk[..off] + chunk[off..off + size];
        remaining, off := remaining - size, off + size;
      }
      assert chunk[off..] == [];
      NothingToQueue();
      r := Ok(());
    }

    lemma NothingToQueue()
      requires 0 < chunkSize && |buf| <= chunkSize
      ensures buf + [] == buf && Queued(buf + [], chunkSize) == [] && Held(buf + [], chunkSize) == buf
    {
    }

    /** One round: queue the buffer if it is full, then put in what there is room for. */
    method GatherSome(chunk: seq<byte>, off: nat) returns (r: Result<()>, size: nat, ghost cause: FsError)
      requires Valid() && off < |chunk| && pos + |chunk| - off < I64_LIMIT
      modifies Repr()
      ensures fresh(Repr() - old(Repr())) && Explains(r, cause, |old(Written())|)
      ensures r.Ok? ==> Valid() && 0 < size <= |chunk| - off && pos == old(pos) + size
      ensures r.Ok? ==> Written() == old(Written()) + chunk[off..off + size]
      ensures r.Ok? ==> inner.s.accepted + Queued(buf + chunk[off + size..], chunkSize)
                        == old(inner.s.accepted) + Queued(old(buf) + chunk[off..], chunkSize)
      ensures r.Ok? ==> Held(buf + chunk[off + size..], chunkSize) == Held(old(buf) + chunk[off..], chunkSize)
    {
      hide FsWriterBuffer.Valid, FsWriterBuffer.Accepted, Queued, Held;
      r, size, cause := Ok(()), 0, Io;
      if |buf| >= chunkSize {
        QueueFull(inner.s.accepted, buf, chunk[off..], chunkSize);
        r, cause := FlushChunk();
        if r.Err? {
          return;
        }
      }
      size := Min(chunkSize - |buf|, |chunk| - off);
      assert buf + chunk[off..] == (buf + chunk[off..off + size]) + chunk[off + size..];
      buf, pos := buf + chunk[off..off + size], pos + size;
    }

    /** Queueing a full buffer leaves the rest to gather. */
    lemma QueueFull(queue: seq<seq<byte>>, full: seq<byte>, rest: seq<byte>, size: nat)
      requires size > 0 && |full| == size && rest != []
      ensures (queue + [full]) + Queued([] + rest, size) == queue + Queued(full + rest, size)
      ensures Held([] + rest, size) == Held(full + rest, size)
    {
      assert [] + rest == rest && (full + rest)[..size] == full && (full + rest)[size..] == rest;
    }

    /** Pass a chunk on without copying it, after what has been gathered: `fuse_write`, `async_write` and
        `blocking_write`. */
    method FuseWrite(chunk: seq<byte>) returns (r: Result<()>, ghost cause: FsError)
      requires Valid() && pos + |chunk| < I64_LIMIT
      modifies Repr()
      ensures fresh(Repr() - old(Repr())) && Explains(r, cause, |old(Written())| + |chunk|)
      ensures r.Ok? ==> Valid() && Written() == old(Written()) + chunk && pos == old(pos) + |chunk| && buf == []
      ensures r.Ok? ==> inner.s.accepted == old(inner.s.accepted) + (if old(buf) == [] then [] else [old(buf)])
                                            + if chunk == [] then [] else [chunk]
      ensures r.Err? ==> pos == old(pos)
    {
      hide FsWriterBuffer.Valid, FsWriterBuffer.Accepted;
      r, cause := FlushChunk();
      if r.Err? {
        return;
      }
      r, cause := WriteChunk(chunk);
      if r.Ok? {
        pos := pos + |chunk|;
      }
    }

    /** Every byte written so far is with the block writer. A failure is reported as the error of the task, or as
        a closed channel, whose task then ended with `cause`. */
    method Flush() returns (r: Result<()>, ghost cause: FsError)
      requires Valid()
      modifies Repr()
      ensures fresh(Repr() - old(Repr())) && Explains(r, cause, |old(Written())|)
      ensures r.Ok? ==> Valid() && Written() == old(Written()) && pos == old(pos) && buf == []
      ensures r.Ok? && Running(inner.s) ==> inner.writer.written == Written()
    {
      r, cause := FlushChunk();
      if r.Err? {
        return;
      }
      r := inner.Flush();
      if r.Err? {
        cause := inner.error.value;
      }
    }

    /** The file holds what it held when it was opened, and every byte written since. Apart from what can go wrong
        with a write, this fails only if there was nothing to add to a file with bytes. */
    method Complete() returns (r: Result<()>, ghost cause: FsError)
      requires Valid()
      modifies Repr()
      ensures fresh(Repr() - old(Repr()))
      ensures r.Err? ==> r.error == cause || r.error.Closed?
      ensures r.Err? ==> || inner.Cause(cause, |old(Written())|)
                         || (cause.Rejected? && old(Written()) == [] && inner.reopened)
      ensures r.Ok? ==> Written() == old(Written()) && inner.Finished()
      ensures r.Ok? ==> !inner.Overruns(|Written()|) && (inner.reopened ==> Written() != [])
      ensures r.Ok? ==> Contents(inner.writer.cluster.Contained()) == inner.writer.initial + Written()
      ensures r.Ok? && inner.fits ==> inner.writer.cluster.Settled() && (Written() != [] || inner.writer.initial == [])
    {
      r, cause := FlushChunk();
      if r.Err? {
        return;
      }
      r := inner.Complete();
      if r.Err? {
        cause := inner.error.value;
      }
    }
  }

  /** What an application does with a writer before it completes it. */
  datatype WriteCall = Gathered(data: seq<byte>) | Direct(data: seq<byte>) | Flushing

  function Data(call: WriteCall): seq<byte> {
    if call.Flushing? then [] else call.data
  }

  function AllData(calls: seq<WriteCall>): seq<byte> {
    if calls == [] then [] else AllData(calls[..|calls| - 1]) + Data(calls[|calls| - 1])
  }

  lemma {:induction false} DataGrows(calls: seq<WriteCall>, n: nat)
    requires n < |calls|
    ensures AllData(calls[..n + 1]) == AllData(calls[..n]) + Data(calls[n])
    ensures |AllData(calls[..n + 1])| <= |AllData(calls)|
    decreases |calls| - n
  {
    assert calls[..n + 1][..n] == calls[..n];
    if n + 1 < |calls| {
      DataGrows(calls, n + 1);
    } else {
      assert calls[..n + 1] == calls;
    }
  }

  method PerformOne(w: FsWriter, call: WriteCall) returns (r: Result<()>, ghost cause: FsError)
    requires w.Valid() && w.pos + |Data(call)| < I64_LIMIT
    modifies w.Repr()
    ensures fresh(w.Repr() - old(w.Repr()))
    ensures w.Explains(r, cause, |old(w.Written())| + |Data(call)|)
    ensures r.Ok? ==> w.Valid() && w.Written() == old(w.Written()) + Data(call) && w.pos == old(w.pos) + |Data(call)|
  {
    hide FsWriter.Valid, FsWriter.Written;
    match call
    case Gathered(data) => r, cause := w.Write(data);
    case Direct(data) => r, cause := w.FuseWrite(data);
    case Flushing => r, cause := w.Flush();
  }

  /** A whole session: however the bytes were handed in, and wherever the flushes were, the completed file
      has them all, in order. It fails if the bytes overrun, and apart from that only for a fault, or because there
      was nothing to add to a file with bytes. */
  method WriteSession(w: FsWriter, calls: seq<WriteCall>) returns (r: Result<()>, ghost cause: FsError)
    requires w.Valid() && w.Written() == [] && w.pos + |AllData(calls)| < I64_LIMIT
    modifies w.Repr()
    ensures r.Ok? ==> Contents(w.inner.writer.cluster.Contained()) == w.inner.writer.initial + AllData(calls)
    ensures r.Ok? ==>
            w.inner.Finished() && !w.inner.Overruns(|AllData(calls)|) && (w.inner.reopened ==> AllData(calls) != [])
    ensures r.Ok? && w.inner.fits ==>
              w.inner.writer.cluster.Settled() && (AllData(calls) != [] || w.inner.writer.initial == [])
    ensures r.Err? ==> r.error == cause || r.error.Closed?
    ensures r.Err? ==> || w.inner.Cause(cause, |AllData(calls)|)
                       || (cause.Rejected? && AllData(calls) == [] && w.inner.reopened)
  {
    hide FsWriter.Valid, FsWriter.Written, FsWriterBuffer.Finished;
    for i := 0 to |calls|
      invariant w.Valid() && fresh(w.Repr() - old(w.Repr())) && w.Written() == AllData(calls[..i])
      invariant w.pos == old(w.pos) + |AllData(calls[..i])|
    {
      DataGrows(calls, i);
      r, cause := PerformOne(w, calls[i]);
      if r.Err? {
        return;
      }
    }
    assert calls[..|calls|] == calls;
    r, cause := w.Complete();
  }
}
