/** Splitting a stream of bytes over the blocks of a file, and reporting each block to the master. */
module FsWriterBases {
  import opened Common
  import opened FileBlocks
  import opened Clusters
  import opened BlockWriters

  const I64_LIMIT: nat := 0x8000_0000_0000_0000

  /** The conversion of a signed 64-bit number to an unsigned one. It keeps a number that is not negative. */
  function AsUsize(x: int): (u: nat)
    ensures 0 <= x < I64_LIMIT ==> u == x
    ensures 0 < -x < I64_LIMIT ==> u > I64_LIMIT
  {
    x % 0x1_0000_0000_0000_0000
  }

  /** The list after block `b` has taken the last place and a new, empty one follows. */
  lemma {:induction false} Rolled(c0: seq<Block>, c1: seq<Block>, b: Block)
    requires c0 != [] && |c1| == |c0| + 1 && c1[..|c0| - 1] == c0[..|c0| - 1] && c1[|c0| - 1] == b
    ensures Joined(c1, |c0|) == Joined(c0, |c0| - 1) + b.data
  {
    SamePrefix(c0, c1, |c0| - 1);
  }

  /** The master's count of the closed blocks is the number of their bytes. */
  lemma {:induction false} LenOfClosed(c: Cluster, n: nat)
    requires c.ValidUpTo(n) && n < |c.blocks|
    ensures c.ComputeLen(n) == |Joined(c.Contained(), n)|
  {
    if n > 0 {
      LenOfClosed(c, n - 1);
    }
  }

  class FsWriterBase {
    const cluster: Cluster
    const blockSize: nat
    var pos: int
    var lastBlock: Option<LocatedBlock>
    var curWriter: BlockWriter?
    ghost const initial: seq<byte>
    ghost const faults0: nat           // how many requests had failed when the file was opened
    ghost var written: seq<byte>

    ghost function Repr(): set<object>
      reads this
    {
      {this, cluster} + if curWriter == null then {} else {curWriter}
    }

    /** The last block of the master's list. */
    ghost function Last(): BlockMeta
      requires cluster.blocks != []
      reads cluster
    {
      cluster.blocks[|cluster.blocks| - 1]
    }

    /** The bytes in the blocks before the last. */
    ghost function Before(): seq<byte>
      requires cluster.blocks != []
      reads cluster
    {
      Joined(cluster.Contained(), |cluster.blocks| - 1)
    }

    /** Block `w` is the one being written: the master's last, open, and holding all that the blocks before
        it do not. */
    ghost predicate IsCurrent(w: BlockWriter)
      reads this, cluster, w
    {
      && w.Valid() && !w.completed && w.replicas[0].len == blockSize && |w.Data()| <= blockSize
      && cluster.blocks != [] && Last().id == w.id && Last().writing
      && initial + written == Before() + w.Data()
    }

    /** Nothing was written yet; an appended file's last block waits to be reopened. */
    ghost predicate IsUnused()
      reads this, cluster
    {
      && written == [] && Contents(cluster.Contained()) == initial
      && if lastBlock.None? then cluster.blocks == []
         else && cluster.blocks != [] && Last().writing
              && Last().id == lastBlock.value.id && Last().len == lastBlock.value.len
              && (cluster.reliable ==> lastBlock.value.locs != [])
    }

    ghost predicate Consistent()
      reads this, cluster, curWriter
    {
      && cluster.Valid() && cluster.Sealed() && cluster.writing && 0 < blockSize < I64_LIMIT
      && pos == |initial| + |written| && cluster.faults == faults0
      && (if curWriter == null then IsUnused() else lastBlock.None? && IsCurrent(curWriter))
    }

    ghost predicate Valid()
      reads this, cluster, curWriter
    {
      Consistent() && (curWriter != null ==> curWriter.Data() != [])
    }

    /** The workers will not reopen the file's last block. */
    ghost predicate Refused()
      reads this, cluster
    {
      lastBlock.Some? && Refuses(lastBlock.value.len, blockSize, lastBlock.value.id in cluster.stored)
    }

    /** The current block is used up, but not to the length the master wants. */
    ghost predicate Stuck()
      reads this, cluster, curWriter
    {
      curWriter != null && curWriter.Valid() && curWriter.Remaining() <= 0 && |curWriter.Data()| != cluster.blockSize
    }

    /** There is a block with bytes that has not been reopened yet. */
    ghost predicate Reopens()
      reads this
    {
      lastBlock.Some? && lastBlock.value.len > 0
    }

    /** How many bytes the current block takes, or the one to be reopened, or a new one. */
    ghost function RoomNow(): int
      requires Consistent()
      reads this, cluster, curWriter
    {
      if curWriter != null then curWriter.Remaining()
      else if lastBlock.Some? then blockSize - lastBlock.value.len
      else blockSize
    }

    /** How many bytes the next round puts down: what the block it goes to has room for. */
    ghost function RoundSize(n: nat): int
      requires Consistent()
      reads this, cluster, curWriter
    {
      Min(n, if RoomNow() > 0 then RoomNow() else blockSize)
    }

    /** So many bytes cannot be written: the block to be reopened is refused, or they go beyond the end of a block
        that the master wants longer or shorter. */
    ghost predicate Overruns(n: nat)
      requires Consistent()
      reads this, cluster, curWriter
    {
      n > 0 && (Refused() || (cluster.blockSize != blockSize && n > RoomNow()))
    }

    /** Client and master agree on the block size, and a block to be reopened has room. */
    ghost predicate Fits()
      reads this, cluster
    {
      cluster.blockSize == blockSize && (lastBlock.Some? ==> 0 < lastBlock.value.len < blockSize)
    }

    /** An error of the world outside: a request has failed since the file was opened. A reliable world makes none. */
    ghost predicate Faulted(e: FsError)
      reads cluster
    {
      IsFault(e) && !cluster.reliable && cluster.faults > faults0
    }

    constructor (cluster: Cluster, blockSize: nat, lastBlock: Option<LocatedBlock>)
      requires cluster.Valid() && cluster.Sealed() && cluster.writing && 0 < blockSize < I64_LIMIT
      requires cluster.len == |Contents(cluster.Contained())|
      requires cluster.reliable && lastBlock.Some? ==> lastBlock.value.locs != []
      requires if lastBlock.None? then cluster.blocks == []
               else && cluster.blocks != [] && var last := cluster.blocks[|cluster.blocks| - 1];
                    last.writing && last.id == lastBlock.value.id && last.len == lastBlock.value.len
      ensures Valid() && written == [] && initial == Contents(cluster.Contained()) && faults0 == cluster.faults
      ensures this.cluster == cluster && this.blockSize == blockSize && curWriter == null && this.lastBlock == lastBlock
    {
      this.cluster, this.blockSize, this.lastBlock, curWriter, pos := cluster, blockSize, lastBlock, null, cluster.len;
      initial, written, faults0 := Contents(cluster.Contained()), [], cluster.faults;
    }

    /** The block to be reopened holds what the blocks before it do not. */
    lemma LastHolds()
      requires Consistent() && curWriter == null && lastBlock.Some?
      ensures initial == Before() + cluster.Bytes(lastBlock.value.id)
      ensures |cluster.Bytes(lastBlock.value.id)| == lastBlock.value.len
    {
    }

    /** Open a block on its workers. */
    method OpenBlock(lb: LocatedBlock) returns (r: Result<BlockWriter>)
      requires lb.len == |cluster.Bytes(lb.id)| && (cluster.reliable ==> lb.locs != [])
      modifies cluster`faults
      ensures Refuses(lb.len, blockSize, lb.id in cluster.stored) ==> r.Err?
      ensures r.Err? ==> || (r.error.Rejected? && Refuses(lb.len, blockSize, lb.id in cluster.stored))
                         || (IsFault(r.error) && !cluster.reliable && cluster.faults == old(cluster.faults) + 1)
      ensures r.Ok? ==> fresh(r.value) && r.value.Valid() && r.value.Data() == cluster.Bytes(lb.id)
      ensures r.Ok? ==> r.value.id == lb.id && r.value.replicas[0].len == blockSize && !r.value.completed
      ensures r.Ok? ==> cluster.faults == old(cluster.faults)
    {
      var failing := AnyFailing(cluster.reliable);
      var local: set<nat> := *;
      r := BlockWriter.Open(lb, blockSize, cluster.Bytes(lb.id), lb.id in cluster.stored, local, failing != {});
      if r.Err? && !r.error.Rejected? {
        cluster.faults := cluster.faults + 1;
      }
    }

    /** Take over the block the master reported at opening. Its workers refuse it if it has no room. */
    method TakeLast() returns (r: Result<()>)
      requires Consistent() && curWriter == null && lastBlock.Some?
      modifies this, cluster`faults
      ensures old(Refused()) ==> r.Err?
      ensures r.Err? ==> curWriter == null && (Faulted(r.error) || (r.error.Rejected? && old(Refused())))
      ensures r.Ok? ==>
              Consistent() && curWriter != null && fresh(curWriter) && written == old(written) && pos == old(pos)
      ensures r.Ok? ==> 0 < curWriter.Remaining() == old(RoomNow()) <= blockSize
    {
      hide Cluster.Valid, Cluster.Sealed, Cluster.Contained, Cluster.Bytes, Before, Contents;
      LastHolds();
      var lb := lastBlock.value;
      lastBlock := None;
      var writer := OpenBlock(lb);
      if writer.Err? {
        return Err(writer.error);
      }
      curWriter := writer.value;
      r := Ok(());
    }

    /** A finished block whose workers have committed it, while the master has not heard of it. */
    ghost predicate IsFinished(commit: CommitBlock)
      reads this, cluster
    {
      && cluster.blocks != [] && Last().writing && Last().id == commit.id
      && commit.len == |cluster.Bytes(commit.id)|
      && initial + written == Before() + cluster.Bytes(commit.id)
    }

    /** Between two blocks. */
    ghost predicate IsBetween(commit: Option<CommitBlock>)
      reads this, cluster
    {
      && cluster.ValidUpTo(|cluster.blocks| - 1) && cluster.Sealed() && cluster.writing && 0 < blockSize < I64_LIMIT
      && pos == |initial| + |written| && lastBlock.None? && cluster.faults == faults0
      && if commit.None? then cluster.blocks == [] && initial + written == [] else IsFinished(commit.value)
    }

    /** Have every worker commit the current block. */
    method Finish() returns (r: Result<CommitBlock>)
      requires Consistent() && curWriter != null
      modifies this`curWriter, curWriter, cluster`stored, cluster`faults
      ensures r.Err? ==> Faulted(r.error) && curWriter == old(curWriter)
      ensures r.Ok? ==> curWriter == null && IsBetween(Some(r.value)) && r.value.len == |old(curWriter.Data())|
    {
      hide Cluster.ValidUpTo, Cluster.Sealed, Cluster.Contained;
      var failing := AnyFailing(cluster.reliable);
      r := curWriter.Complete(cluster, failing);
      if r.Err? {
        cluster.faults := cluster.faults + 1;
        return;
      }
      curWriter := null;
      cluster.LastStored(r.value.id);
    }

    /** Have the master record the previous block, if there is one, and allocate the next. */
    method Allocate(commit: Option<CommitBlock>) returns (r: Result<LocatedBlock>)
      requires IsBetween(commit)
      modifies cluster
      ensures r.Err? ==>
              Faulted(r.error) || (r.error.Rejected? && commit.Some? && commit.value.len != cluster.blockSize)
      ensures commit.Some? && commit.value.len != cluster.blockSize ==> r.Err?
      ensures r.Ok? ==> cluster.Valid() && cluster.Sealed() && cluster.writing && cluster.blocks != []
      ensures r.Ok? ==> Last() == BlockMeta(r.value.id, 0, true) && r.value.len == 0 && r.value.id !in cluster.stored
      ensures r.Ok? && cluster.reliable ==> r.value.locs != []
      ensures r.Ok? ==> initial + written == Before() && cluster.faults == faults0
    {
      hide Cluster.ValidUpTo, Cluster.Sealed;
      ghost var c0 := cluster.Contained();
      r := cluster.AddBlock(commit);
      if r.Ok? && commit.Some? {
        Rolled(c0, cluster.Contained(), Block(commit.value.id, cluster.Bytes(commit.value.id)));
      }
    }

    method NewBlock(commit: Option<CommitBlock>) returns (r: Result<()>)
      requires IsBetween(commit) && curWriter == null
      modifies this, cluster
      ensures r.Err? ==> curWriter == null
      ensures r.Err? ==>
              Faulted(r.error) || (r.error.Rejected? && commit.Some? && commit.value.len != cluster.blockSize)
      ensures commit.Some? && commit.value.len != cluster.blockSize ==> r.Err?
      ensures r.Ok? ==>
              Consistent() && curWriter != null && fresh(curWriter) && written == old(written) && pos == old(pos)
      ensures r.Ok? ==> curWriter.Data() == [] && curWriter.Remaining() == blockSize
    {
      hide Cluster.ValidUpTo, Cluster.Sealed, Cluster.Contained;
      var lb := Allocate(commit);
      if lb.Err? {
        return Err(lb.error);
      }
      var writer := OpenBlock(lb.value);
      if writer.Err? {
        return Err(writer.error);
      }
      curWriter := writer.value;
      r := Ok(());
    }

    /** A writer for the next bytes. It always has room, so the conversion of its room is the room. */
    method GetWriter() returns (r: Result<()>)
      requires Valid()
      modifies Repr()
      ensures old(Refused()) || old(Stuck()) ==> r.Err?
      ensures r.Err? ==> Faulted(r.error) || (r.error.Rejected? && (old(Refused()) || old(Stuck())))
      ensures fresh(Repr() - old(Repr()))
      ensures r.Ok? ==> Consistent() && curWriter != null && written == old(written) && pos == old(pos)
      ensures r.Ok? ==> curWriter.Remaining() > 0 && AsUsize(curWriter.Remaining()) == curWriter.Remaining()
      ensures r.Ok? ==> curWriter.Remaining() == if old(RoomNow()) > 0 then old(RoomNow()) else blockSize
    {
      Limits();
      hide Consistent, IsBetween;
      if curWriter != null && curWriter.Remaining() > 0 {
        return Ok(());
      }
      var commit := None;
      if curWriter != null {
        var done := Finish();
        if done.Err? {
          return Err(done.error);
        }
        commit := Some(done.value);
      }
      if lastBlock.Some? {
        r := TakeLast();
      } else {
        r := NewBlock(commit);
      }
    }

    lemma Limits()
      requires Valid()
      ensures 0 < blockSize < I64_LIMIT
      ensures if curWriter != null then lastBlock.None? && curWriter.Valid() && 0 <= curWriter.Remaining() <= blockSize
                                        && |curWriter.Data()| == blockSize - curWriter.Remaining()
              else lastBlock.Some? || IsBetween(None)
    {
      hide Cluster.Contained;
    }

    /** Send bytes to the current block, which has room for them. */
    method Put(bytes: seq<byte>) returns (r: Result<()>)
      requires Consistent() && curWriter != null && |bytes| <= curWriter.Remaining()
      modifies this`pos, this`written, curWriter, cluster`faults
      ensures r.Err? ==> Faulted(r.error)
      ensures r.Ok? ==>
              Consistent() && written == old(written) + bytes && curWriter.Data() == old(curWriter.Data()) + bytes
    {
      hide Cluster.ValidUpTo, Cluster.Sealed;
      var failing := AnyFailing(cluster.reliable);
      r := curWriter.Write(bytes, failing);
      if r.Err? {
        cluster.faults := cluster.faults + 1;
        return;
      }
      pos, written := pos + |bytes|, written + bytes;
      assert initial + written == (initial + old(written)) + bytes;
    }

    /** One round of the write loop: as much as the current block takes, and never nothing. */
    method WriteRound(rest: seq<byte>) returns (r: Result<nat>)
      requires Valid() && rest != []
      modifies Repr()
      ensures old(Refused()) || old(Stuck()) ==> r.Err?
      ensures r.Err? ==> Faulted(r.error) || (r.error.Rejected? && (old(Refused()) || old(Stuck())))
      ensures fresh(Repr() - old(Repr()))
      ensures r.Ok? ==> Valid() && curWriter != null && lastBlock.None?
      ensures r.Ok? ==> 0 < r.value <= |rest| && written == old(written) + rest[..r.value]
      ensures r.Ok? ==> r.value == old(RoundSize(|rest|))
      ensures r.Ok? && cluster.blockSize != blockSize ==> 0 <= RoomNow() == old(RoomNow()) - r.value
    {
      hide Cluster.ValidUpTo, Cluster.Sealed;
      var got := GetWriter();
      if got.Err? {
        return Err(got.error);
      }
      var size := Min(|rest|, AsUsize(curWriter.Remaining()));
      var done := Put(rest[..size]);
      if done.Err? {
        return Err(done.error);
      }
      r := Ok(size);
    }

    /** All of the chunk goes behind what was written before. It fails if the chunk overruns, and apart from that
        only a fault gets in the way. */
    method Write(chunk: seq<byte>) returns (r: Result<()>)
      requires Valid() && |initial| + |written| + |chunk| < I64_LIMIT
      modifies Repr()
      ensures old(Overruns(|chunk|)) ==> r.Err?
      ensures r.Err? ==> chunk != [] && (Faulted(r.error) || (r.error.Rejected? && old(Overruns(|chunk|))))
      ensures fresh(Repr() - old(Repr()))
      ensures r.Ok? ==> Valid() && (old(Fits()) ==> Fits())
      ensures r.Ok? ==> written == old(written) + chunk && (chunk != [] ==> curWriter != null)
      ensures r.Ok? && chunk == [] ==> unchanged(this) && Refused() == old(Refused())
      ensures r.Ok? && cluster.blockSize != blockSize ==> RoomNow() == old(RoomNow()) - |chunk|
    {
      hide Consistent, Stuck, RoomNow, Refused, RoundSize;
      if chunk == [] {
        return Ok(());
      }
      var rest := chunk;
      while rest != []
        invariant Valid() && fresh(Repr() - old(Repr())) && (old(Fits()) ==> Fits())
        invariant written + rest == old(written) + chunk
        invariant if rest == chunk then Refused() == old(Refused()) && RoomNow() == old(RoomNow())
                  else curWriter != null && lastBlock.None? && !old(Refused())
        invariant cluster.blockSize != blockSize ==> RoomNow() == old(RoomNow()) - (|chunk| - |rest|)
        invariant cluster.blockSize != blockSize && rest != chunk ==> RoomNow() >= 0
        decreases |rest|
      {
        StuckOverruns();
        var size := WriteRound(rest);
        if size.Err? {
          return Err(size.error);
        }
        assert rest == rest[..size.value] + rest[size.value..];
        rest := rest[size.value..];
      }
      r := Ok(());
    }

    /** No round is refused but at the start, or at the end of a block of the wrong size. */
    lemma StuckOverruns()
      requires Valid()
      ensures lastBlock.None? ==> !Refused()
      ensures Stuck() ==> cluster.blockSize != blockSize && RoomNow() <= 0
    {
    }

    /** Commit the last block and close the file: it now holds what it held and all that was written. The
        master refuses exactly when a file whose last block is not empty was reopened and nothing was written. */
    method Complete() returns (r: Result<()>)
      requires Valid()
      modifies Repr()
      ensures fresh(Repr() - old(Repr()))
      ensures r.Err? ==> Faulted(r.error) || (r.error.Rejected? && old(Reopens()))
      ensures old(Reopens()) ==> old(written) == [] && initial != [] && r.Err?
      ensures r.Ok? ==> cluster.Valid() && cluster.Sealed() && !cluster.writing && cluster.len == |initial| + |written|
      ensures r.Ok? ==> Contents(cluster.Contained()) == initial + written && written == old(written)
      ensures r.Ok? ==> cluster.faults == faults0
      ensures r.Ok? && old(Fits()) ==> cluster.Settled() && (old(curWriter) == null ==> initial == [])
    {
      if lastBlock.Some? {
        LastHasBytes();
      }
      var last := None;
      if curWriter != null {
        var done := Finish();
        if done.Err? {
          return Err(done.error);
        }
        last := Some(done.value);
      }
      r := CloseFile(last);
    }

    lemma LastHasBytes()
      requires Valid() && lastBlock.Some?
      ensures lastBlock.value.len > 0 ==> initial != []
    {
      LastIsIn(cluster.Contained());
    }

    /** The length the client reports is the master's, unless a reopened block is missing from the sum. */
    lemma LengthsAddUp(last: Option<CommitBlock>)
      requires if last.Some? then IsBetween(last) else Consistent() && curWriter == null
      ensures cluster.ValidUpTo(|cluster.blocks| - 1)
      ensures cluster.CommitLen(last) == pos <==> !(lastBlock.Some? && lastBlock.value.len > 0)
    {
      if cluster.blocks != [] {
        LenOfClosed(cluster, |cluster.blocks| - 1);
      }
    }

    method CloseFile(last: Option<CommitBlock>) returns (r: Result<()>)
      requires if last.Some? then IsBetween(last) && last.value.len > 0 else Consistent() && curWriter == null
      modifies cluster
      ensures r.Err? ==> Faulted(r.error) || (r.error.Rejected? && lastBlock.Some? && lastBlock.value.len > 0)
      ensures lastBlock.Some? && lastBlock.value.len > 0 ==> r.Err?
      ensures r.Ok? ==> cluster.Valid() && cluster.Sealed() && !cluster.writing && cluster.len == pos
      ensures r.Ok? ==> Contents(cluster.Contained()) == initial + written && cluster.faults == faults0
      ensures r.Ok? && lastBlock.None? && cluster.blockSize == blockSize
              && (last.Some? ==> last.value.len <= blockSize) ==>
                cluster.Settled()
    {
      hide Cluster.ValidUpTo, Cluster.Sealed, Cluster.ComputeLen;
      LengthsAddUp(last);
      r := cluster.CompleteFile(pos, last);
    }
  }
}
