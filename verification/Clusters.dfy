/** One file as the cluster knows it: the master's list of blocks, and the bytes the workers hold. */
module Clusters {
  import opened Common
  import opened FileBlocks

  /** A block a client may write to: its id, its length so far, its workers. */
  datatype LocatedBlock = LocatedBlock(id: int, len: nat, locs: seq<nat>)

  /** What a client reports about a finished block. */
  datatype CommitBlock = CommitBlock(id: int, len: int)

  datatype BlockMeta = BlockMeta(id: int, len: int, writing: bool)

  /** All blocks but the last are full, and the last one, if any, is neither empty nor too long. */
  ghost predicate Chopped(blocks: seq<Block>, size: nat) {
    && (forall i :: 0 <= i < |blocks| - 1 ==> |blocks[i].data| == size)
    && (blocks != [] ==> 0 < |blocks[|blocks| - 1].data| <= size)
  }

  /** Cutting a byte sequence into blocks of a given size: the layout a file must have. */
  function Chop(bytes: seq<byte>, size: nat): (blocks: seq<seq<byte>>)
    requires size > 0
    decreases |bytes|
  {
    if bytes == [] then [] else if |bytes| <= size then [bytes] else [bytes[..size]] + Chop(bytes[size..], size)
  }

  lemma {:induction false} JoinedFirst(blocks: seq<Block>, n: nat)
    requires 0 < n <= |blocks|
    ensures Joined(blocks, n) == blocks[0].data + Joined(blocks[1..], n - 1)
  {
    if n > 1 {
      JoinedFirst(blocks, n - 1);
      assert blocks[1..][n - 2] == blocks[n - 1];
    }
  }

  /** There is only one way to lay a file out in blocks of a given size. */
  lemma {:induction false} ChoppedIsChop(blocks: seq<Block>, size: nat)
    requires size > 0 && Chopped(blocks, size)
    ensures |blocks| == |Chop(Contents(blocks), size)|
    ensures forall i :: 0 <= i < |blocks| ==> blocks[i].data == Chop(Contents(blocks), size)[i]
    decreases |blocks|
  {
    if |blocks| == 1 {
      JoinedFirst(blocks, 1);
    } else if |blocks| > 1 {
      var rest := blocks[1..];
      JoinedFirst(blocks, |blocks|);
      JoinedFirst(rest, |rest|);
      assert rest[|rest| - 1] == blocks[|blocks| - 1];
      ChoppedIsChop(rest, size);
      LastIsIn(rest);
      var all := Contents(blocks);
      assert all[..size] == blocks[0].data && all[size..] == Contents(rest);
    }
  }

  lemma {:induction false} FullBlocksLength(blocks: seq<Block>, size: nat, n: nat)
    requires n <= |blocks| && forall i :: 0 <= i < n ==> |blocks[i].data| == size
    ensures |Joined(blocks, n)| == n * size
  {
    if n > 0 {
      FullBlocksLength(blocks, size, n - 1);
    }
  }

  /** The last block is full exactly if the length is a multiple of the block size. */
  lemma {:induction false} LastIsFull(blocks: seq<Block>, size: nat)
    requires size > 0 && Chopped(blocks, size) && blocks != []
    ensures Contents(blocks) != []
    ensures |Contents(blocks)| % size == 0 <==> |blocks[|blocks| - 1].data| == size
  {
    var n := |blocks| - 1;
    var last := |blocks[n].data|;
    FullBlocksLength(blocks, size, n);
    assert |Contents(blocks)| == n * size + last;
    if last == size {
      assert |Contents(blocks)| == (n + 1) * size;
      DivModUnique(|Contents(blocks)|, size, n + 1, 0);
    } else {
      DivModUnique(|Contents(blocks)|, size, n, last);
    }
  }

  lemma {:induction false} LastIsIn(blocks: seq<Block>)
    requires blocks != []
    ensures |Contents(blocks)| >= |blocks[|blocks| - 1].data|
  {
  }

  lemma {:induction false} SamePrefix(c0: seq<Block>, c1: seq<Block>, n: nat)
    requires n <= |c0| && n <= |c1| && c0[..n] == c1[..n]
    ensures Joined(c0, n) == Joined(c1, n)
  {
    if n > 0 {
      assert c0[..n - 1] == c0[..n][..n - 1] == c1[..n - 1];
      assert c0[n - 1] == c0[..n][n - 1] == c1[n - 1];
      SamePrefix(c0, c1, n - 1);
    }
  }

  class Cluster {
    const blockSize: nat
    const reliable: bool               // no worker and no connection fails
    var blocks: seq<BlockMeta>
    var nextId: int
    var writing: bool
    var len: int
    var stored: map<int, seq<byte>>
    ghost var faults: nat              // how many requests to master or workers have failed

    function Bytes(id: int): seq<byte>
      reads this
    {
      if id in stored then stored[id] else []
    }

    /** The blocks with their bytes. */
    function Contained(): (bs: seq<Block>)
      reads this
      ensures |bs| == |blocks|
    {
      seq(|blocks|, i requires 0 <= i < |blocks| reads this => Block(blocks[i].id, Bytes(blocks[i].id)))
    }

    /** The lengths of the first `n` blocks are what the workers hold. */
    ghost predicate ValidUpTo(n: int)
      reads this
    {
      && (forall i :: 0 <= i < |blocks| ==> blocks[i].id < nextId)
      && (forall i :: 0 <= i < n && i < |blocks| ==> blocks[i].len == |Bytes(blocks[i].id)|)
      && (forall i, j :: 0 <= i < j < |blocks| ==> blocks[i].id != blocks[j].id)
      && (forall id :: id in stored ==> id < nextId)
    }

    ghost predicate Valid()
      reads this
    {
      ValidUpTo(|blocks|)
    }

    /** Every block but the last is committed and full. */
    ghost predicate Sealed()
      reads this
    {
      forall i :: 0 <= i < |blocks| - 1 ==> !blocks[i].writing && blocks[i].len == blockSize
    }

    /** A file no client is writing. */
    ghost predicate Settled()
      reads this
    {
      && Valid() && Sealed() && !writing && blockSize > 0
      && (blocks != [] ==> !blocks[|blocks| - 1].writing && 0 < blocks[|blocks| - 1].len <= blockSize)
      && len == |Contents(Contained())|
    }

    /** A new, empty file, open for its creator. */
    constructor (blockSize: nat, reliable: bool)
      requires blockSize > 0
      ensures Valid() && Sealed() && blocks == [] && writing && len == 0
      ensures this.blockSize == blockSize && this.reliable == reliable && faults == 0
    {
      this.blockSize, this.reliable := blockSize, reliable;
      blocks, nextId, writing, len, stored, faults := [], 1, true, 0, map[], 0;
    }

    /** Nothing has changed but the number of failed requests. */
    twostate predicate Kept()
      reads this
    {
      unchanged(this`blocks, this`nextId, this`writing, this`len, this`stored)
    }

    /** Whether a request to the master gets lost. */
    method Lost() returns (lost: bool)
      modifies this`faults
      ensures lost ==> !reliable
      ensures faults == old(faults) + if lost then 1 else 0
    {
      lost := *;
      lost := lost && !reliable;
      if lost {
        faults := faults + 1;
      }
    }

    /** The workers of a block, whichever they are. */
    method SomeWorkers() returns (locs: seq<nat>)
      ensures reliable ==> locs != []
    {
      locs := *;
      if reliable && locs == [] {
        var worker: nat := *;
        locs := [worker];
      }
    }

    /** Reopen the file; its last block, full or not, is handed to the client. */
    method Append() returns (r: Result<Option<LocatedBlock>>)
      requires Valid()
      modifies this
      ensures r.Err? <==> old(writing)
      ensures r.Err? ==> r.error.Rejected? && unchanged(this)
      ensures r.Ok? ==> writing && Valid() && nextId == old(nextId) && len == old(len) && stored == old(stored)
      ensures r.Ok? && old(blocks) == [] ==> r.value.None? && blocks == []
      ensures r.Ok? && old(blocks) != [] ==>
                var last := old(blocks)[|old(blocks)| - 1];
                && r.value.Some? && r.value.value.id == last.id && r.value.value.len == last.len
                && blocks == old(blocks)[|old(blocks)| - 1 := last.(writing := true)]
                && (reliable ==> r.value.value.locs != [])
      ensures Contained() == old(Contained()) && faults == old(faults)
    {
      if writing {
        return Err(Rejected);
      }
      writing := true;
      if blocks == [] {
        return Ok(None);
      }
      var last := blocks[|blocks| - 1];
      blocks := blocks[|blocks| - 1 := last.(writing := true)];
      var locs := SomeWorkers();
      r := Ok(Some(LocatedBlock(last.id, last.len, locs)));
    }

    /** The worker side of a finished block: its bytes are kept. */
    method Store(id: int, data: seq<byte>)
      modifies this`stored
      ensures stored == old(stored)[id := data]
    {
      stored := stored[id := data];
    }

    /** Storing the last block changes nothing in front of it. */
    twostate lemma LastStored(id: int)
      requires blocks == old(blocks) != [] && nextId == old(nextId) && writing == old(writing)
      requires id == blocks[|blocks| - 1].id && id in stored && stored == old(stored)[id := stored[id]]
      requires old(Valid()) && old(Sealed())
      ensures ValidUpTo(|blocks| - 1) && Sealed()
      ensures Joined(Contained(), |blocks| - 1) == old(Joined(Contained(), |blocks| - 1))
    {
      SamePrefix(old(Contained()), Contained(), |blocks| - 1);
    }

    /** The block `k` places from the end. */
    function FromEnd(k: nat): Option<BlockMeta>
      requires k > 0
      reads this
    {
      if k <= |blocks| then Some(blocks[|blocks| - k]) else None
    }

    predicate Matching(meta: Option<BlockMeta>, commit: Option<CommitBlock>) {
      (if meta.Some? then Some(meta.value.id) else None) == (if commit.Some? then Some(commit.value.id) else None)
    }

    /** The request repeats one whose answer was lost. */
    predicate IsRetry(previous: Option<CommitBlock>)
      reads this
    {
      !Matching(FromEnd(1), previous) && Matching(FromEnd(2), previous) && blocks != []
    }

    /** `commit_block` accepts: the block reported is the last one, and is being written. */
    predicate CanCommit(commit: Option<CommitBlock>)
      reads this
    {
      commit.Some? ==> blocks != [] && blocks[|blocks| - 1].id == commit.value.id && blocks[|blocks| - 1].writing
    }

    function Committed(commit: Option<CommitBlock>): seq<BlockMeta>
      requires CanCommit(commit)
      reads this
    {
      if commit.None? then blocks
      else blocks[|blocks| - 1 := BlockMeta(commit.value.id, commit.value.len, false)]
    }

    /** What a client may report: the bytes the workers hold of the last block. */
    ghost predicate Reportable(commit: Option<CommitBlock>)
      reads this
    {
      if commit.None? then blocks == [] else blocks != [] && commit.value.len == |Bytes(commit.value.id)|
    }

    /** Commit the previous block and allocate the next. */
    method AddBlock(previous: Option<CommitBlock>) returns (r: Result<LocatedBlock>)
      modifies this
      ensures r.Err? ==> (r.error.Rejected? || (IsFault(r.error) && !reliable)) && Kept()
      ensures faults == old(faults) + if r.Err? && IsFault(r.error) then 1 else 0
      ensures r.Ok? && reliable ==> r.value.locs != []
      ensures r.Err? && r.error.Rejected? ==>
                || (previous.Some? && previous.value.len != blockSize) || !old(writing)
                || old(!IsRetry(previous) && !CanCommit(previous))
      ensures (previous.Some? && previous.value.len != blockSize) || !old(writing) ==> r.Err?
      ensures !old(IsRetry(previous)) && !old(CanCommit(previous)) ==> r.Err?
      ensures r.Ok? && old(IsRetry(previous)) ==> Kept() && r.value.id == blocks[|blocks| - 1].id
      ensures r.Ok? ==> stored == old(stored) && writing == old(writing) && len == old(len)
      ensures r.Ok? && !old(IsRetry(previous)) ==>
                && old(CanCommit(previous)) && r.value.id == old(nextId) == nextId - 1 && r.value.len == 0
                && blocks == old(Committed(previous)) + [BlockMeta(r.value.id, 0, true)]
      ensures r.Ok? && old(if previous.Some? then blocks != [] && blocks[|blocks| - 1].id == previous.value.id
                           else blocks == []) ==>
                r.value.id == old(nextId) && |blocks| == |old(blocks)| + 1 && blocks[|old(blocks)|].id == r.value.id
      ensures r.Ok? && !old(IsRetry(previous)) && old(ValidUpTo(|blocks| - 1) && Sealed() && Reportable(previous)) ==>
                Valid() && Sealed() && r.value.id !in stored
    {
      hide ValidUpTo, Sealed, Reportable;
      var lost := Lost();
      if lost {
        return Err(Io);
      }
      if previous.Some? && previous.value.len != blockSize {
        return Err(Rejected);
      }
      if !writing {
        return Err(Rejected);
      }
      var locs := SomeWorkers();
      if IsRetry(previous) {
        var last := blocks[|blocks| - 1];
        return Ok(LocatedBlock(last.id, Max(last.len, 0), locs));
      }
      if !CanCommit(previous) {
        return Err(Rejected);
      }
      r := Ok(LocatedBlock(nextId, 0, locs));
      Allocate(previous);
    }

    /** The last block is committed, and an empty one follows. */
    method Allocate(previous: Option<CommitBlock>)
      requires CanCommit(previous)
      modifies this`blocks, this`nextId
      ensures blocks == old(Committed(previous)) + [BlockMeta(old(nextId), 0, true)] && nextId == old(nextId) + 1
      ensures (previous.Some? ==> previous.value.len == blockSize)
              && old(ValidUpTo(|blocks| - 1) && Sealed() && Reportable(previous)) ==>
                Valid() && Sealed() && old(nextId) !in stored
    {
      blocks := Committed(previous) + [BlockMeta(nextId, 0, true)];
      nextId := nextId + 1;
    }

    /** A request that is sent again because its answer was lost finds the block it allocated, and allocates no
        other. Only a request without a previous block, for a file that has two already, is not recognised. */
    method AddTwice(previous: Option<CommitBlock>)
      returns (first: Result<LocatedBlock>, second: Result<LocatedBlock>, after: seq<BlockMeta>)
      requires forall i :: 0 <= i < |blocks| ==> blocks[i].id < nextId
      modifies this
      ensures first.Ok? ==> |old(blocks)| <= |after| <= |old(blocks)| + 1 && after != []
      ensures first.Ok? ==> after[|after| - 1].id == first.value.id
      ensures first.Ok? && second.Err? ==> IsFault(second.error) && !reliable && blocks == after
      ensures first.Ok? && second.Ok? ==>
                if previous.Some? || |old(blocks)| < 2
                then second.value.id == first.value.id && blocks == after
                else second.value.id != first.value.id && |blocks| == |after| + 1 == |old(blocks)| + 2
    {
      first := AddBlock(previous);
      second, after := first, blocks;
      if first.Ok? {
        second := AddBlock(previous);
      }
    }

    /** The file's length: a last block that is not committed does not count. */
    function ComputeLen(n: nat): int
      requires n <= |blocks|
      reads this
    {
      if n == 0 then 0
      else ComputeLen(n - 1) + if n == |blocks| && blocks[n - 1].writing then 0 else blocks[n - 1].len
    }

    function CommitLen(last: Option<CommitBlock>): int
      reads this
    {
      ComputeLen(|blocks|) + if last.Some? then last.value.len else 0
    }

    /** Commit the last block and close the file, if the length adds up. */
    method CompleteFile(length: int, last: Option<CommitBlock>) returns (r: Result<()>)
      modifies this
      ensures r.Err? ==> (r.error.Rejected? || (IsFault(r.error) && !reliable)) && Kept()
      ensures faults == old(faults) + if r.Err? && IsFault(r.error) then 1 else 0
      ensures r.Err? && r.error.Rejected? ==> old(writing && (CommitLen(last) != length || !CanCommit(last)))
      ensures old(writing) && (old(CommitLen(last)) != length || !old(CanCommit(last))) ==> r.Err?
      ensures r.Ok? ==> stored == old(stored) && nextId == old(nextId) && !writing
      ensures r.Ok? && old(writing) ==> old(CanCommit(last)) && blocks == old(Committed(last)) && len == length
      ensures r.Ok? && !old(writing) ==> Kept()
      ensures r.Ok? ==> Contained() == old(Contained())
      ensures r.Ok? && old(writing && ValidUpTo(|blocks| - 1) && Sealed()
                           && (last.None? ==> Valid()) && (last.Some? ==> Reportable(last))) ==>
                Valid() && Sealed()
    {
      var lost := Lost();
      if lost {
        return Err(Io);
      }
      if !writing {
        return Ok(());
      }
      if CommitLen(last) != length {
        return Err(Rejected);
      }
      if !CanCommit(last) {
        return Err(Rejected);
      }
      blocks, writing, len := Committed(last), false, length;
      r := Ok(());
    }

    /** What a reader is given; the master refuses a file with a short block in the middle. */
    method GetBlockLocations() returns (r: Result<seq<Block>>)
      modifies this`faults
      ensures faults == old(faults) + if r.Err? && IsFault(r.error) then 1 else 0
      ensures r.Ok? ==> r.value == old(Contained())
      ensures r.Err? ==>
              || (r.error.NoWorker? && !reliable)
              || (r.error.Rejected? && !(forall i :: 0 <= i < |blocks| - 1 ==> blocks[i].len == blockSize))
      ensures r.Ok? ==> forall i :: 0 <= i < |blocks| - 1 ==> blocks[i].len == blockSize
    {
      for i := 0 to |blocks|
        invariant forall j :: 0 <= j < i && j < |blocks| - 1 ==> blocks[j].len == blockSize
        invariant faults == old(faults)
      {
        if i + 1 < |blocks| && blocks[i].len != blockSize {
          return Err(Rejected);
        }
        var lost := Lost();
        if lost {
          return Err(NoWorker);
        }
      }
      r := Ok(Contained());
    }
  }
}
