/** A file written through the write stack and read back through the read stack. */
module RoundTrips {
  import opened Common
  import opened FileBlocks
  import opened BlockReaders
  import opened FsReaderBases
  import opened FsReaderParallels
  import opened ParallelReads
  import opened Reassembly
  import opened FsReaders
  import opened Clusters
  import opened FsWriterBases
  import opened FsWriters

  datatype ReadConf = ReadConf(chunkSize: nat, chunkNum: nat, parallel: nat, sliceSize: nat, closeReaderLimit: nat,
                               localHost: Option<string>) {

    /** What the readers accept. */
    predicate Valid() {
      && chunkSize >= FILE_MIN_ALIGN_SIZE && chunkSize % FILE_MIN_ALIGN_SIZE == 0
      && sliceSize >= chunkSize && sliceSize % chunkSize == 0 && parallel > 0 && chunkNum > 0
    }

    /** One reader, or blocks of whole chunks. */
    predicate Suits(blockSize: nat)
      requires Valid()
    {
      parallel == 1 || blockSize % chunkSize == 0
    }
  }

  /** A settled file is laid out in blocks of its block size, and in no other way. */
  lemma {:induction false} SettledLayout(c: Cluster)
    requires c.Settled()
    ensures Chopped(c.Contained(), c.blockSize) && UniqueIds(c.Contained())
    ensures var cut := Chop(Contents(c.Contained()), c.blockSize);
            |cut| == |c.blocks| &&
            forall i :: 0 <= i < |cut| ==> c.Bytes(c.blocks[i].id) == cut[i] && c.blocks[i].len == |cut[i]|
  {
    ChoppedIsChop(c.Contained(), c.blockSize);
  }

  /** With one reader, or if the block size is a whole number of chunks, no slice boundary of the file is bad. */
  lemma {:induction false} SettledIsSafe(c: Cluster, conf: ReadConf)
    requires c.Settled() && conf.Valid() && conf.Suits(c.blockSize)
    ensures Safe(Layout(c.Contained(), conf.chunkSize, conf.sliceSize, conf.parallel))
  {
    if conf.parallel > 1 {
      WholeChunksAreSafe(Layout(c.Contained(), conf.chunkSize, conf.sliceSize, conf.parallel));
    }
  }

  /** Open a settled file for reading. */
  method OpenFile(c: Cluster, conf: ReadConf, locs: int -> seq<Worker>) returns (r: Result<FsReader>)
    requires c.Settled() && conf.Valid()
    requires c.reliable ==> forall id :: locs(id) != []
    modifies c`faults
    ensures r.Err? ==> IsTransport(r.error) && !c.reliable && c.faults > old(c.faults)
    ensures r.Ok? ==> c.faults == old(c.faults) && !r.value.inner.AnyFault()
    ensures r.Ok? ==> r.value.Valid() && fresh(r.value.Repr()) && r.value.pos == 0
    ensures r.Ok? ==> r.value.File() == old(Contents(c.Contained()))
    ensures r.Ok? && conf.Suits(c.blockSize) ==> Safe(r.value.Plan())
    ensures r.Ok? ==> r.value.inner.readers.reliable == c.reliable
  {
    SettledLayout(c);
    if conf.Suits(c.blockSize) {
      SettledIsSafe(c, conf);
    }
    hide Safe;
    var blocks := c.GetBlockLocations();
    if blocks.Err? {
      return Err(blocks.error);
    }
    var search := SearchFileBlocks.New(blocks.value);
    r := FsReader.Open(search, locs, conf.localHost, c.reliable, conf.closeReaderLimit, conf.chunkNum, conf.chunkSize,
                       conf.parallel, conf.sliceSize);
  }

  /** The whole file, through the readers. */
  method ReadAll(c: Cluster, conf: ReadConf, locs: int -> seq<Worker>) returns (r: Result<seq<byte>>)
    requires c.Settled() && conf.Valid()
    requires c.reliable ==> forall id :: locs(id) != []
    modifies c`faults
    ensures r.Err? && conf.Suits(c.blockSize) ==> IsTransport(r.error) && !c.reliable
    ensures r.Ok? ==> r.value == old(Contents(c.Contained()))
  {
    var reader := OpenFile(c, conf, locs);
    if reader.Err? {
      return Err(reader.error);
    }
    hide Safe, FsReader.Valid;
    r := reader.value.ReadNewFull(c.len);
  }

  /** A session cannot add `data` to a file that has bytes: there is nothing to add, or the file ends with a full
      block. */
  predicate Refused(before: seq<byte>, blockSize: nat, data: seq<byte>)
    requires blockSize > 0
  {
    before != [] && (data == [] || |before| % blockSize == 0)
  }

  lemma {:induction false} RefusedByLast(c: Cluster, data: seq<byte>)
    requires c.Settled()
    ensures Contents(c.Contained()) == [] <==> c.blocks == []
    ensures Refused(Contents(c.Contained()), c.blockSize, data) <==>
            c.blocks != [] && (data == [] || c.blocks[|c.blocks| - 1].len == c.blockSize)
  {
    SettledLayout(c);
    if c.blocks != [] {
      LastIsFull(c.Contained(), c.blockSize);
    }
  }

  /** Reopen a file, write to it in any way and complete it: its bytes are those it had and those written, and it
      is again laid out as the next session expects. What ends a session early is a fault, or that it is refused;
      and a session that is refused never succeeds. */
  method AppendSession(c: Cluster, writeChunk: nat, writeChunks: nat, biased: bool, calls: seq<WriteCall>)
    returns (r: Result<()>, ghost cause: FsError)
    requires c.Settled() && c.blockSize < I64_LIMIT && c.len + |AllData(calls)| < I64_LIMIT
    requires writeChunk > 0 && writeChunks > 0
    modifies c
    ensures r.Ok? ==> Contents(c.Contained()) == old(Contents(c.Contained())) + AllData(calls) && c.Settled()
    ensures old(Refused(Contents(c.Contained()), c.blockSize, AllData(calls))) ==> r.Err?
    ensures r.Err? ==> r.error == cause || r.error.Closed?
    ensures r.Ok? ==> c.faults == old(c.faults)
    ensures r.Err? ==> || (IsFault(cause) && !c.reliable && c.faults > old(c.faults))
                       || (cause.Rejected? && old(Refused(Contents(c.Contained()), c.blockSize, AllData(calls))))
  {
    RefusedByLast(c, AllData(calls));
    var last := c.Append();
    if last.Err? {
      assert false;
      return Err(Rejected), Rejected;
    }
    var w := FsWriter.Open(c, last.value, c.blockSize, writeChunk, writeChunks, biased);
    r, cause := WriteSession(w, calls);
  }

  /** Write a new file and complete it. Only a fault gets in the way. */
  method CreateSession(blockSize: nat, reliable: bool, writeChunk: nat, writeChunks: nat, biased: bool,
                       calls: seq<WriteCall>)
    returns (r: Result<()>, c: Cluster, ghost cause: FsError)
    requires 0 < blockSize < I64_LIMIT && |AllData(calls)| < I64_LIMIT && writeChunk > 0 && writeChunks > 0
    ensures fresh(c) && c.blockSize == blockSize && c.reliable == reliable
    ensures r.Ok? ==> Contents(c.Contained()) == AllData(calls) && c.Settled()
    ensures r.Ok? ==> c.faults == 0
    ensures r.Err? ==> (r.error == cause || r.error.Closed?) && IsFault(cause) && !reliable && c.faults > 0
  {
    c := new Cluster(blockSize, reliable);
    var w := FsWriter.Open(c, None, blockSize, writeChunk, writeChunks, biased);
    r, cause := WriteSession(w, calls);
  }

  /** Everything a file's sessions wrote, in order. */
  function Everything(sessions: seq<seq<WriteCall>>): seq<byte> {
    if sessions == [] then [] else Everything(sessions[..|sessions| - 1]) + AllData(sessions[|sessions| - 1])
  }

  lemma {:induction false} EverythingGrows(sessions: seq<seq<WriteCall>>, n: nat)
    requires n < |sessions|
    ensures Everything(sessions[..n + 1]) == Everything(sessions[..n]) + AllData(sessions[n])
    ensures |Everything(sessions[..n + 1])| <= |Everything(sessions)|
    decreases |sessions| - n
  {
    assert sessions[..n + 1][..n] == sessions[..n];
    if n + 1 < |sessions| {
      EverythingGrows(sessions, n + 1);
    } else {
      assert sessions[..n + 1] == sessions;
    }
  }

  /** Session `i` finds a file it cannot add to. */
  predicate RefusedAt(sessions: seq<seq<WriteCall>>, blockSize: nat, i: nat)
    requires blockSize > 0 && i < |sessions|
  {
    Refused(Everything(sessions[..i]), blockSize, AllData(sessions[i]))
  }

  lemma {:induction false} SettledLen(c: Cluster)
    requires c.Settled()
    ensures c.len == |Contents(c.Contained())|
  {
  }

  /** Session `i` appends to what those before it wrote. */
  method AppendNext(c: Cluster, writeChunk: nat, writeChunks: nat, biased: bool, sessions: seq<seq<WriteCall>>, i: nat)
    returns (r: Result<()>, ghost cause: FsError)
    requires c.Settled() && c.blockSize < I64_LIMIT && |Everything(sessions)| < I64_LIMIT && i < |sessions|
    requires Contents(c.Contained()) == Everything(sessions[..i]) && writeChunk > 0 && writeChunks > 0
    modifies c
    ensures r.Ok? ==> c.Settled() && Contents(c.Contained()) == Everything(sessions[..i + 1])
    ensures RefusedAt(sessions, c.blockSize, i) ==> r.Err?
    ensures r.Err? ==> r.error == cause || r.error.Closed?
    ensures r.Ok? ==> c.faults == old(c.faults)
    ensures r.Err? ==> || (IsFault(cause) && !c.reliable && c.faults > old(c.faults))
                       || (cause.Rejected? && RefusedAt(sessions, c.blockSize, i))
  {
    EverythingGrows(sessions, i);
    SettledLen(c);
    hide Everything, AllData, Refused, Contents, Cluster.Settled, Cluster.Contained;
    r, cause := AppendSession(c, writeChunk, writeChunks, biased, sessions[i]);
  }

  /** All sessions but the first append to the file. */
  method AppendSessions(c: Cluster, writeChunk: nat, writeChunks: nat, biased: bool, sessions: seq<seq<WriteCall>>)
    returns (r: Result<()>, ghost cause: FsError, at: nat)
    requires c.Settled() && c.blockSize < I64_LIMIT && |Everything(sessions)| < I64_LIMIT && sessions != []
    requires Contents(c.Contained()) == Everything(sessions[..1]) && writeChunk > 0 && writeChunks > 0
    modifies c
    ensures r.Ok? ==> c.Settled() && Contents(c.Contained()) == Everything(sessions)
    ensures r.Ok? ==> forall i :: 1 <= i < |sessions| ==> !RefusedAt(sessions, c.blockSize, i)
    ensures r.Err? ==> r.error == cause || r.error.Closed?
    ensures r.Ok? ==> c.faults == old(c.faults)
    ensures r.Err? ==> || (IsFault(cause) && !c.reliable && c.faults > old(c.faults))
                       || (cause.Rejected? && 1 <= at < |sessions| && RefusedAt(sessions, c.blockSize, at))
  {
    hide Everything, RefusedAt, Contents, Cluster.Contained;
    cause, at, r := Io, 1, Ok(());
    while at < |sessions|
      invariant 1 <= at <= |sessions| && c.faults == old(c.faults) && c.Settled()
      invariant Contents(c.Contained()) == Everything(sessions[..at])
      invariant r.Ok? && forall j :: 1 <= j < at ==> !RefusedAt(sessions, c.blockSize, j)
    {
      r, cause := AppendNext(c, writeChunk, writeChunks, biased, sessions, at);
      if r.Err? {
        return;
      }
      at := at + 1;
    }
    assert sessions[..|sessions|] == sessions;
  }

  lemma {:induction false} FirstSession(sessions: seq<seq<WriteCall>>)
    requires sessions != []
    ensures Everything(sessions[..1]) == AllData(sessions[0]) && |AllData(sessions[0])| <= |Everything(sessions)|
  {
    EverythingGrows(sessions, 0);
  }

  /** The life of a file: it is created and appended to, in any way, and then it is read. What is read is everything
      the sessions wrote. It cannot be done if some session is refused; in a reliable world, and with a reader that
      suits the block size, that is the only obstacle. */
  method WriteAndReadBack(blockSize: nat, reliable: bool, writeChunk: nat, writeChunks: nat, biased: bool,
                          sessions: seq<seq<WriteCall>>, conf: ReadConf, locs: int -> seq<Worker>)
    returns (r: Result<seq<byte>>, ghost cause: FsError)
    requires 0 < blockSize < I64_LIMIT && |Everything(sessions)| < I64_LIMIT && sessions != []
    requires writeChunk > 0 && writeChunks > 0 && conf.Valid()
    requires reliable ==> forall id :: locs(id) != []
    ensures r.Ok? ==> r.value == Everything(sessions)
    ensures (exists i :: 1 <= i < |sessions| && RefusedAt(sessions, blockSize, i)) ==> r.Err?
    ensures reliable && conf.Suits(blockSize) ==>
              (r.Ok? <==> forall i :: 1 <= i < |sessions| ==> !RefusedAt(sessions, blockSize, i))
    ensures r.Err? ==> r.error == cause || r.error.Closed?
    ensures r.Err? ==> || (IsTransport(cause) && !reliable) || !conf.Suits(blockSize)
                       || (cause.Rejected? && exists i :: 1 <= i < |sessions| && RefusedAt(sessions, blockSize, i))
  {
    hide RefusedAt, Everything;
    FirstSession(sessions);
    var done, c;
    done, c, cause := CreateSession(blockSize, reliable, writeChunk, writeChunks, biased, sessions[0]);
    if done.Err? {
      return Err(done.error), cause;
    }
    var at;
    done, cause, at := AppendSessions(c, writeChunk, writeChunks, biased, sessions);
    if done.Err? {
      return Err(done.error), cause;
    }
    r := ReadAll(c, conf, locs);
    cause := if r.Err? then r.error else cause;
  }

  /** What a refusal looks like, in a world without faults. A file of one byte is reopened and completed without a
      write. */
  method NothingToAdd(b: byte, writeChunk: nat, biased: bool) returns (created: Result<()>, r: Result<()>)
    requires writeChunk > 0
    ensures created.Ok? && r.Err?
  {
    var c;
    ghost var cause;
    var calls := [Direct([b])];
    assert AllData(calls) == AllData(calls[..0]) + [b];
    created, c, cause := CreateSession(4, true, writeChunk, 1, biased, calls);
    assert |Contents(c.Contained())| == 1;
    SettledLen(c);
    assert AllData([]) == [];
    r, cause := AppendSession(c, writeChunk, 1, biased, []);
  }

  /** A file that fills its only block is reopened, and one more byte is written. */
  method FullBlock(data: seq<byte>, b: byte, writeChunk: nat, biased: bool)
    returns (created: Result<()>, r: Result<()>)
    requires writeChunk > 0 && |data| == 4
    ensures created.Ok? && r.Err?
  {
    var c;
    ghost var cause;
    var calls, more := [Direct(data)], [Direct([b])];
    assert AllData(calls) == AllData(calls[..0]) + data && AllData(more) == AllData(more[..0]) + [b];
    created, c, cause := CreateSession(4, true, writeChunk, 1, biased, calls);
    SettledLen(c);
    r, cause := AppendSession(c, writeChunk, 1, biased, more);
  }

  /** Five bytes are written to a new file with blocks of eight bytes, by a client that believes in four. */
  method MixedSizes(data: seq<byte>, writeChunk: nat, biased: bool) returns (r: Result<()>)
    requires writeChunk > 0 && |data| == 5
    ensures r.Err?
  {
    var calls := [Direct(data)];
    assert AllData(calls) == AllData(calls[..0]) + data;
    var c := new Cluster(8, true);
    var w := FsWriter.Open(c, None, 4, writeChunk, 1, biased);
    ghost var cause;
    r, cause := WriteSession(w, calls);
  }
}
