/** Reading a file block by block: cursor mapping and the cache of block readers. */
module FsReaderBases {
  import opened Common
  import opened FileBlocks
  import opened BlockReaders

  const U32_MAX: nat := 0xffff_ffff

  /** How many bytes one read at file position `pos` returns. */
  function ChunkLen(bs: seq<Block>, chunkSize: nat, pos: nat): (n: nat)
    requires pos < Start(bs, |bs|)
    ensures chunkSize > 0 ==> 0 < n
    ensures n <= chunkSize && pos + n <= BlockEnd(bs, pos)
    ensures pos + n <= Start(bs, |bs|)
  {
    Min(chunkSize, BlockEnd(bs, pos) - pos)
  }

  /** Block ids are unique within a file, so they can key the cache. */
  predicate UniqueIds(bs: seq<Block>) {
    forall i, j :: 0 <= i < j < |bs| ==> bs[i].id != bs[j].id
  }

  /** Every block has a worker that can be asked for it. */
  ghost predicate Served(bs: seq<Block>, locs: int -> seq<Worker>) {
    forall b :: b in bs ==> locs(b.id) != []
  }

  /** One read inside block `i` is one read of the file. */
  lemma OneChunk(bs: seq<Block>, chunkSize: nat, i: nat, off: nat)
    requires i < |bs| && off < |bs[i].data|
    ensures Start(bs, i) + off < Start(bs, |bs|)
    ensures ReadLen(bs[i].data, chunkSize, off) == ChunkLen(bs, chunkSize, Start(bs, i) + off)
  {
    var pos := Start(bs, i) + off;
    StartMonotone(bs, i + 1, |bs|);
    HoldsUnique(bs, i, BlockAt(bs, pos), pos);
  }

  /** Some key of a non-empty map; draining a map visits its keys in no particular order. */
  method AnyKey<T>(ids: set<T>) returns (id: T)
    requires ids != {}
    ensures id in ids
  {
    id :| id in ids;
  }

  /** Whether something fails, which in a reliable world it does not. */
  method AnyFailure(reliable: bool) returns (fails: bool)
    ensures reliable ==> !fails
  {
    fails := *;
    fails := fails && !reliable;
  }

  /** What the world does to a read. */
  method AnyFate(reliable: bool) returns (fate: Fate)
    ensures reliable ==> fate == CALM
  {
    fate := *;
    fate := if reliable then CALM else fate;
  }

  class FsReaderBase {
    const search: SearchFileBlocks
    const locs: int -> seq<Worker>     // the replicas of a block, by block id
    const localHost: Option<string>
    const reliable: bool               // nothing outside the client fails
    const chunkSize: nat
    const len: nat
    const closeReaderLimit: nat
    var pos: nat
    var curReader: BlockReader?
    var closeReaderTimes: nat
    var allReader: map<int, BlockReader>

    ghost var curIdx: nat              // the block `curReader` reads
    ghost var everOpened: set<BlockReader> // every reader ever opened by this object
    ghost var dropped: set<BlockReader>    // those of them that were let go because completing them failed
    ghost var faults: nat              // how many calls of block readers have failed
    ghost var Repr: set<object>

    ghost function File(): seq<byte> {
      Contents(search.blocks)
    }

    /** A reader this object still owes a completion. */
    ghost predicate Owned(r: BlockReader)
      reads this, r
    {
      r == curReader || (r.block.id in allReader && allReader[r.block.id] == r)
    }

    ghost predicate ValidReader(r: BlockReader)
      reads this, r
    {
      r in everOpened && r.Valid() && r.chunkSize == chunkSize
    }

    /** The current reader stands where the file position points. */
    ghost predicate ValidCur()
      reads this, Repr
    {
      curReader != null ==>
        && curReader in Repr
        && ValidReader(curReader)
        && curReader.block.id !in allReader
        && curIdx < |search.blocks| && curReader.block == search.blocks[curIdx]
        && Start(search.blocks, curIdx) + curReader.session.pos == pos
    }

    /** The cache is keyed by block id and never holds the current block. */
    ghost predicate ValidCache()
      reads this, Repr
    {
      forall id :: id in allReader ==>
        && allReader[id] in Repr
        && ValidReader(allReader[id])
        && allReader[id].block.id == id
        && allReader[id].block in search.blocks
    }

    /** The invariant while a reader `next` is held outside the cache, about to become current. */
    ghost predicate ValidWith(next: BlockReader?)
      reads this, Repr
    {
      && this in Repr && everOpened <= Repr
      && search.Valid() && UniqueIds(search.blocks)
      && chunkSize > 0 && len == Start(search.blocks, |search.blocks|) && pos <= len
      && (reliable ==> Served(search.blocks, locs))
      && ValidCur() && ValidCache()
      && (reliable ==> dropped == {} && faults == 0)
      && forall r :: r in everOpened ==> r.completed || Owned(r) || r == next || r in dropped
    }

    ghost predicate Valid()
      reads this, Repr
    {
      ValidWith(null)
    }

    /** All is well when the position moved together with the current reader and nothing else did. */
    twostate lemma CurMoved()
      requires old(Valid()) && curReader != null
      requires unchanged(this`curReader, this`allReader, this`curIdx, this`everOpened, this`dropped, this`Repr)
      requires faults == old(faults) || !reliable
      requires unchanged(Repr - {this, curReader}) && curReader.completed == old(curReader.completed)
      requires curReader.Valid() && pos <= len && Start(search.blocks, curIdx) + curReader.session.pos == pos
      ensures Valid()
    {
      hide BlockReader.Valid, SearchFileBlocks.Valid, UniqueIds, Served, Start;
    }

    constructor (search: SearchFileBlocks, locs: int -> seq<Worker>, localHost: Option<string>, reliable: bool,
                 chunkSize: nat, len: nat, closeReaderLimit: nat)
      requires search.Valid() && UniqueIds(search.blocks) && chunkSize > 0 && (reliable ==> Served(search.blocks, locs))
      requires len == Start(search.blocks, |search.blocks|)
      ensures Valid() && fresh(Repr) && pos == 0 && this.reliable == reliable && faults == 0
      ensures this.search == search && this.chunkSize == chunkSize && this.len == len
      ensures this.closeReaderLimit == closeReaderLimit && closeReaderTimes == 0 && curReader == null
    {
      this.search, this.locs, this.localHost, this.reliable := search, locs, localHost, reliable;
      this.chunkSize, this.len, this.closeReaderLimit := chunkSize, len, closeReaderLimit;
      pos, curReader, closeReaderTimes, allReader := 0, null, 0, map[];
      curIdx, everOpened, dropped, faults, Repr := 0, {}, {}, 0, {this};
    }

    /** Replace the current reader. The old one is kept for reuse once seeks have left the block more
        than `closeReaderLimit` times, and is completed otherwise. */
    method UpdateReader(cur: BlockReader?) returns (r: Result<()>)
      requires curReader != null ==> !curReader.completed
      modifies this`curReader, this`allReader, this`dropped, this`faults, curReader
      ensures curReader == cur && (r.Ok? ==> dropped == old(dropped))
      ensures r.Err? ==> IsFault(r.error) && !reliable
      ensures r.Err? ==>
              old(curReader) != null && dropped == old(dropped) + {old(curReader)} && allReader == old(allReader)
              && closeReaderTimes <= closeReaderLimit
      ensures r.Ok? && old(curReader) == null ==> allReader == old(allReader)
      ensures r.Ok? && old(curReader) != null ==>
                if closeReaderTimes > closeReaderLimit
                then allReader == old(allReader)[old(curReader).block.id := old(curReader)] && unchanged(old(curReader))
                else allReader == old(allReader) && old(curReader).completed
      ensures faults == old(faults) + if r.Err? then 1 else 0
    {
      var previous := curReader;
      curReader := cur;
      r := Ok(());
      if previous != null {
        if closeReaderTimes > closeReaderLimit {
          allReader := allReader[previous.block.id := previous];
        } else {
          var fails := AnyFailure(reliable);
          r := previous.Complete(fails);
          if r.Err? {
            dropped, faults := dropped + {previous}, faults + 1;
          }
        }
      }
    }

    /** The current reader, or the end of its block, is at `to`. */
    ghost predicate Reaches(to: int)
      reads this, curReader
    {
      curReader != null && -curReader.session.pos <= to - pos <= curReader.Remaining()
    }

    /** The current reader has been let go. It is kept for reuse once that has happened often enough. */
    twostate predicate Left()
      requires old(curReader) != null
      reads this
    {
      && curReader == null && closeReaderTimes == Min(old(closeReaderTimes) + 1, 0xffff_ffff)
      && allReader == if closeReaderTimes > closeReaderLimit
                      then old(allReader)[old(curReader).block.id := old(curReader)] else old(allReader)
    }

    /** Go to `to` with the current reader, which has it. */
    method Skip(to: nat) returns (r: Result<()>)
      requires Valid() && to <= len && Reaches(to)
      modifies this`pos, this`faults, curReader
      ensures Valid() && curReader.completed == old(curReader.completed)
      ensures if r.Ok? then pos == to else pos == old(pos) && IsFault(r.error) && !reliable
      ensures faults == old(faults) + if r.Err? then 1 else 0
    {
      hide Start, SearchFileBlocks.Valid, UniqueIds, Served;
      var fails := AnyFailure(reliable);
      r := curReader.Seek(curReader.session.pos + (to - pos), fails);
      if r.Ok? {
        pos := to;
      } else {
        faults := faults + 1;
      }
      CurMoved();
    }

    /** Leave the current block. */
    method LeaveBlock() returns (r: Result<()>)
      requires Valid()
      modifies Repr
      ensures Valid() && Repr == old(Repr) && everOpened == old(everOpened) && pos == old(pos) && curReader == null
      ensures r.Err? ==> IsFault(r.error) && !reliable
      ensures faults == old(faults) + if r.Err? then 1 else 0
      ensures old(curReader) != null ==> Left()
    {
      assert curReader != null ==> !curReader.completed;
      hide Start, SearchFileBlocks.Valid, UniqueIds, Served, BlockReader.Valid;
      closeReaderTimes := Min(closeReaderTimes + 1, U32_MAX);
      r := UpdateReader(null);
    }

    /** Move to `to`: within the current block if it reaches that far, else by leaving the block. After an error
        the reader stands where it stood, and can go on. */
    method Seek(to: nat) returns (r: Result<()>)
      requires Valid()
      modifies Repr
      ensures Repr == old(Repr) && everOpened == old(everOpened)
      ensures to > len ==> r == Err(SeekBeyondEnd)
      ensures Valid() && (r.Ok? ==> pos == to)
      ensures r.Err? ==> pos == old(pos) && (to <= len ==> IsFault(r.error) && !reliable)
      ensures faults == old(faults) + if r.Err? && to <= len then 1 else 0
      ensures to == old(pos) <= len ==> r.Ok? && unchanged(Repr)
      ensures old(curReader) == null || old(Reaches(to)) || to > len ==>
                unchanged(this`curReader, this`allReader, this`closeReaderTimes)
      ensures old(curReader) != null && !old(Reaches(to)) && to <= len ==> Left()
    {
      if to == pos {
        return Ok(());
      } else if to > len {
        return Err(SeekBeyondEnd);
      }
      if curReader != null {
        var toSkip := to - pos;
        if toSkip <= curReader.Remaining() && toSkip >= -curReader.session.pos {
          r := Skip(to);
          return;
        }
        r := LeaveBlock();
        if r.Err? {
          return;
        }
      }
      pos := to;
      r := Ok(());
    }

    /** A new reader, if a replica can be opened. */
    method OpenReader(block: Block, off: nat) returns (r: Result<BlockReader>)
      requires chunkSize > 0 && off <= |block.data| && (reliable ==> locs(block.id) != [])
      ensures r.Err? ==> IsFault(r.error) && !reliable
      ensures r.Ok? ==> fresh(r.value) && r.value.Valid() && r.value.chunkSize == chunkSize
      ensures r.Ok? ==> r.value.block == block && r.value.session.pos == off
    {
      assert reliable ==> locs(block.id)[0] in locs(block.id);
      var fate := AnyFate(reliable);
      r := BlockReader.Open(block, locs(block.id), chunkSize, localHost, fate.excluded, fate.opens, off);
    }

    /** A reader for a block that is not current: a cached one, or a new one. */
    method FindReader(block: Block, off: nat) returns (r: Result<BlockReader>)
      requires Valid() && block in search.blocks && off <= |block.data|
      requires curReader != null ==> curReader.block.id != block.id
      modifies this`allReader, this`everOpened, this`Repr, this`faults
      ensures fresh(Repr - old(Repr)) && everOpened <= Repr
      ensures r.Err? ==> IsFault(r.error) && !reliable
      ensures r.Ok? ==>
                && ValidWith(r.value) && r.value in Repr && ValidReader(r.value) && r.value.block == block
                && r.value.block.id !in allReader && r.value != curReader
      ensures block.id in old(allReader) ==> r == Ok(old(allReader)[block.id]) && everOpened == old(everOpened)
      ensures faults == old(faults) + if r.Err? then 1 else 0
    {
      hide SearchFileBlocks.Valid, Start;
      if block.id in allReader {
        var next := allReader[block.id];
        allReader := allReader - {block.id};
        SameBlock(next.block, block);
        return Ok(next);
      }
      r := OpenReader(block, off);
      if r.Ok? {
        everOpened, Repr := everOpened + {r.value}, Repr + {r.value};
      } else {
        faults := faults + 1;
      }
    }

    /** A reader for a block that is not current, moved to offset `off`. */
    method TakeReader(block: Block, off: nat) returns (r: Result<BlockReader>)
      requires Valid() && block in search.blocks && off <= |block.data|
      requires curReader != null ==> curReader.block.id != block.id
      modifies Repr
      ensures fresh(Repr - old(Repr)) && everOpened <= Repr
      ensures r.Err? ==> IsFault(r.error) && !reliable
      ensures unchanged(this`pos, this`curReader, this`curIdx, this`closeReaderTimes)
      ensures r.Ok? ==>
                && ValidWith(r.value) && r.value in Repr && ValidReader(r.value)
                && r.value.block == block && r.value.session.pos == off
                && r.value.block.id !in allReader && r.value != curReader
      ensures faults == old(faults) + if r.Err? then 1 else 0
    {
      hide SearchFileBlocks.Valid, Start, UniqueIds, Served;
      r := FindReader(block, off);
      if r.Err? {
        return;
      }
      var fails := AnyFailure(reliable);
      var sought := r.value.Seek(off, fails);
      if sought.Err? {
        faults := faults + 1;
        return Err(sought.error);
      }
    }

    lemma SameBlock(a: Block, b: Block)
      requires UniqueIds(search.blocks) && a in search.blocks && b in search.blocks && a.id == b.id
      ensures a == b
    {
    }

    /** Make sure the current reader has bytes left at the file position. */
    method GetReader() returns (r: Result<()>)
      requires Valid() && pos < len
      modifies Repr
      ensures fresh(Repr - old(Repr)) && everOpened <= Repr && pos == old(pos)
      ensures r.Err? ==> IsFault(r.error) && !reliable
      ensures r.Ok? ==> Valid() && curReader != null && curReader.Remaining() > 0
      ensures faults == old(faults) + if r.Err? then 1 else 0
    {
      if curReader != null && curReader.Remaining() > 0 {
        return Ok(());
      }
      var found := search.GetReadBlock(pos);
      if found.None? {
        assert false;
        return Err(NoBlock);
      }
      ghost var i := BlockAt(search.blocks, pos);
      HoldsBlock(i, found.value);
      CurIsAnotherBlock(i);
      var taken := TakeReader(found.value.block, found.value.off);
      if taken.Err? {
        return Err(taken.error);
      }
      r := MakeCurrent(taken.value, i);
    }

    /** The reader in hand takes over at block `i`, which holds the file position. */
    method MakeCurrent(next: BlockReader, ghost i: nat) returns (r: Result<()>)
      requires ValidWith(next) && Holds(search.blocks, i, pos)
      requires next in Repr && ValidReader(next) && next.block == search.blocks[i]
      requires Start(search.blocks, i) + next.session.pos == pos
      requires next.block.id !in allReader && next != curReader
      requires curReader != null ==> curReader.block.id != next.block.id
      modifies Repr
      ensures Repr == old(Repr) && everOpened == old(everOpened) && pos == old(pos)
      ensures r.Err? ==> IsFault(r.error) && !reliable
      ensures r.Ok? ==> Valid() && curReader == next && curReader.Remaining() > 0
      ensures faults == old(faults) + if r.Err? then 1 else 0
    {
      r := UpdateReader(next);
      curIdx := i;
    }

    /** An exhausted current reader belongs to another block than the one at the file position. */
    lemma CurIsAnotherBlock(i: nat)
      requires Valid() && Holds(search.blocks, i, pos)
      requires curReader != null ==> curReader.Remaining() <= 0
      ensures curReader != null ==> curReader.block.id != search.blocks[i].id
    {
    }

    lemma HoldsBlock(i: nat, found: Located)
      requires Holds(search.blocks, i, pos) && IsLookup(search.blocks, pos, Some(found))
      ensures found == Located(pos - Start(search.blocks, i), search.blocks[i])
    {
      var j: nat :| Holds(search.blocks, j, pos) && found == Located(pos - Start(search.blocks, j), search.blocks[j]);
      HoldsUnique(search.blocks, i, j, pos);
    }

    /** What the current reader reads next is what the file has next. */
    lemma CurChunk()
      requires Valid() && pos < len && curReader != null && curReader.Remaining() > 0
      ensures ValidCur() && curReader.Valid() && len == Start(search.blocks, |search.blocks|)
      ensures var off := curReader.session.pos;
              var n := ReadLen(curReader.block.data, chunkSize, off);
              && n == ChunkLen(search.blocks, chunkSize, pos) && pos + n <= len && pos + n <= |File()|
              && File()[pos..pos + n] == curReader.block.data[off..off + n]
    {
      var off := curReader.session.pos;
      OneChunk(search.blocks, chunkSize, curIdx, off);
      BytesOfBlock(search.blocks, curIdx, off, ReadLen(curReader.block.data, chunkSize, off));
      hide ValidCache, Start, Contents, ChunkLen;
    }

    /** The next bytes of the file, up to one chunk and never past the end of a block. They depend on
        the position alone: not on the cached readers, their limit, or the seeks before. */
    method Read() returns (r: Result<seq<byte>>)
      requires Valid()
      modifies Repr
      ensures fresh(Repr - old(Repr)) && everOpened <= Repr
      ensures r.Ok? && old(pos) >= len ==> r.value == [] && pos == old(pos) && Valid()
      ensures r.Ok? && old(pos) < len ==> pos == old(pos) + ChunkLen(search.blocks, chunkSize, old(pos))
      ensures r.Ok? && old(pos) < len ==> Valid() && pos <= |File()| && r.value == File()[old(pos)..pos]
      ensures r.Err? ==> pos == old(pos) && IsFault(r.error) && !reliable
      ensures faults == old(faults) + if r.Err? then 1 else 0
    {
      if pos >= len {
        return Ok([]);
      }
      var got := GetReader();
      if got.Err? {
        return Err(got.error);
      }
      r := ReadCurrent();
    }

    method ReadCurrent() returns (r: Result<seq<byte>>)
      requires Valid() && pos < len && curReader != null && curReader.Remaining() > 0
      modifies this`pos, this`faults, curReader
      ensures r.Ok? ==> Valid() && pos == old(pos) + ChunkLen(search.blocks, chunkSize, old(pos))
      ensures r.Ok? ==> pos <= |File()| && r.value == File()[old(pos)..pos]
      ensures r.Err? ==> pos == old(pos) && IsFault(r.error) && !reliable
      ensures faults == old(faults) + if r.Err? then 1 else 0
    {
      CurChunk();
      hide Start, File, ChunkLen, ReadLen, ValidWith, ValidCache;
      var fate := AnyFate(reliable);
      r := curReader.Read(fate);
      if r.Ok? {
        pos := pos + |r.value|;
        CurMoved();
      } else {
        faults := faults + 1;
      }
    }

    /** Nothing is left to complete but what the cache holds. */
    ghost predicate Draining()
      reads this, Repr
    {
      && this in Repr && everOpened <= Repr && curReader == null && ValidCache()
      && forall b :: b in everOpened ==> b.completed || Owned(b) || b in dropped
    }

    /** Every reader this object ever opened has been completed, each one once, but for those whose completion
        had failed before. */
    method Complete() returns (r: Result<()>)
      requires Valid()
      modifies Repr
      ensures unchanged(this`Repr, this`everOpened, this`dropped)
      ensures r.Ok? ==> forall b :: b in everOpened ==> b.completed || b in dropped
      ensures r.Err? ==> IsFault(r.error) && !reliable
      ensures faults == old(faults) + if r.Err? then 1 else 0
    {
      if curReader != null {
        var fails := AnyFailure(reliable);
        r := curReader.Complete(fails);
        if r.Err? {
          faults := faults + 1;
          return;
        }
        curReader := null;
      }
      r := DrainCache();
    }

    method DrainCache() returns (r: Result<()>)
      requires Draining()
      modifies Repr
      ensures unchanged(this`Repr, this`everOpened, this`dropped)
      ensures r.Ok? ==> forall b :: b in everOpened ==> b.completed || b in dropped
      ensures r.Err? ==> IsFault(r.error) && !reliable
      ensures faults == old(faults) + if r.Err? then 1 else 0
    {
      while allReader.Keys != {}
        invariant unchanged(this`Repr, this`everOpened, this`dropped, this`faults) && Draining()
        decreases |allReader|
      {
        r := CompleteCached();
        if r.Err? {
          return;
        }
      }
      r := Ok(());
    }

    /** Take one reader out of the cache and complete it. */
    method CompleteCached() returns (r: Result<()>)
      requires Draining() && allReader.Keys != {}
      modifies Repr
      ensures unchanged(this`Repr, this`everOpened, this`dropped)
      ensures r.Ok? ==> Draining() && |allReader| < |old(allReader)|
      ensures r.Err? ==> IsFault(r.error) && !reliable
      ensures faults == old(faults) + if r.Err? then 1 else 0
    {
      hide BlockReader.Valid;
      var id := AnyKey(allReader.Keys);
      var reader := allReader[id];
      BlockNotCompleted(reader);
      allReader := allReader - {id};
      var fails := AnyFailure(reliable);
      r := reader.Complete(fails);
      if r.Err? {
        faults := faults + 1;
      }
    }
  }

  lemma {:induction false} BlockNotCompleted(reader: BlockReader)
    requires reader.Valid()
    ensures !reader.completed
  {
  }
}
