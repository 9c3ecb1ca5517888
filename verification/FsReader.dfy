/** The reader an application holds: the loops every reader shares (`Reader`) over a chunk kept from the
    buffered reader below, and `FsReader`'s seek, which skips inside that chunk when it can. */
module FsReaders {
  import opened Common
  import opened FileBlocks
  import opened BlockReaders
  import opened FsReaderBases
  import opened ParallelReads
  import opened Reassembly
  import opened FsReaderParallels
  import opened FsReaderBuffers

  /** Reading on from where a window ends. */
  lemma {:induction false} WindowExtends(file: seq<byte>, at: nat, k: nat, n: nat)
    requires k <= n && at + k <= Max(|file|, at)
    ensures Window(file, at, n) == Window(file, at, k) + Window(file, at + k, n - k)
  {
  }

  /** There is nothing to read past the end. */
  lemma {:induction false} WindowEnds(file: seq<byte>, at: nat, k: nat, n: nat)
    requires k <= n && at + k >= |file|
    ensures Window(file, at, n) == Window(file, at, k)
  {
  }

  lemma {:induction false} WindowFits(file: seq<byte>, at: nat, n: nat)
    requires at + n <= Max(|file|, at)
    ensures |Window(file, at, n)| == n
  {
  }

  /** The front of what lies between two positions. */
  lemma {:induction false} WindowOfHeld(file: seq<byte>, at: nat, end: nat, k: nat)
    requires at + k <= end <= |file|
    ensures file[at..end][..k] == Window(file, at, k) && file[at..end][k..] == file[at + k..end]
  {
  }

  /** A buffer filled up to `off` after the next bytes are copied behind. */
  lemma {:induction false} FilledFurther(buf: seq<byte>, before: seq<byte>, now: seq<byte>, file: seq<byte>, at: nat,
                                         off: nat, k: nat)
    requires off + k <= |buf| == |before| && |Window(file, at, off)| == off && |Window(file, at + off, k)| == k
    requires at + off <= Max(|file|, at)
    requires buf == Window(file, at, off) + before[off..]
    requires now == buf[..off] + Window(file, at + off, k) + buf[off + k..]
    ensures now == Window(file, at, off + k) + before[off + k..]
  {
    WindowExtends(file, at, off, off + k);
  }

  /** What a caller can ask of a reader, and what comes back. */
  datatype Call = SeekTo(to: int) | ReadSome(size: nat) | ReadFully(size: nat) | ReadAt(at: int, size: nat)

  datatype Answer = Done | Bytes(data: seq<byte>)

  /** The flat cursor over a byte sequence: the whole specification of the read stack. A plain read may
      return fewer bytes than asked for, but none only at the end; the other two return all there is. */
  ghost predicate FlatStep(file: seq<byte>, cursor: nat, call: Call, answer: Answer, next: nat) {
    match call
    case SeekTo(to) => answer.Done? && next == to
    case ReadSome(size) =>
      && answer.Bytes? && next == cursor + |answer.data|
      && |answer.data| <= size && answer.data == Window(file, cursor, |answer.data|)
      && (cursor < |file| ==> answer.data != [])
    case ReadFully(size) =>
      answer.Bytes? && answer.data == Window(file, cursor, size) && next == cursor + |answer.data|
    case ReadAt(at, size) =>
      at >= 0 && answer.Bytes? && answer.data == Window(file, at, size) && next == at + |answer.data|
  }

  /** The calls a reader refuses itself. */
  predicate Refused(file: seq<byte>, cursor: nat, call: Call) {
    match call
    case SeekTo(to) => to < 0
    case ReadSome(size) => size == 0 && cursor < |file|
    case ReadFully(size) => false
    case ReadAt(at, size) => at < 0
  }

  class FsReader {
    const inner: FsReaderBuffer
    const len: nat
    var chunk: seq<byte>
    var pos: nat

    ghost function Plan(): Layout {
      inner.Plan()
    }

    ghost function File(): seq<byte> {
      inner.Plan().File()
    }

    /** An error of the world outside the client, which a reliable one does not make. */
    ghost predicate Faulted(e: FsError)
      reads set k | 0 <= k < |inner.readers.readers| :: inner.readers.readers[k].Inner().inner
    {
      IsTransport(e) && !inner.readers.reliable && inner.AnyFault()
    }

    ghost function Repr(): set<object>
      reads inner.readers
    {
      {this} + inner.Repr()
    }

    /** The reader stands at `at`: the held chunk is exactly what lies between there and the buffered
        reader's position. */
    ghost predicate ValidAt(at: nat)
      reads this, inner, inner.readers, inner.readers.Repr
    {
      && this !in inner.Repr() && inner.Valid() && len == Plan().Len() == |File()|
      && at + |chunk| == inner.pos
      && (chunk != [] ==> inner.pos <= len && chunk == File()[at..inner.pos])
    }

    ghost predicate Valid()
      reads this, inner, inner.readers, inner.readers.Repr
    {
      ValidAt(pos)
    }

    constructor (inner: FsReaderBuffer, len: nat)
      requires inner.Valid() && inner.pos == 0 && len == inner.Plan().Len() == |inner.Plan().File()|
      ensures Valid() && pos == 0 && this.inner == inner
    {
      this.inner, this.len, chunk, pos := inner, len, [], 0;
    }

    /** `FsReader::new`. */
    static method Open(search: SearchFileBlocks, locs: int -> seq<Worker>, localHost: Option<string>, reliable: bool,
                       closeReaderLimit: nat, chunkNum: nat, chunkSize: nat, readParallel: nat, sliceSize: nat)
      returns (r: Result<FsReader>)
      requires search.Valid() && UniqueIds(search.blocks) && (reliable ==> Served(search.blocks, locs))
      requires readParallel > 0 && chunkNum > 0
      ensures r.Ok? <==> 4096 <= chunkSize <= sliceSize && chunkSize % 4096 == 0 && sliceSize % chunkSize == 0
      ensures r.Err? ==> r.error == Misaligned
      ensures r.Ok? ==> r.value.Valid() && fresh(r.value.Repr()) && r.value.pos == 0
      ensures r.Ok? ==> r.value.Plan() == Layout(search.blocks, chunkSize, sliceSize, readParallel)
      ensures r.Ok? ==> r.value.inner.readers.reliable == reliable && !r.value.inner.AnyFault()
    {
      var inner := FsReaderBuffer.Open(search, locs, localHost, reliable, closeReaderLimit, chunkNum, chunkSize,
                                       readParallel, sliceSize);
      if inner.Err? {
        return Err(inner.error);
      }
      var reader := new FsReader(inner.value, Start(search.blocks, |search.blocks|));
      r := Ok(reader);
    }

    /** Hold a chunk, unless one is held already. */
    method Fetch() returns (r: Result<()>)
      requires Valid() && pos < len
      modifies Repr()
      ensures fresh(Repr() - old(Repr())) && pos == old(pos)
      ensures r.Ok? ==> Valid() && (Safe(Plan()) ==> chunk != [])
      ensures r.Err? ==> Faulted(r.error)
    {
      hide FsReaderBuffer.Valid, Safe, Layout.File, Layout.Len, FsReaderBuffer.Plan;
      if chunk == [] {
        var got := inner.Read();
        if got.Err? {
          return Err(got.error);
        }
        chunk := got.value;
      }
      r := Ok(());
    }

    /** The next bytes, at most `limit`; the caller moves the position past them. */
    method ReadChunk(limit: Option<nat>) returns (r: Result<seq<byte>>)
      requires Valid()
      modifies Repr()
      ensures fresh(Repr() - old(Repr())) && pos == old(pos)
      ensures r.Ok? ==> ValidAt(pos + |r.value|) && r.value == Window(File(), pos, |r.value|)
      ensures r.Ok? ==> (limit.Some? ==> |r.value| <= limit.value) && (pos < len ==> r.value != [])
      ensures r.Err? && !Faulted(r.error) ==>
                Valid() && r.error.Abnormal? && pos < len && (Safe(Plan()) ==> limit == Some(0))
      ensures limit == Some(0) && pos < len ==> r.Err?
    {
      hide FsReaderBuffer.Valid, Safe, Layout.File, Layout.Len, FsReaderBuffer.Plan;
      if len <= pos {
        return Ok([]);
      }
      var fetched := Fetch();
      if fetched.Err? {
        return Err(fetched.error);
      }
      var size := if limit.Some? then Min(limit.value, |chunk|) else |chunk|;
      if size == 0 {
        return Err(Abnormal);
      }
      WindowOfHeld(File(), pos, inner.pos, size);
      r := Ok(chunk[..size]);
      chunk := chunk[size..];
    }

    /** `read`: some bytes, copied into `buf[off..]`. */
    method Read(buf: array<byte>, off: nat) returns (r: Result<nat>)
      requires Valid() && buf !in Repr() && off <= buf.Length
      modifies Repr(), buf
      ensures fresh(Repr() - old(Repr()))
      ensures r.Ok? ==> Valid() && pos == old(pos) + r.value && off + r.value <= buf.Length
      ensures r.Ok? ==> buf[..] == old(buf[..off]) + Window(File(), old(pos), r.value) + old(buf[off + r.value..])
      ensures r.Ok? ==> |Window(File(), old(pos), r.value)| == r.value && (old(pos) < len ==> r.value > 0)
      ensures r.Err? && !Faulted(r.error) ==>
                Valid() && pos == old(pos) && pos < len && (Safe(Plan()) ==> off == buf.Length)
      ensures off == buf.Length && old(pos) < len ==> r.Err?
    {
      hide FsReaderBuffer.Valid, Safe, Layout.File, Layout.Len, FsReaderBuffer.Plan;
      ghost var before := buf[..];
      var got := ReadChunk(Some(buf.Length - off));
      if got.Err? {
        return Err(got.error);
      }
      assert buf[..] == before;
      forall i | 0 <= i < |got.value| {
        buf[off + i] := got.value[i];
      }
      pos := pos + |got.value|;
      r := Ok(|got.value|);
    }

    /** `async_read` and `blocking_read`: the next bytes as a slice. */
    method ReadSlice(limit: Option<nat>) returns (r: Result<seq<byte>>)
      requires Valid()
      modifies Repr()
      ensures fresh(Repr() - old(Repr()))
      ensures r.Ok? ==> Valid() && pos == old(pos) + |r.value| && r.value == Window(File(), old(pos), |r.value|)
      ensures r.Ok? ==> (limit.Some? ==> |r.value| <= limit.value) && (old(pos) < len ==> r.value != [])
      ensures r.Err? && !Faulted(r.error) ==>
                Valid() && pos == old(pos) && pos < len && (Safe(Plan()) ==> limit == Some(0))
    {
      hide FsReaderBuffer.Valid, Safe, Layout.File, Layout.Len, FsReaderBuffer.Plan;
      r := ReadChunk(limit);
      if r.Ok? {
        pos := pos + |r.value|;
      }
    }

    /** One read of `read_full`, behind the `off` bytes it has from position `at` on. */
    method ReadMore(buf: array<byte>, off: nat, ghost before: seq<byte>, ghost at: nat) returns (r: Result<nat>)
      requires Valid() && buf !in Repr() && off < buf.Length == |before| && pos == at + off <= Max(len, at)
      requires |Window(File(), at, off)| == off && buf[..] == Window(File(), at, off) + before[off..]
      modifies Repr(), buf
      ensures fresh(Repr() - old(Repr()))
      ensures r.Ok? ==>
              Valid() && off + r.value <= buf.Length && pos == at + off + r.value <= Max(len, at) && buf !in Repr()
      ensures r.Ok? ==> |Window(File(), at, off + r.value)| == off + r.value
      ensures r.Ok? ==> buf[..] == Window(File(), at, off + r.value) + before[off + r.value..]
      ensures r.Ok? && r.value == 0 ==> pos >= len
      ensures r.Err? && Safe(Plan()) ==> Faulted(r.error)
    {
      hide FsReaderBuffer.Valid, Safe, Layout.File, Layout.Len, FsReaderBuffer.Plan, Window;
      ghost var filled := buf[..];
      r := Read(buf, off);
      if r.Ok? {
        WindowFits(File(), at, off + r.value);
        FilledFurther(filled, before, buf[..], File(), at, off, r.value);
      }
    }

    /** `read_full`: the buffer is filled as far as the file goes. */
    method ReadFull(buf: array<byte>) returns (r: Result<nat>)
      requires Valid() && buf !in Repr()
      modifies Repr(), buf
      ensures fresh(Repr() - old(Repr()))
      ensures r.Ok? ==> Valid() && r.value == |Window(File(), old(pos), buf.Length)| && pos == old(pos) + r.value
      ensures r.Ok? ==> buf[..] == Window(File(), old(pos), buf.Length) + old(buf[..])[r.value..]
      ensures r.Err? && Safe(Plan()) ==> Faulted(r.error)
    {
      hide FsReaderBuffer.Valid, Safe, Layout.File, Layout.Len, FsReaderBuffer.Plan, Window;
      ghost var before, file, at := buf[..], File(), pos;
      var off := 0;
      while off < buf.Length
        invariant Valid() && fresh(Repr() - old(Repr())) && buf !in Repr()
        invariant off <= buf.Length && pos == at + off <= Max(len, at)
        invariant |Window(file, at, off)| == off && buf[..] == Window(file, at, off) + before[off..]
        decreases buf.Length - off
      {
        var got := ReadMore(buf, off, before, at);
        if got.Err? {
          return Err(got.error);
        }
        if got.value == 0 {
          WindowEnds(file, at, off, buf.Length);
          break;
        }
        off := off + got.value;
      }
      r := Ok(off);
    }

    /** Drop what is held and move the readers. */
    method SeekBelow(to: nat) returns (r: Result<()>, ghost at: nat)
      requires Valid()
      modifies Repr()
      ensures fresh(Repr() - old(Repr()))
      ensures r.Ok? ==> Valid() && pos == to
      ensures r.Err? ==> pos == old(pos) && Faulted(r.error) && at < |inner.readers.readers|
      ensures r.Err? ==>
                (Valid() <==> old(chunk) == [] && inner.readers.readers[at].Base? && old(inner.Withstands(to, at)))
    {
      hide FsReaderBuffer.Valid, Layout.File, Layout.Len, FsReaderBuffer.Plan, FsReaderBuffer.Withstands, Safe;
      chunk := [];
      r, at := inner.Seek(to);
      if r.Ok? {
        pos := to;
      }
    }

    /** `seek`. A failed seek below drops the held chunk but moves neither position. The reader keeps its invariant,
        where it stood, if and only if it held nothing and the buffered reader keeps its own. */
    method Seek(to: int) returns (r: Result<()>, ghost at: nat)
      requires Valid()
      modifies Repr()
      ensures fresh(Repr() - old(Repr()))
      ensures to < 0 <==> r == Err(NegativeSeek)
      ensures r.Ok? ==> Valid() && pos == to
      ensures r.Err? ==> pos == old(pos)
      ensures to < 0 ==> Valid()
      ensures r.Err? && to >= 0 ==> Faulted(r.error) && at < |inner.readers.readers|
      ensures r.Err? && to >= 0 ==>
                (Valid() <==> old(chunk) == [] && inner.readers.readers[at].Base? && old(inner.Withstands(to, at)))
      ensures to >= 0 && 0 <= to - old(pos) <= |old(chunk)| ==>
                r.Ok? && chunk == old(chunk)[to - old(pos)..] && unchanged(old(Repr()) - {this})
    {
      hide FsReaderBuffer.Valid, Layout.File, Layout.Len, FsReaderBuffer.Plan, FsReaderBuffer.Withstands, Safe;
      r, at := Ok(()), 0;
      if to < 0 {
        return Err(NegativeSeek), at;
      }
      if pos == to {
        return Ok(()), at;
      }
      if 0 <= to - pos <= |chunk| {
        chunk, pos := chunk[to - pos..], to;
      } else {
        r, at := SeekBelow(to);
      }
    }

    /** Slices that together are the next `size` bytes, or all there are. */
    method ReadSlices(size: nat) returns (r: Result<seq<seq<byte>>>)
      requires Valid()
      modifies Repr()
      ensures fresh(Repr() - old(Repr()))
      ensures r.Ok? ==>
              Valid() && pos == old(pos) + |Flatten(r.value)| && Flatten(r.value) == Window(File(), old(pos), size)
      ensures r.Ok? ==> forall i :: 0 <= i < |r.value| ==> r.value[i] != []
      ensures r.Err? && Safe(Plan()) ==> Faulted(r.error)
    {
      hide FsReaderBuffer.Valid, Safe, Layout.File, Layout.Len, FsReaderBuffer.Plan, Flatten, Window;
      ghost var file, at := File(), pos;
      var chunks: seq<seq<byte>>, remaining := [], size;
      ghost var have := 0;
      FlattenNothing();
      while remaining > 0
        invariant Valid() && fresh(Repr() - old(Repr())) && 0 <= remaining == size - have
        invariant pos == at + have && pos <= Max(len, at)
        invariant Flatten(chunks) == Window(file, at, have)
        invariant forall i :: 0 <= i < |chunks| ==> chunks[i] != []
        decreases remaining
      {
        var got := ReadSlice(Some(remaining));
        if got.Err? {
          return Err(got.error);
        }
        if |got.value| == 0 {
          WindowEnds(file, at, have, size);
          break;
        }
        WindowExtends(file, at, have, have + |got.value|);
        FlattenMore(chunks, got.value);
        chunks, remaining, have := chunks + [got.value], remaining - |got.value|, have + |got.value|;
      }
      r := Ok(chunks);
    }

    /** `fuse_read`: slices that together are all the bytes asked for. */
    method FuseRead(at: int, size: nat) returns (r: Result<seq<seq<byte>>>)
      requires Valid()
      modifies Repr()
      ensures fresh(Repr() - old(Repr()))
      ensures at < 0 ==> r == Err(NegativeSeek) && Valid() && pos == old(pos)
      ensures r.Ok? ==>
              Valid() && at >= 0 && pos == at + |Flatten(r.value)| && Flatten(r.value) == Window(File(), at, size)
      ensures r.Ok? ==> forall i :: 0 <= i < |r.value| ==> r.value[i] != []
      ensures r.Err? && at >= 0 && Safe(Plan()) ==> Faulted(r.error)
    {
      hide FsReaderBuffer.Valid, Safe, Layout.File, Layout.Len, FsReaderBuffer.Plan;
      var moved, _ := Seek(at);
      if moved.Err? {
        return Err(moved.error);
      }
      r := ReadSlices(size);
    }

    /** `read` into a new buffer. */
    method ReadNew(size: nat) returns (r: Result<seq<byte>>)
      requires Valid()
      modifies Repr()
      ensures fresh(Repr() - old(Repr()))
      ensures r.Ok? ==> Valid() && pos == old(pos) + |r.value| && |r.value| <= size
      ensures r.Ok? ==> r.value == Window(File(), old(pos), |r.value|) && (old(pos) < |File()| ==> r.value != [])
      ensures size == 0 && old(pos) < |File()| ==> r.Err?
      ensures r.Err? && Safe(Plan()) ==> Faulted(r.error) || (size == 0 && old(pos) < |File()|)
    {
      hide FsReaderBuffer.Valid, Safe, Layout.File, Layout.Len, FsReaderBuffer.Plan, Window;
      var buf := new byte[size];
      var got := Read(buf, 0);
      if got.Ok? {
        assert buf[..got.value] == Window(File(), old(pos), got.value);
      }
      r := if got.Ok? then Ok(buf[..got.value]) else Err(got.error);
    }

    /** `read_full` into a new buffer. */
    method ReadNewFull(size: nat) returns (r: Result<seq<byte>>)
      requires Valid()
      modifies Repr()
      ensures fresh(Repr() - old(Repr()))
      ensures r.Ok? ==> Valid() && r.value == Window(File(), old(pos), size) && pos == old(pos) + |r.value|
      ensures r.Err? && Safe(Plan()) ==> Faulted(r.error)
    {
      hide FsReaderBuffer.Valid, Safe, Layout.File, Layout.Len, FsReaderBuffer.Plan, Window;
      var buf := new byte[size];
      var got := ReadFull(buf);
      if got.Ok? {
        assert buf[..got.value] == Window(File(), old(pos), size);
      }
      r := if got.Ok? then Ok(buf[..got.value]) else Err(got.error);
    }

    /** One call of any kind behaves as on a flat file. */
    method Perform(call: Call) returns (r: Result<Answer>)
      requires Valid()
      modifies Repr()
      ensures fresh(Repr() - old(Repr()))
      ensures r.Ok? ==> Valid() && FlatStep(File(), old(pos), call, r.value, pos)
      ensures Refused(File(), old(pos), call) ==> r.Err?
      ensures r.Err? && Safe(Plan()) ==> Faulted(r.error) || Refused(File(), old(pos), call)
    {
      hide FsReaderBuffer.Valid, Safe, Layout.File, Layout.Len, FsReaderBuffer.Plan, Window, Flatten;
      match call
      case SeekTo(to) =>
        var moved, _ := Seek(to);
        r := if moved.Ok? then Ok(Done) else Err(moved.error);
      case ReadSome(size) =>
        var got := ReadNew(size);
        r := if got.Ok? then Ok(Bytes(got.value)) else Err(got.error);
      case ReadFully(size) =>
        var got := ReadNewFull(size);
        r := if got.Ok? then Ok(Bytes(got.value)) else Err(got.error);
      case ReadAt(at, size) =>
        var got := FuseRead(at, size);
        r := if got.Ok? then Ok(Bytes(Flatten(got.value))) else Err(got.error);
    }

    /** A whole session: every answer, and every position in between, is the flat cursor's, up to the first
        error. On a file without a bad slice boundary only a failing worker, disk or task ends it early. */
    method Session(calls: seq<Call>) returns (answers: seq<Answer>, ghost cursors: seq<nat>, error: Option<FsError>)
      requires Valid()
      modifies Repr()
      ensures |cursors| == |answers| + 1 && cursors[0] == old(pos)
      ensures if error.None? then |answers| == |calls| && Valid() && cursors[|calls|] == pos else |answers| < |calls|
      ensures forall i :: 0 <= i < |answers| ==> FlatStep(File(), cursors[i], calls[i], answers[i], cursors[i + 1])
      ensures error.Some? && Safe(Plan()) ==>
                Faulted(error.value) || Refused(File(), cursors[|answers|], calls[|answers|])
    {
      hide FsReaderBuffer.Valid, Safe, FlatStep, Refused;
      answers, cursors := [], [pos];
      while |answers| < |calls|
        invariant Valid() && fresh(Repr() - old(Repr()))
        invariant |answers| <= |calls| && |cursors| == |answers| + 1 && cursors[0] == old(pos)
                  && cursors[|answers|] == pos
        invariant forall i :: 0 <= i < |answers| ==> FlatStep(File(), cursors[i], calls[i], answers[i], cursors[i + 1])
        decreases |calls| - |answers|
      {
        var r := Perform(calls[|answers|]);
        if r.Err? {
          return answers, cursors, Some(r.error);
        }
        answers, cursors := answers + [r.value], cursors + [pos];
      }
      error := None;
    }

    method Complete() returns (r: Result<()>)
      requires Valid()
      modifies Repr()
      ensures fresh(Repr() - old(Repr()))
      ensures r.Ok? ==> inner.readers.CompletedBelow(|inner.readers.readers|)
      ensures r.Err? ==> Faulted(r.error)
    {
      r := inner.Complete();
    }
  }
}
