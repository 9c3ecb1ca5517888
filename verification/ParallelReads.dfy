/**
  * What the parallel readers compute, on values: the position of each reader, the chunk it reads next,
  * and the reassembly of their chunks into the file.
  */
module ParallelReads {
  import opened Common
  import opened FileBlocks
  import opened FsReaderBases
  import opened Slices

  /** A file's blocks and the client's read configuration. */
  datatype Layout = Layout(blocks: seq<Block>, chunkSize: nat, sliceSize: nat, parallel: nat) {

    predicate Valid() {
      0 < chunkSize <= sliceSize && parallel > 0
    }

    function Len(): nat {
      Start(blocks, |blocks|)
    }

    function File(): (f: seq<byte>)
      ensures |f| == Len()
    {
      ContentsLength(blocks);
      Contents(blocks)
    }

    /** One reader takes the file as a single slice. */
    function SliceStep(): nat {
      if parallel == 1 then Len() else sliceSize
    }
  }

  /** A chunk of the file, tagged with its position. */
  datatype FileChunk = FileChunk(off: int, data: seq<byte>)

  /** The state of one parallel reader: the slice it is in, and the position of its base reader. */
  datatype View = View(idx: Option<nat>, pos: nat)

  predicate ValidView(l: Layout, slices: seq<Range>, v: View) {
    match v.idx
    case None => v.pos == 0
    case Some(i) => i < |slices| && slices[i].start <= v.pos <= l.Len()
  }

  /** The readers' slices: the non-empty shares of the file. */
  ghost predicate Shares(l: Layout, lists: seq<seq<Range>>) {
    && |lists| <= l.parallel
    && (forall k :: 0 <= k < |lists| ==>
          lists[k] != [] && IsShare(lists[k], l.Len(), l.SliceStep(), l.parallel, k))
    && (|lists| < l.parallel ==> |lists| * l.SliceStep() >= l.Len())
  }

  /** Move on to the next slice when the current one is read. None: nothing left. */
  function Switch(slices: seq<Range>, v: View): Option<View>
    requires slices != [] && (v.idx.Some? ==> v.idx.value < |slices|)
  {
    match v.idx
    case None => Some(View(Some(0), slices[0].start))
    case Some(i) =>
      if v.pos < slices[i].end then Some(v)
      else if i + 1 < |slices| then Some(View(Some(i + 1), slices[i + 1].start))
      else None
  }

  /** `FsReaderParallel::read`: the chunk at the reader's position, which may run past its slice. */
  function ReadView(l: Layout, slices: seq<Range>, v: View): (FileChunk, View)
    requires l.Valid() && slices != [] && ValidView(l, slices, v)
  {
    match Switch(slices, v)
    case None => (FileChunk(-1, []), v)
    case Some(w) =>
      if w.pos >= l.Len() then (FileChunk(w.pos, []), w)
      else
        var end := w.pos + ChunkLen(l.blocks, l.chunkSize, w.pos);
        (FileChunk(w.pos, l.File()[w.pos..end]), View(w.idx, end))
  }

  /** `FsReaderParallel::seek`: to `pos`, or to the reader's first slice after it. */
  function SeekView(l: Layout, slices: seq<Range>, pos: nat): View
    requires slices != []
  {
    var i := FirstAfter(slices, pos);
    if i < |slices| then View(Some(i), Max(pos, slices[i].start))
    else View(Some(|slices| - 1), l.Len())
  }

  /** The state of the reassembly: the readers, and the position of the next byte to deliver. */
  datatype Buf = Buf(views: seq<View>, pos: nat)

  ghost predicate ValidBuf(l: Layout, lists: seq<seq<Range>>, b: Buf) {
    && |b.views| == |lists|
    && forall k :: 0 <= k < |lists| ==> ValidView(l, lists[k], b.views[k])
  }

  /** The reader in charge of a position. */
  function Owner(l: Layout, pos: nat): nat
    requires l.Valid()
  {
    pos / l.sliceSize % l.parallel
  }

  /** `FsReaderBuffer::read` after the chunk arrived: drop the bytes already delivered. */
  function Trim(pos: nat, chunk: FileChunk): Result<seq<byte>> {
    var diff := pos - chunk.off;
    if diff == 0 then Ok(chunk.data)
    else if 0 < diff <= |chunk.data| then Ok(chunk.data[diff..])
    else Err(Abnormal)
  }

  /** One chunk of reader `k`, trimmed to the position. */
  function ReadFrom(l: Layout, lists: seq<seq<Range>>, b: Buf, k: nat): (Result<seq<byte>>, Buf)
    requires l.Valid() && Shares(l, lists) && ValidBuf(l, lists, b) && k < |lists|
  {
    var (chunk, v) := ReadView(l, lists[k], b.views[k]);
    var r := Trim(b.pos, chunk);
    (r, Buf(b.views[k := v], b.pos + if r.Ok? then |r.value| else 0))
  }

  /** `FsReaderBuffer::read`. */
  function ReadBuf(l: Layout, lists: seq<seq<Range>>, b: Buf): (Result<seq<byte>>, Buf)
    requires l.Valid() && Shares(l, lists) && ValidBuf(l, lists, b)
  {
    if b.pos >= l.Len() then (Ok([]), b)
    else if Owner(l, b.pos) >= |lists| then (Err(NotInitialized), b)
    else ReadFrom(l, lists, b, Owner(l, b.pos))
  }

  /** `FsReaderBuffer::seek`. */
  function SeekBuf(l: Layout, lists: seq<seq<Range>>, b: Buf, pos: nat): Buf
    requires Shares(l, lists)
  {
    Buf(seq(|lists|, k requires 0 <= k < |lists| => SeekView(l, lists[k], pos)), pos)
  }

  function InitBuf(lists: seq<seq<Range>>): Buf {
    Buf(seq(|lists|, _ => View(None, 0)), 0)
  }
}
