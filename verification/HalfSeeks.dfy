/** A seek that fails after some of the readers have moved, and when reading can go on all the same. */
module HalfSeeks {
  import opened Common
  import opened FileBlocks
  import opened FsReaderBases
  import opened Slices
  import opened ParallelReads
  import opened Reassembly

  /** Readers 0 up to `k` have moved to `to`, the others and the position have not. */
  function HalfSeek(l: Layout, lists: seq<seq<Range>>, b: Buf, to: nat, k: nat): (h: Buf)
    requires Shares(l, lists) && |b.views| == |lists|
    ensures |h.views| == |lists|
  {
    Buf(seq(|lists|, i requires 0 <= i < |lists| => if i < k then SeekView(l, lists[i], to) else b.views[i]), b.pos)
  }

  /** A read at `pos` is answered with the next bytes of the file; `strict` asks for at least one. */
  ghost predicate RightAnswer(l: Layout, pos: nat, r: Result<seq<byte>>, strict: bool) {
    if pos >= l.Len() then r == Ok([])
    else
      && r.Ok? && pos + |r.value| <= l.Len() && r.value == l.File()[pos..pos + |r.value|]
      && (strict ==> r.value != [])
  }

  lemma {:induction false} ReadKeepsBuf(l: Layout, lists: seq<seq<Range>>, b: Buf)
    requires l.Valid() && Shares(l, lists) && ValidBuf(l, lists, b)
    ensures ValidBuf(l, lists, ReadBuf(l, lists, b).1)
  {
    if b.pos < l.Len() && Owner(l, b.pos) < |lists| {
      var k := Owner(l, b.pos);
      ReadKeepsView(l, lists[k], k, b.views[k]);
    }
  }

  lemma {:induction false} ReadKeepsView(l: Layout, list: seq<Range>, k: nat, v: View)
    requires l.Valid() && list != [] && IsShare(list, l.Len(), l.SliceStep(), l.parallel, k) && ValidView(l, list, v)
    ensures ValidView(l, list, ReadView(l, list, v).1)
  {
  }

  /** The next `n` reads are all answered with the next bytes of the file. */
  ghost predicate ReadsRight(l: Layout, lists: seq<seq<Range>>, b: Buf, n: nat, strict: bool)
    requires l.Valid() && Shares(l, lists) && ValidBuf(l, lists, b)
    decreases n
  {
    n == 0 ||
    (ReadKeepsBuf(l, lists, b);
     var (r, b') := ReadBuf(l, lists, b);
     RightAnswer(l, b.pos, r, strict) && ReadsRight(l, lists, b', n - 1, strict))
  }

  /** However long a client reads on, it gets the file. */
  ghost predicate GoesOn(l: Layout, lists: seq<seq<Range>>, b: Buf, strict: bool)
    requires l.Valid() && Shares(l, lists) && ValidBuf(l, lists, b)
  {
    forall n: nat :: ReadsRight(l, lists, b, n, strict)
  }

  lemma {:induction false} OneMoreRead(l: Layout, lists: seq<seq<Range>>, b: Buf, n: nat, strict: bool)
    requires l.Valid() && Shares(l, lists) && ValidBuf(l, lists, b)
    ensures ValidBuf(l, lists, ReadBuf(l, lists, b).1)
    ensures ReadsRight(l, lists, b, n + 1, strict) <==>
            && RightAnswer(l, b.pos, ReadBuf(l, lists, b).0, strict)
            && ReadsRight(l, lists, ReadBuf(l, lists, b).1, n, strict)
  {
    ReadKeepsBuf(l, lists, b);
    hide ReadBuf, RightAnswer, Shares, ValidBuf;
  }

  lemma {:induction false} AlignedAnswer(l: Layout, lists: seq<seq<Range>>, b: Buf, strict: bool)
    requires l.Valid() && Shares(l, lists) && Aligned(l, lists, b, strict) && (strict ==> Safe(l))
    ensures Aligned(l, lists, ReadBuf(l, lists, b).1, strict)
    ensures RightAnswer(l, b.pos, ReadBuf(l, lists, b).0, strict)
  {
    hide ReadBuf, Shares, Aligned;
    ReadAligned(l, lists, b, strict);
  }

  lemma {:induction false} AlignedReads(l: Layout, lists: seq<seq<Range>>, b: Buf, n: nat, strict: bool)
    requires l.Valid() && Shares(l, lists) && Aligned(l, lists, b, strict) && (strict ==> Safe(l))
    ensures ReadsRight(l, lists, b, n, strict)
    decreases n
  {
    if n > 0 {
      hide ReadBuf, Shares, AllInPlace, RightAnswer, Safe;
      AlignedAnswer(l, lists, b, strict);
      AlignedReads(l, lists, ReadBuf(l, lists, b).1, n - 1, strict);
      OneMoreRead(l, lists, b, n - 1, strict);
    }
  }

  /** What a reader hands out that has something to read. */
  lemma {:induction false} ChunkOfSeat(l: Layout, list: seq<Range>, k: nat, v: View)
    requires l.Valid() && list != [] && ValidView(l, list, v) && Switch(list, v).Some?
    requires IsShare(list, l.Len(), l.SliceStep(), l.parallel, k)
    ensures var w := Switch(list, v).value;
            && w.idx.Some? && w.idx.value < |list|
            && list[w.idx.value].start <= w.pos < list[w.idx.value].end <= l.Len()
            && var chunk := ReadView(l, list, v).0;
            chunk.off == w.pos && |chunk.data| == ChunkLen(l.blocks, l.chunkSize, w.pos)
  {
    ShareRange(l, list, k, Switch(list, v).value.idx.value);
    hide IsShare, ChunkLen;
  }

  /** A chunk that does not reach a position, or belongs to another slice, is of no use there. */
  lemma {:induction false} ChunkElsewhere(l: Layout, list: seq<Range>, k: nat, i: nat, chunk: FileChunk, pos: nat,
                                          strict: bool)
    requires l.Valid() && pos < l.Len() && IsShare(list, l.Len(), l.SliceStep(), l.parallel, k)
    requires i < |list| && list[i].start <= chunk.off < list[i].end <= l.Len()
    requires |chunk.data| == ChunkLen(l.blocks, l.chunkSize, chunk.off)
    requires var j := FirstAfter(list, pos);
             j < |list| && list[j].start <= pos && (i == j ==> !Covers(l, chunk.off, pos, strict))
    ensures var r := Trim(pos, chunk); r.Err? || (strict && r.value == [])
  {
    var j := FirstAfter(list, pos);
    if i < j {
      SlicesApart(l, list, k, i, j);
    } else if j < i {
      SlicesApart(l, list, k, j, i);
    }
    hide IsShare, FirstAfter;
  }

  /** The chunk of a reader that is not seated for a position of its slice is of no use there. */
  lemma {:induction false} WrongChunk(l: Layout, list: seq<Range>, k: nat, v: View, pos: nat, strict: bool)
    requires l.Valid() && list != [] && ValidView(l, list, v) && pos < l.Len()
    requires IsShare(list, l.Len(), l.SliceStep(), l.parallel, k)
    requires var j := FirstAfter(list, pos); j < |list| && list[j].start <= pos
    requires !Seated(l, Switch(list, v), FirstAfter(list, pos), pos, strict)
    ensures var r := Trim(pos, ReadView(l, list, v).0); r.Err? || (strict && r.value == [])
  {
    if Switch(list, v).Some? {
      ChunkOfSeat(l, list, k, v);
      hide IsShare, FirstAfter, Covers, ReadView, Switch, Trim;
      ChunkElsewhere(l, list, k, Switch(list, v).value.idx.value, ReadView(l, list, v).0, pos, strict);
    }
  }

  /** Two slices of one reader are further apart than a chunk. */
  lemma {:induction false} SlicesApart(l: Layout, list: seq<Range>, k: nat, i: nat, j: nat)
    requires l.Valid() && IsShare(list, l.Len(), l.SliceStep(), l.parallel, k) && i < j < |list|
    ensures list[i].end + l.chunkSize <= list[j].start
  {
    var a, b := Nth(l.parallel, k, i), Nth(l.parallel, k, j);
    MulMonotone(i + 1, j, l.parallel);
    SeveralReaders(l, b);
    MulMonotone(a + 2, b, l.sliceSize);
    assert (a + 2) * l.sliceSize == (a + 1) * l.sliceSize + l.sliceSize;
  }

  /** Where the reader in charge reads next. */
  ghost function Front(l: Layout, lists: seq<seq<Range>>, b: Buf): (p: nat)
    requires l.Valid() && Shares(l, lists) && ValidBuf(l, lists, b)
    ensures p <= l.Len()
  {
    if Owner(l, b.pos) < |lists| && Switch(lists[Owner(l, b.pos)], b.views[Owner(l, b.pos)]).Some?
    then Switch(lists[Owner(l, b.pos)], b.views[Owner(l, b.pos)]).value.pos
    else l.Len()
  }

  /** A read with readers out of place is wrong, or goes on and leaves them out of place. */
  lemma {:induction false} StaysOutOfPlace(l: Layout, lists: seq<seq<Range>>, b: Buf, strict: bool)
    requires l.Valid() && Shares(l, lists) && ValidBuf(l, lists, b) && (strict ==> Safe(l))
    requires !Aligned(l, lists, b, strict)
    ensures var (r, b') := ReadBuf(l, lists, b);
            && b.pos < l.Len()
            && (|| !RightAnswer(l, b.pos, r, strict)
                || (&& ValidBuf(l, lists, b') && !Aligned(l, lists, b', strict) && b.pos <= b'.pos
                    && (b'.pos == b.pos ==> Front(l, lists, b) < Front(l, lists, b'))))
  {
    hide Seated, IsShare, InSlice, AllInPlace, Safe, Front, ReadFrom, Layout.File, Nth, Owner;
    var k, at, j := InCharge(l, lists, b.pos);
    if Seated(l, Switch(lists[k], b.views[k]), FirstAfter(lists[k], b.pos), b.pos, strict) {
      ReadSeated(l, lists, b, k, at, j, strict);
      FrontMoves(l, lists, b, k, strict);
    } else {
      WrongRead(l, lists, b, k, strict);
    }
  }

  /** If the readers are not in place, some read goes wrong. */
  lemma {:induction false} OutOfPlaceStops(l: Layout, lists: seq<seq<Range>>, b: Buf, strict: bool) returns (n: nat)
    requires l.Valid() && Shares(l, lists) && ValidBuf(l, lists, b) && (strict ==> Safe(l))
    requires !Aligned(l, lists, b, strict)
    ensures !ReadsRight(l, lists, b, n, strict)
    decreases l.Len() - b.pos, l.Len() - Front(l, lists, b)
  {
    hide Safe, Front, ReadBuf, RightAnswer, Layout.Len, Shares, ReadsRight, Aligned, ValidBuf;
    StaysOutOfPlace(l, lists, b, strict);
    var (r, b') := ReadBuf(l, lists, b);
    if RightAnswer(l, b.pos, r, strict) {
      var m := OutOfPlaceStops(l, lists, b', strict);
      OneMoreRead(l, lists, b, m, strict);
      n := m + 1;
    } else {
      OneMoreRead(l, lists, b, 0, strict);
      n := 1;
    }
  }

  lemma {:induction false} WrongRead(l: Layout, lists: seq<seq<Range>>, b: Buf, k: nat, strict: bool)
    requires l.Valid() && Shares(l, lists) && ValidBuf(l, lists, b) && b.pos < l.Len() && k == Owner(l, b.pos) < |lists|
    requires var j := FirstAfter(lists[k], b.pos); j < |lists[k]| && lists[k][j].start <= b.pos
    requires !Seated(l, Switch(lists[k], b.views[k]), FirstAfter(lists[k], b.pos), b.pos, strict)
    ensures !RightAnswer(l, b.pos, ReadBuf(l, lists, b).0, strict)
  {
    WrongChunk(l, lists[k], k, b.views[k], b.pos, strict);
    hide IsShare, ReadView, Switch, Trim, Seated, FirstAfter;
  }

  /** A read that returns nothing has at least moved the reader in charge. */
  lemma {:induction false} FrontMoves(l: Layout, lists: seq<seq<Range>>, b: Buf, k: nat, strict: bool)
    requires l.Valid() && Shares(l, lists) && ValidBuf(l, lists, b) && b.pos < l.Len() && k == Owner(l, b.pos) < |lists|
    requires FirstAfter(lists[k], b.pos) < |lists[k]|
    requires Seated(l, Switch(lists[k], b.views[k]), FirstAfter(lists[k], b.pos), b.pos, strict)
    ensures var b' := ReadBuf(l, lists, b).1;
            ValidBuf(l, lists, b') && (b'.pos == b.pos ==> Front(l, lists, b) < Front(l, lists, b'))
  {
    ReadKeepsBuf(l, lists, b);
    var from := OwnerDelivers(l, lists[k], b.views[k], b.pos, strict);
  }

  /** The readers are in place if and only if every run of reads returns the file. */
  lemma {:induction false} InPlaceIsRight(l: Layout, lists: seq<seq<Range>>, b: Buf, strict: bool)
    requires l.Valid() && Shares(l, lists) && ValidBuf(l, lists, b) && (strict ==> Safe(l))
    ensures Aligned(l, lists, b, strict) <==> GoesOn(l, lists, b, strict)
  {
    if Aligned(l, lists, b, strict) {
      forall n: nat ensures ReadsRight(l, lists, b, n, strict) {
        AlignedReads(l, lists, b, n, strict);
      }
    } else {
      var n := OutOfPlaceStops(l, lists, b, strict);
    }
  }

  /** Where the readers read next after a seek to `to` that failed at reader `k`. */
  ghost function SeatsAfter(l: Layout, lists: seq<seq<Range>>, b: Buf, to: nat, k: nat): (seats: seq<Option<View>>)
    requires Shares(l, lists) && ValidBuf(l, lists, b)
    ensures |seats| == |lists|
  {
    seq(|lists|, i requires 0 <= i < |lists| => if i < k then Landing(lists[i], to) else Switch(lists[i], b.views[i]))
  }

  /** What a failed seek must leave alone. Each reader that will be asked again has its next chunk, which a moved
      reader has from `to` on or from the start of its next slice, in the slice and for the position at which it is
      asked: the old position for the reader in charge of it, and for any other the place where reading arrives in
      its slice, coming from where the reader before it now is. */
  ghost predicate CanGoOn(l: Layout, lists: seq<seq<Range>>, b: Buf, to: nat, k: nat, strict: bool)
    requires l.Valid() && Shares(l, lists) && ValidBuf(l, lists, b)
  {
    b.pos < l.Len() ==> AllInPlace(l, lists, SeatsAfter(l, lists, b, to, k), b.pos, strict)
  }

  lemma {:induction false} HalfSeekAligned(l: Layout, lists: seq<seq<Range>>, b: Buf, to: nat, k: nat, strict: bool)
    requires l.Valid() && Shares(l, lists) && ValidBuf(l, lists, b)
    ensures var h := HalfSeek(l, lists, b, to, k);
            ValidBuf(l, lists, h) && (Aligned(l, lists, h, strict) <==> CanGoOn(l, lists, b, to, k, strict))
  {
    var h := HalfSeek(l, lists, b, to, k);
    forall i | 0 <= i < |lists|
      ensures ValidView(l, lists[i], h.views[i])
      ensures Switch(lists[i], h.views[i]) == if i < k then Landing(lists[i], to) else Switch(lists[i], b.views[i])
    {
      SeekLands(l, lists[i], i, to);
    }
    assert Seats(l, lists, h.views) == SeatsAfter(l, lists, b, to, k);
  }

  /** After a seek to `to` that failed at reader `k`, every run of reads from the old position returns the file if
      and only if the seats allow it. */
  lemma {:induction false} HalfSeekGoesOn(l: Layout, lists: seq<seq<Range>>, b: Buf, to: nat, k: nat, strict: bool)
    requires l.Valid() && Shares(l, lists) && ValidBuf(l, lists, b) && (strict ==> Safe(l))
    ensures var h := HalfSeek(l, lists, b, to, k);
            ValidBuf(l, lists, h) && (GoesOn(l, lists, h, strict) <==> CanGoOn(l, lists, b, to, k, strict))
  {
    HalfSeekAligned(l, lists, b, to, k, strict);
    InPlaceIsRight(l, lists, HalfSeek(l, lists, b, to, k), strict);
  }

  /** One block of four chunks, dealt to two readers. */
  function FourChunks(data: seq<byte>): Layout {
    Layout([Block(1, data)], 4096, 4096, 2)
  }

  const TWO_LISTS: seq<seq<Range>> := [[Range(0, 4096), Range(8192, 12288)], [Range(4096, 8192), Range(12288, 16384)]]

  lemma {:induction false} LenOfFour(data: seq<byte>)
    requires |data| == 16384
    ensures FourChunks(data).Len() == 16384
  {
    var bs := FourChunks(data).blocks;
    assert Start(bs, 1) == Start(bs, 0) + |bs[0].data|;
  }

  lemma {:induction false} ShareOfTwo(list: seq<Range>, k: nat)
    requires k < 2 && list == TWO_LISTS[k]
    ensures IsShare(list, 16384, 4096, 2, k)
  {
    forall j | 0 <= j < |list|
      ensures list[j] == SliceNo(16384, 4096, Nth(2, k, j)) && list[j].start < 16384
    {
      assert Nth(2, k, j) == k + 2 * j;
    }
  }

  lemma {:induction false} TwoShares(data: seq<byte>)
    requires |data| == 16384
    ensures FourChunks(data).Valid() && FourChunks(data).Len() == 16384 && Shares(FourChunks(data), TWO_LISTS)
  {
    LenOfFour(data);
    ShareOfTwo(TWO_LISTS[0], 0);
    ShareOfTwo(TWO_LISTS[1], 1);
    hide IsShare, Start;
  }

  /** With two it can go wrong: a seek from 0 to 8192 moves the first reader and fails at the second, and the
      next read, still at 0, meets a chunk from behind and reports an abnormal status. */
  lemma {:induction false} HalfSeekGoesWrong(data: seq<byte>)
    requires |data| == 16384
    ensures var l := FourChunks(data);
            && l.Valid() && Shares(l, TWO_LISTS) && Aligned(l, TWO_LISTS, InitBuf(TWO_LISTS), true)
            && var h := HalfSeek(l, TWO_LISTS, InitBuf(TWO_LISTS), 8192, 1);
            ValidBuf(l, TWO_LISTS, h) && ReadBuf(l, TWO_LISTS, h).0 == Err(Abnormal)
  {
    var l := FourChunks(data);
    TwoShares(data);
    InitAligned(l, TWO_LISTS, true);
    hide IsShare, InPlace, ChunkLen;
    assert TWO_LISTS[0][1..][0] == Range(8192, 12288);
    assert FirstAfter(TWO_LISTS[0][1..], 8192) == 0;
    assert FirstAfter(TWO_LISTS[0], 8192) == 1;
    assert SeekView(l, TWO_LISTS[0], 8192) == View(Some(1), 8192);
    assert Owner(l, 0) == 0;
  }

  lemma {:induction false} FourChunkLen(data: seq<byte>, pos: nat)
    requires |data| == 16384 && pos <= 12288
    ensures FourChunks(data).Len() == 16384 && ChunkLen(FourChunks(data).blocks, 4096, pos) == 4096
  {
    LenOfFour(data);
    var bs := FourChunks(data).blocks;
    assert Holds(bs, 0, pos);
    HoldsUnique(bs, 0, BlockAt(bs, pos), pos);
  }

  lemma {:induction false} FourNext(data: seq<byte>)
    requires |data| == 16384
    ensures FirstAfter(TWO_LISTS[0], 50) == 0 && FirstAfter(TWO_LISTS[0], 100) == 0
            && FirstAfter(TWO_LISTS[1], 100) == 0
    ensures FourChunks(data).Valid() && Reach(FourChunks(data), 50, 4096) == 4146
  {
    FourChunkLen(data, 50);
    hide ChunkLen, Layout.Len;
  }

  /** It need not go wrong, although the first reader now stands neither at the position nor at the start of its
      slice: a seek from 100 back to 50 that fails at the second reader. */
  lemma {:induction false} HalfSeekHarmless(data: seq<byte>)
    requires |data| == 16384
    ensures var l := FourChunks(data);
            && l.Valid() && l.Len() == 16384 && Shares(l, TWO_LISTS)
            && var b := SeekBuf(l, TWO_LISTS, InitBuf(TWO_LISTS), 100);
            ValidBuf(l, TWO_LISTS, b) && CanGoOn(l, TWO_LISTS, b, 50, 1, true)
  {
    var l := FourChunks(data);
    TwoShares(data);
    FourChunkLen(data, 50);
    FourChunkLen(data, 4096);
    FourNext(data);
    hide IsShare, ChunkLen, Layout.Len, FirstAfter, Reach;
    var b := SeekBuf(l, TWO_LISTS, InitBuf(TWO_LISTS), 100);
    var seats := SeatsAfter(l, TWO_LISTS, b, 50, 1);
    assert seats == [Some(View(Some(0), 50)), Some(View(Some(0), 4096))];
    assert InPlace(l, TWO_LISTS[0], seats[0], SeatPos(l, seats, Before(l, 0)), 100, true);
    assert InPlace(l, TWO_LISTS[1], seats[1], SeatPos(l, seats, Before(l, 1)), 100, true);
  }
}
