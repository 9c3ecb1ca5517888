/**
  * Reassembling the file from the parallel readers' chunks. A seek into the middle of a chunk makes one
  * reader run past its slice; the overlap is cut off the next reader's first chunk. The results: no byte
  * is ever wrong, and a read never comes back empty exactly when no slice boundary lies in the middle of
  * a block that ends within the next chunk.
  */
module Reassembly {
  import opened Common
  import opened FileBlocks
  import opened FsReaderBases
  import opened Slices
  import opened ParallelReads

  /** Slice number `no` is the one whose span holds a position. */
  predicate InSlice(l: Layout, no: nat, pos: nat) {
    no * l.SliceStep() <= pos < (no + 1) * l.SliceStep()
  }

  /** A slice ends after a position exactly when its number is not below the position's. */
  lemma {:induction false} EndsAfter(l: Layout, pos: nat, at: nat, no: nat)
    requires pos < l.Len() && InSlice(l, at, pos)
    ensures pos < SliceNo(l.Len(), l.SliceStep(), no).end <==> at <= no
    ensures SliceNo(l.Len(), l.SliceStep(), no).start <= pos <==> no <= at
  {
    if no < at {
      MulMonotone(no + 1, at, l.SliceStep());
    } else if no > at {
      MulMonotone(at + 1, no, l.SliceStep());
    }
  }

  /** Which slice of reader `k` comes first after a position, by number. */
  lemma {:induction false} FirstAfterByNumber(l: Layout, list: seq<Range>, k: nat, pos: nat, at: nat)
    requires pos < l.Len() && InSlice(l, at, pos)
    requires IsShare(list, l.Len(), l.SliceStep(), l.parallel, k)
    ensures var j := FirstAfter(list, pos);
            && (j > 0 ==> Nth(l.parallel, k, j - 1) < at)
            && at <= Nth(l.parallel, k, j)
            && (j < |list| ==> (list[j].start <= pos <==> Nth(l.parallel, k, j) == at))
            && (j == |list| ==> at < Nth(l.parallel, k, j))
  {
    var j := FirstAfter(list, pos);
    if j > 0 {
      EndsAfter(l, pos, at, Nth(l.parallel, k, j - 1));
    }
    EndsAfter(l, pos, at, Nth(l.parallel, k, j));
  }

  /** Every position lies in one slice; the reader in charge is the one the slice was dealt to. */
  lemma {:induction false} OwnerOfSlice(l: Layout, pos: nat) returns (at: nat, j: nat)
    requires l.Valid() && pos < l.Len()
    ensures InSlice(l, at, pos)
    ensures Owner(l, pos) < l.parallel && at == Nth(l.parallel, Owner(l, pos), j)
  {
    var step := l.SliceStep();
    at := pos / step;
    assert pos == at * step + pos % step;
    assert (at + 1) * step == at * step + step;
    j := at / l.parallel;
    NthOfNumber(l.parallel, at);
  }

  /** The reader in charge of a position exists: only shares without any slice are dropped. */
  lemma {:induction false} OwnerExists(l: Layout, lists: seq<seq<Range>>, k: nat, pos: nat, at: nat)
    requires Shares(l, lists) && pos < l.Len() && InSlice(l, at, pos) && k < l.parallel && k <= at
    ensures k < |lists|
  {
    if |lists| <= k {
      MulMonotone(|lists|, at, l.SliceStep());
    }
  }

  /** And its first slice after the position is the one that holds it. */
  lemma {:induction false} OwnerHasSlice(l: Layout, list: seq<Range>, k: nat, pos: nat, at: nat, j: nat)
    requires l.Valid() && pos < l.Len() && InSlice(l, at, pos) && at == Nth(l.parallel, k, j)
    requires IsShare(list, l.Len(), l.SliceStep(), l.parallel, k)
    ensures var i := FirstAfter(list, pos); i < |list| && list[i].start <= pos
  {
    FirstAfterByNumber(l, list, k, pos, at);
    if j > 0 {
      NthBefore(l.parallel, k, j);
    }
    NthUnique(l.parallel, k, FirstAfter(list, pos), j, at);
  }

  /** The reader in charge of a position, its slice there, and the number of that slice. */
  lemma {:induction false} InCharge(l: Layout, lists: seq<seq<Range>>, pos: nat) returns (k: nat, at: nat, j: nat)
    requires l.Valid() && Shares(l, lists) && pos < l.Len()
    ensures k == Owner(l, pos) < |lists| && InSlice(l, at, pos) && at == Nth(l.parallel, k, j)
    ensures var i := FirstAfter(lists[k], pos); i < |lists[k]| && lists[k][i].start <= pos
  {
    k := Owner(l, pos);
    at, j := OwnerOfSlice(l, pos);
    OwnerExists(l, lists, k, pos, at);
    OwnerHasSlice(l, lists[k], k, pos, at, j);
  }

  /** No other reader has a slice that holds the position. */
  lemma {:induction false} OthersStartLater(l: Layout, list: seq<Range>, k: nat, pos: nat, at: nat, k0: nat, j0: nat)
    requires l.Valid() && pos < l.Len() && InSlice(l, at, pos)
    requires k < l.parallel && k0 < l.parallel && k != k0 && at == Nth(l.parallel, k0, j0)
    requires IsShare(list, l.Len(), l.SliceStep(), l.parallel, k)
    ensures var i := FirstAfter(list, pos); i < |list| ==> pos < list[i].start
  {
    var i := FirstAfter(list, pos);
    FirstAfterByNumber(l, list, k, pos, at);
    if Nth(l.parallel, k, i) == at {
      DivModUnique(at, l.parallel, i, k);
      DivModUnique(at, l.parallel, j0, k0);
    }
  }

  /** A chunk that starts at `at` reaches the position; `strict` asks for something left of the chunk. */
  predicate Covers(l: Layout, at: nat, pos: nat, strict: bool)
    requires l.Valid() && pos < l.Len()
  {
    at <= pos &&
    var end := at + ChunkLen(l.blocks, l.chunkSize, at);
    pos <= end && (strict ==> pos < end)
  }

  /** The position at which reading chunk after chunk from `from` has reached `e`. */
  function Reach(l: Layout, from: nat, e: nat): (a: nat)
    requires l.Valid()
    ensures from < e < l.Len() ==> e <= a <= l.Len() && a < e + l.chunkSize
    ensures from >= e ==> a == from
    decreases if from < l.Len() then l.Len() - from else 0
  {
    if from >= e || from >= l.Len() then from else Reach(l, from + ChunkLen(l.blocks, l.chunkSize, from), e)
  }

  /** The reader whose slices come just before those of reader `k`. */
  function Before(l: Layout, k: nat): nat
    requires l.Valid()
  {
    if k == 0 then l.parallel - 1 else k - 1
  }

  /** Where each reader reads next: the slice and the position, or None behind its last slice. */
  ghost function Seats(l: Layout, lists: seq<seq<Range>>, views: seq<View>): (seats: seq<Option<View>>)
    requires Shares(l, lists) && ValidBuf(l, lists, Buf(views, 0))
    ensures |seats| == |lists|
  {
    seq(|lists|, k requires 0 <= k < |lists| => Switch(lists[k], views[k]))
  }

  function SeatPos(l: Layout, seats: seq<Option<View>>, k: nat): nat {
    if k < |seats| && seats[k].Some? then seats[k].value.pos else l.Len()
  }

  /** A reader's next chunk belongs to its slice `j` and reaches the position. */
  predicate Seated(l: Layout, seat: Option<View>, j: nat, pos: nat, strict: bool)
    requires l.Valid() && pos < l.Len()
  {
    seat.Some? && seat.value.idx == Some(j) && Covers(l, seat.value.pos, pos, strict)
  }

  /** A reader's next chunk will do for the position at which the reader is asked for it first. For the reader in
      charge that is the position of the reassembly; for any other it is where reading gets to its next slice,
      coming from `before`, the place where the reader of the slice before reads next. A reader that has no slice
      left, or whose slice is passed over, is never asked. */
  predicate InPlace(l: Layout, list: seq<Range>, seat: Option<View>, before: nat, pos: nat, strict: bool)
    requires l.Valid() && pos < l.Len()
  {
    var j := FirstAfter(list, pos);
    j < |list| ==>
      if list[j].start <= pos then Seated(l, seat, j, pos, strict)
      else
        && before < list[j].start
        && var a := Reach(l, before, list[j].start);
        a >= l.Len() || Seated(l, seat, j, a, strict)
  }

  ghost predicate AllInPlace(l: Layout, lists: seq<seq<Range>>, seats: seq<Option<View>>, pos: nat, strict: bool)
    requires l.Valid() && |seats| == |lists| && pos < l.Len()
  {
    forall k :: 0 <= k < |lists| ==> InPlace(l, lists[k], seats[k], SeatPos(l, seats, Before(l, k)), pos, strict)
  }

  ghost predicate Aligned(l: Layout, lists: seq<seq<Range>>, b: Buf, strict: bool)
    requires l.Valid() && Shares(l, lists)
  {
    ValidBuf(l, lists, b) && (b.pos < l.Len() ==> AllInPlace(l, lists, Seats(l, lists, b.views), b.pos, strict))
  }

  /** Slice boundary number `no` is harmless: it is a block boundary, or its block goes on for a whole
      chunk or to the end of the file. */
  predicate BoundaryOk(l: Layout, no: nat)
    requires no * l.sliceSize < l.Len()
  {
    var e := no * l.sliceSize;
    Start(l.blocks, BlockAt(l.blocks, e)) == e || BlockEnd(l.blocks, e) >= Min(e + l.chunkSize, l.Len())
  }

  /** No slice boundary cuts a block shortly before its end. */
  ghost predicate Safe(l: Layout) {
    l.parallel == 1 || forall no: nat :: no > 0 && no * l.sliceSize < l.Len() ==> BoundaryOk(l, no)
  }

  /** A chunk that runs over the slice boundary `e` ends inside the chunk that starts there. */
  lemma {:induction false} Crossing(l: Layout, at: nat, e: nat, q: nat)
    requires l.Valid() && at < e <= q < l.Len() && q == at + ChunkLen(l.blocks, l.chunkSize, at)
    ensures Covers(l, e, q, false)
    ensures (Start(l.blocks, BlockAt(l.blocks, e)) == e || BlockEnd(l.blocks, e) >= Min(e + l.chunkSize, l.Len()))
              ==> Covers(l, e, q, true)
  {
    if e < q {
      BlockEndStable(l.blocks, at, e);
    }
  }

  /** However reading gets to the slice boundary number `no`, it ends inside the chunk that starts there. */
  lemma {:induction false} ReachCrosses(l: Layout, from: nat, no: nat, strict: bool)
    requires l.Valid() && l.parallel > 1 && from < no * l.sliceSize < l.Len() && (strict ==> Safe(l))
    ensures var a := Reach(l, from, no * l.sliceSize);
            a >= l.Len() || Covers(l, no * l.sliceSize, a, strict)
    decreases l.Len() - from
  {
    var e := no * l.sliceSize;
    var q := from + ChunkLen(l.blocks, l.chunkSize, from);
    if q < e {
      ReachCrosses(l, q, no, strict);
    } else if q < l.Len() {
      Crossing(l, from, e, q);
      assert strict ==> BoundaryOk(l, no);
    }
  }

  /** One chunk moves the position into the same slice or the next. */
  lemma {:induction false} SliceStepped(l: Layout, pos: nat, q: nat, at: nat) returns (to: nat)
    requires l.Valid() && pos <= q < l.Len() && q <= pos + l.chunkSize && InSlice(l, at, pos)
    ensures InSlice(l, to, q) && at <= to <= at + 1
    ensures l.parallel == 1 ==> to == at
  {
    var step := l.SliceStep();
    assert (at + 2) * step == (at + 1) * step + step;
    to := if q < (at + 1) * step then at else at + 1;
    if l.parallel == 1 && at > 0 {
      MulMonotone(1, at, step);
    }
  }

  /** How the first slice after the position changes when one chunk is delivered: it does not, except
      that the reader in charge may finish its slice; the slice after that starts later still. */
  lemma {:induction false} FirstAfterMoves(l: Layout, list: seq<Range>, k: nat, pos: nat, q: nat, at: nat)
    requires l.Valid() && pos <= q < l.Len() && q <= pos + l.chunkSize && InSlice(l, at, pos)
    requires IsShare(list, l.Len(), l.SliceStep(), l.parallel, k)
    ensures var i, j := FirstAfter(list, pos), FirstAfter(list, q);
            if i < |list| && list[i].start <= pos
            then j == i || (j == i + 1 && (j < |list| ==> q < list[j].start))
            else j == i
  {
    var i, j := FirstAfter(list, pos), FirstAfter(list, q);
    var to := SliceStepped(l, pos, q, at);
    FirstAfterByNumber(l, list, k, pos, at);
    FirstAfterByNumber(l, list, k, q, to);
    NthMoves(l.parallel, k, i, j, at, to);
  }

  /** Where a reader's first slice starts when the position has just moved past its start. */
  lemma {:induction false} StartPassed(l: Layout, list: seq<Range>, k: nat, pos: nat, q: nat, at: nat)
    requires l.Valid() && pos <= q < l.Len() && q <= pos + l.chunkSize && InSlice(l, at, pos)
    requires IsShare(list, l.Len(), l.SliceStep(), l.parallel, k)
    requires var i := FirstAfter(list, pos); i < |list| && pos < list[i].start <= q
    ensures l.parallel > 1
    ensures list[FirstAfter(list, pos)].start == (at + 1) * l.sliceSize
  {
    var i := FirstAfter(list, pos);
    var to := SliceStepped(l, pos, q, at);
    FirstAfterByNumber(l, list, k, pos, at);
    EndsAfter(l, q, to, Nth(l.parallel, k, i));
  }

  /** Slice numbers only: the first slice of reader `k` behind number `at` comes just after the first one, from `at`
      on, of the reader before it. */
  lemma {:induction false} NumberBefore(l: Layout, k: nat, i: nat, at: nat) returns (x: nat)
    requires l.Valid() && k < l.parallel && at < Nth(l.parallel, k, i) && (i > 0 ==> Nth(l.parallel, k, i - 1) < at)
    ensures Before(l, k) < l.parallel && Before(l, k) <= Nth(l.parallel, Before(l, k), x) == Nth(l.parallel, k, i) - 1
    ensures x > 0 ==> Nth(l.parallel, Before(l, k), x - 1) < at
  {
    x := if k == 0 then i - 1 else i;
    if i > 0 {
      NthBefore(l.parallel, k, i);
    }
    if x > 0 {
      NthBefore(l.parallel, Before(l, k), x);
    }
  }

  /** That reader is the one with number `at` exactly if the slice of `k` is the next one. */
  lemma {:induction false} BeforeByNumber(l: Layout, k: nat, i: nat, at: nat, k0: nat, j0: nat)
    requires l.Valid() && k < l.parallel && at < Nth(l.parallel, k, i) && (i > 0 ==> Nth(l.parallel, k, i - 1) < at)
    requires k0 < l.parallel && at == Nth(l.parallel, k0, j0)
    ensures Before(l, k) == k0 <==> Nth(l.parallel, k, i) == at + 1
  {
    var x := NumberBefore(l, k, i, at);
    if Before(l, k) == k0 {
      if j0 > 0 {
        NthBefore(l.parallel, k0, j0);
      }
      NthUnique(l.parallel, k0, x, j0, at);
    } else if Nth(l.parallel, k, i) == at + 1 {
      DivModUnique(at, l.parallel, j0, k0);
      DivModUnique(at, l.parallel, x, Before(l, k));
    }
  }

  /** The next slice of the reader before reader `k` is the one before the next slice of `k`. */
  lemma {:induction false} PredecessorSlice(l: Layout, lists: seq<seq<Range>>, k: nat, pos: nat, at: nat)
    requires l.Valid() && Shares(l, lists) && k < |lists| && pos < l.Len() && InSlice(l, at, pos)
    requires var i := FirstAfter(lists[k], pos); i < |lists[k]| && pos < lists[k][i].start
    ensures l.parallel > 1 && Before(l, k) < |lists| && Before(l, k) != k
    ensures var p := Before(l, k);
            var x := FirstAfter(lists[p], pos);
            x < |lists[p]| && lists[p][x].start + l.sliceSize == lists[k][FirstAfter(lists[k], pos)].start
  {
    var i := FirstAfter(lists[k], pos);
    var m := Nth(l.parallel, k, i);
    FirstAfterByNumber(l, lists[k], k, pos, at);
    StartOf(l, lists[k], k, i);
    hide IsShare, InSlice, FirstAfter, Nth, Layout.Len;
    SeveralReaders(l, m);
    var x := NumberBefore(l, k, i, at);
    StepBack(m, l.sliceSize);
    SliceStarts(l, m - 1);
    OwnerExists(l, lists, Before(l, k), (m - 1) * l.sliceSize, m - 1);
    HasNumber(l, lists[Before(l, k)], Before(l, k), pos, at, x);
  }

  lemma {:induction false} StepBack(m: nat, n: nat)
    requires m > 0
    ensures m * n == (m - 1) * n + n
  {
  }

  lemma {:induction false} StartOf(l: Layout, list: seq<Range>, k: nat, j: nat)
    requires IsShare(list, l.Len(), l.SliceStep(), l.parallel, k) && j < |list|
    ensures list[j].start == Nth(l.parallel, k, j) * l.SliceStep() < l.Len()
  {
  }

  lemma {:induction false} SliceStarts(l: Layout, no: nat)
    requires l.Valid() && l.parallel > 1
    ensures InSlice(l, no, no * l.sliceSize)
  {
    assert (no + 1) * l.sliceSize == no * l.sliceSize + l.sliceSize;
  }

  /** There is a second slice only for several readers. */
  lemma {:induction false} SeveralReaders(l: Layout, no: nat)
    requires l.Valid() && no > 0 && no * l.SliceStep() < l.Len()
    ensures l.parallel > 1
  {
    if l.parallel == 1 {
      MulMonotone(1, no, l.Len());
    }
  }

  /** The first slice of a reader after a position, given by its number. */
  lemma {:induction false} HasNumber(l: Layout, list: seq<Range>, k: nat, pos: nat, at: nat, x: nat)
    requires l.Valid() && pos < l.Len() && InSlice(l, at, pos)
    requires IsShare(list, l.Len(), l.SliceStep(), l.parallel, k)
    requires at <= Nth(l.parallel, k, x) && (x > 0 ==> Nth(l.parallel, k, x - 1) < at)
    requires Nth(l.parallel, k, x) * l.SliceStep() < l.Len()
    ensures FirstAfter(list, pos) == x < |list| && list[x].start == Nth(l.parallel, k, x) * l.SliceStep()
  {
    FirstAfterByNumber(l, list, k, pos, at);
    NthUnique(l.parallel, k, FirstAfter(list, pos), x, at);
  }

  /** It is the reader in charge exactly if the next slice of `k` follows the one that is being read. */
  lemma {:induction false} BeforeIsInCharge(l: Layout, list: seq<Range>, k: nat, pos: nat, at: nat, k0: nat, j0: nat)
    requires l.Valid() && pos < l.Len() && InSlice(l, at, pos)
    requires k < l.parallel && k0 < l.parallel && k != k0 && at == Nth(l.parallel, k0, j0)
    requires IsShare(list, l.Len(), l.SliceStep(), l.parallel, k) && FirstAfter(list, pos) < |list|
    ensures at < Nth(l.parallel, k, FirstAfter(list, pos))
    ensures Before(l, k) == k0 <==> list[FirstAfter(list, pos)].start == (at + 1) * l.SliceStep()
  {
    var i := FirstAfter(list, pos);
    var m := Nth(l.parallel, k, i);
    OthersStartLater(l, list, k, pos, at, k0, j0);
    FirstAfterByNumber(l, list, k, pos, at);
    StartOf(l, list, k, i);
    BeforeByNumber(l, k, i, at, k0, j0);
    NextByProduct(m, at, l.SliceStep());
    hide IsShare, InSlice, FirstAfter, Nth;
  }

  lemma {:induction false} NextByProduct(m: nat, at: nat, step: nat)
    requires m > at && step > 0
    ensures m == at + 1 <==> m * step == (at + 1) * step
  {
    if m != at + 1 {
      assert (at + 2) * step == (at + 1) * step + step;
      MulMonotone(at + 2, m, step);
    }
  }

  /** A chunk of the reader in charge makes no difference to another reader: it will be asked for its next chunk
      at the same position. */
  lemma {:induction false} OtherStays(l: Layout, list: seq<Range>, k: nat, seat: Option<View>, before: nat,
                                      before': nat, pos: nat, from: nat, q: nat, at: nat, k0: nat, j0: nat,
                                      strict: bool)
    requires l.Valid() && InSlice(l, at, pos) && IsShare(list, l.Len(), l.SliceStep(), l.parallel, k)
    requires from <= pos <= q < l.Len() && q == from + ChunkLen(l.blocks, l.chunkSize, from)
    requires k < l.parallel && k0 < l.parallel && k != k0 && at == Nth(l.parallel, k0, j0)
    requires if Before(l, k) == k0 then before == from && (q < (at + 1) * l.SliceStep() ==> before' == q)
             else before' == before
    ensures InPlace(l, list, seat, before, pos, strict) <==> InPlace(l, list, seat, before', q, strict)
  {
    var i := FirstAfter(list, pos);
    FirstAfterMoves(l, list, k, pos, q, at);
    if i < |list| {
      OthersStartLater(l, list, k, pos, at, k0, j0);
      BeforeIsInCharge(l, list, k, pos, at, k0, j0);
      if list[i].start <= q {
        StartPassed(l, list, k, pos, q, at);
      }
      hide IsShare, InSlice, FirstAfter, ChunkLen;
    }
  }

  /** The reader in charge delivers from the position to the end of its chunk. */
  lemma {:induction false} OwnerDelivers(l: Layout, list: seq<Range>, v: View, pos: nat, strict: bool)
    returns (from: nat)
    requires l.Valid() && list != [] && ValidView(l, list, v) && pos < l.Len()
    requires Seated(l, Switch(list, v), FirstAfter(list, pos), pos, strict)
    ensures from <= pos && from == Switch(list, v).value.pos
    ensures var q := from + ChunkLen(l.blocks, l.chunkSize, from);
            && pos <= q <= l.Len() && (strict ==> pos < q)
            && ReadView(l, list, v) == (FileChunk(from, l.File()[from..q]), View(Some(FirstAfter(list, pos)), q))
            && Trim(pos, FileChunk(from, l.File()[from..q])) == Ok(l.File()[pos..q])
  {
    from := Switch(list, v).value.pos;
    var q := from + ChunkLen(l.blocks, l.chunkSize, from);
    SliceOfSlice(l.File(), from, q, pos - from, q - pos);
  }

  /** And it is in place for what comes next, if the reader before it is in the slice before its next one. */
  lemma {:induction false} OwnerMovesOn(l: Layout, list: seq<Range>, k: nat, before: nat, pos: nat, q: nat, at: nat,
                                        strict: bool)
    requires l.Valid() && pos <= q < l.Len() && q <= pos + l.chunkSize && InSlice(l, at, pos) && list != []
    requires IsShare(list, l.Len(), l.SliceStep(), l.parallel, k) && (strict ==> Safe(l))
    requires var i := FirstAfter(list, pos); i < |list| && list[i].start <= pos
    requires var j := FirstAfter(list, q); j < |list| && q < list[j].start ==> before < list[j].start
    ensures InPlace(l, list, Switch(list, View(Some(FirstAfter(list, pos)), q)), before, q, strict)
  {
    var i, j := FirstAfter(list, pos), FirstAfter(list, q);
    FirstAfterMoves(l, list, k, pos, q, at);
    if i < j < |list| {
      StartOf(l, list, k, j);
      assert Nth(l.parallel, k, j) > 0;
      hide IsShare, InSlice, FirstAfter, Nth, Safe, Reach;
      SeveralReaders(l, Nth(l.parallel, k, j));
      ReachCrosses(l, before, Nth(l.parallel, k, j), strict);
    }
  }

  /** A reader in place before its next slice is there with its next chunk. */
  lemma {:induction false} PredecessorBelow(l: Layout, lists: seq<seq<Range>>, seats: seq<Option<View>>, k: nat, q: nat,
                                            at: nat, strict: bool)
    requires l.Valid() && Shares(l, lists) && |seats| == |lists| && k < |lists| && q < l.Len() && InSlice(l, at, q)
    requires forall i :: 0 <= i < |lists| && i != k ==>
               InPlace(l, lists[i], seats[i], SeatPos(l, seats, Before(l, i)), q, strict)
    requires var i := FirstAfter(lists[k], q); i < |lists[k]| && q < lists[k][i].start
    ensures SeatPos(l, seats, Before(l, k)) < lists[k][FirstAfter(lists[k], q)].start
  {
    PredecessorSlice(l, lists, k, q, at);
    var p := Before(l, k);
    var e := lists[k][FirstAfter(lists[k], q)].start;
    assert InPlace(l, lists[p], seats[p], SeatPos(l, seats, Before(l, p)), q, strict);
  }

  /** What the seats are after reader `k` delivered up to `q`. */
  lemma {:induction false} SeatsAfterRead(l: Layout, lists: seq<seq<Range>>, views: seq<View>, k: nat, v: View)
    requires Shares(l, lists) && ValidBuf(l, lists, Buf(views, 0)) && k < |lists| && ValidView(l, lists[k], v)
    ensures ValidBuf(l, lists, Buf(views[k := v], 0))
    ensures Seats(l, lists, views[k := v]) == Seats(l, lists, views)[k := Switch(lists[k], v)]
  {
  }

  /** All readers are in place after a chunk of the reader in charge if and only if they were before it. */
  lemma {:induction false} StepInPlace(l: Layout, lists: seq<seq<Range>>, seats: seq<Option<View>>, k: nat, j0: nat,
                                       pos: nat, from: nat, q: nat, at: nat, strict: bool)
    requires l.Valid() && Shares(l, lists) && |seats| == |lists| && (strict ==> Safe(l))
    requires from <= pos <= q < l.Len() && q == from + ChunkLen(l.blocks, l.chunkSize, from)
    requires k < |lists| && InSlice(l, at, pos) && at == Nth(l.parallel, k, j0)
    requires var i := FirstAfter(lists[k], pos);
             && i < |lists[k]| && lists[k][i].start <= pos
             && Seated(l, seats[k], i, pos, strict) && from == seats[k].value.pos
    ensures var seats' := seats[k := Switch(lists[k], View(Some(FirstAfter(lists[k], pos)), q))];
            AllInPlace(l, lists, seats, pos, strict) <==> AllInPlace(l, lists, seats', q, strict)
  {
    var seats' := seats[k := Switch(lists[k], View(Some(FirstAfter(lists[k], pos)), q))];
    OwnSliceEnd(l, lists[k], k, pos, at);
    forall i | 0 <= i < |lists| && i != k
      ensures InPlace(l, lists[i], seats[i], SeatPos(l, seats, Before(l, i)), pos, strict)
              <==> InPlace(l, lists[i], seats'[i], SeatPos(l, seats', Before(l, i)), q, strict)
    {
      OtherStays(l, lists[i], i, seats[i], SeatPos(l, seats, Before(l, i)), SeatPos(l, seats', Before(l, i)),
                 pos, from, q, at, k, j0, strict);
    }
    if AllInPlace(l, lists, seats, pos, strict) {
      var to := SliceStepped(l, pos, q, at);
      var j := FirstAfter(lists[k], q);
      if j < |lists[k]| && q < lists[k][j].start {
        PredecessorBelow(l, lists, seats', k, q, to, strict);
      }
      OwnerMovesOn(l, lists[k], k, SeatPos(l, seats', Before(l, k)), pos, q, at, strict);
    }
  }

  /** The slice of the reader in charge ends where the next one starts, or at the end of the file. */
  lemma {:induction false} OwnSliceEnd(l: Layout, list: seq<Range>, k: nat, pos: nat, at: nat)
    requires l.Valid() && pos < l.Len() && InSlice(l, at, pos)
    requires IsShare(list, l.Len(), l.SliceStep(), l.parallel, k)
    requires var i := FirstAfter(list, pos); i < |list| && list[i].start <= pos
    ensures list[FirstAfter(list, pos)] == SliceNo(l.Len(), l.SliceStep(), at)
  {
    FirstAfterByNumber(l, list, k, pos, at);
  }

  lemma {:induction false} InChargeSeated(l: Layout, lists: seq<seq<Range>>, b: Buf, k: nat, strict: bool)
    requires l.Valid() && Shares(l, lists) && Aligned(l, lists, b, strict) && b.pos < l.Len() && k < |lists|
    requires var i := FirstAfter(lists[k], b.pos); i < |lists[k]| && lists[k][i].start <= b.pos
    ensures Seated(l, Switch(lists[k], b.views[k]), FirstAfter(lists[k], b.pos), b.pos, strict)
  {
    var seats := Seats(l, lists, b.views);
    assert InPlace(l, lists[k], seats[k], SeatPos(l, seats, Before(l, k)), b.pos, strict);
  }

  /** A read of the reassembly returns exactly the next bytes of the file, and never goes wrong. */
  lemma {:induction false} ReadAligned(l: Layout, lists: seq<seq<Range>>, b: Buf, strict: bool)
    requires l.Valid() && Shares(l, lists) && Aligned(l, lists, b, strict) && (strict ==> Safe(l))
    ensures var (r, b') := ReadBuf(l, lists, b);
            && Aligned(l, lists, b', strict)
            && b.pos <= b'.pos && (b.pos < l.Len() ==> b'.pos <= l.Len())
            && (b.pos < l.Len() ==> r == Ok(l.File()[b.pos..b'.pos]) && (strict ==> b.pos < b'.pos))
            && (b.pos >= l.Len() ==> r == Ok([]) && b' == b)
  {
    if b.pos < l.Len() {
      var k, at, j := InCharge(l, lists, b.pos);
      InChargeSeated(l, lists, b, k, strict);
      ReadSeated(l, lists, b, k, at, j, strict);
    }
  }

  /** A read when the reader in charge is ready: it returns the next bytes of the file, and all readers are in place
      afterwards if and only if they were. */
  lemma {:induction false} ReadSeated(l: Layout, lists: seq<seq<Range>>, b: Buf, k: nat, at: nat, j: nat, strict: bool)
    requires l.Valid() && Shares(l, lists) && ValidBuf(l, lists, b) && (strict ==> Safe(l))
    requires b.pos < l.Len() && k < |lists| && InSlice(l, at, b.pos) && at == Nth(l.parallel, k, j)
    requires var i := FirstAfter(lists[k], b.pos); i < |lists[k]| && lists[k][i].start <= b.pos
    requires Seated(l, Switch(lists[k], b.views[k]), FirstAfter(lists[k], b.pos), b.pos, strict)
    ensures var (r, b') := ReadFrom(l, lists, b, k);
            && b.pos <= b'.pos <= l.Len() && (strict ==> b.pos < b'.pos)
            && r == Ok(l.File()[b.pos..b'.pos])
            && ValidBuf(l, lists, b') && (Aligned(l, lists, b', strict) <==> Aligned(l, lists, b, strict))
  {
    var from := OwnerDelivers(l, lists[k], b.views[k], b.pos, strict);
    var q := from + ChunkLen(l.blocks, l.chunkSize, from);
    var v := View(Some(FirstAfter(lists[k], b.pos)), q);
    SeatsAfterRead(l, lists, b.views, k, v);
    Delivered(l, lists, b, k, from, q);
    hide IsShare, InSlice, ReadFrom, ReadView, Trim, FirstAfter, Layout.File, AllInPlace, Safe, Nth;
    if q < l.Len() {
      StepInPlace(l, lists, Seats(l, lists, b.views), k, j, b.pos, from, q, at, strict);
    } else {
      LastInPlace(l, lists, Seats(l, lists, b.views), k, j, b.pos, from, at, strict);
    }
  }

  /** If the chunk of the reader in charge goes to the end of the file, no other reader is asked any more. */
  lemma {:induction false} LastInPlace(l: Layout, lists: seq<seq<Range>>, seats: seq<Option<View>>, k: nat, j0: nat,
                                       pos: nat, from: nat, at: nat, strict: bool)
    requires l.Valid() && Shares(l, lists) && |seats| == |lists|
    requires from <= pos < l.Len() && l.Len() == from + ChunkLen(l.blocks, l.chunkSize, from)
    requires k < |lists| && InSlice(l, at, pos) && at == Nth(l.parallel, k, j0)
    requires var i := FirstAfter(lists[k], pos);
             && i < |lists[k]| && lists[k][i].start <= pos
             && Seated(l, seats[k], i, pos, strict) && from == seats[k].value.pos
    ensures AllInPlace(l, lists, seats, pos, strict)
  {
    forall i | 0 <= i < |lists| && i != k
      ensures InPlace(l, lists[i], seats[i], SeatPos(l, seats, Before(l, i)), pos, strict)
    {
      var j := FirstAfter(lists[i], pos);
      if j < |lists[i]| {
        OthersStartLater(l, lists[i], i, pos, at, k, j0);
        BeforeIsInCharge(l, lists[i], i, pos, at, k, j0);
        LastSlice(l, lists[i], i, pos, at, j);
      }
    }
  }

  /** Within a chunk of the end of the file there is at most one more slice. */
  lemma {:induction false} LastSlice(l: Layout, list: seq<Range>, k: nat, pos: nat, at: nat, j: nat)
    requires l.Valid() && pos < l.Len() <= pos + l.chunkSize && InSlice(l, at, pos)
    requires IsShare(list, l.Len(), l.SliceStep(), l.parallel, k)
    requires j < |list| && pos < list[j].start && at < Nth(l.parallel, k, j)
    ensures list[j].start == (at + 1) * l.SliceStep()
  {
    var m := Nth(l.parallel, k, j);
    SeveralReaders(l, m);
    if m > at + 1 {
      assert (at + 2) * l.sliceSize == (at + 1) * l.sliceSize + l.sliceSize;
      MulMonotone(at + 2, m, l.sliceSize);
    }
  }

  /** Reader `k` has a chunk, the chunk fits the position, and what is left of it are the next bytes of
      the file; with them delivered every reader is in place again. */
  ghost predicate Delivers(l: Layout, lists: seq<seq<Range>>, b: Buf, k: nat, strict: bool)
    requires l.Valid() && Shares(l, lists) && ValidBuf(l, lists, b) && k < |lists|
  {
    var (chunk, v) := ReadView(l, lists[k], b.views[k]);
    && chunk.data != [] && Trim(b.pos, chunk).Ok?
    && var bytes := Trim(b.pos, chunk).value;
    && b.pos + |bytes| <= l.Len() && bytes == l.File()[b.pos..b.pos + |bytes|] && (strict ==> bytes != [])
    && Aligned(l, lists, Buf(b.views[k := v], b.pos + |bytes|), strict)
  }

  lemma {:induction false} OwnerDeliversNext(l: Layout, lists: seq<seq<Range>>, b: Buf, strict: bool)
    requires l.Valid() && Shares(l, lists) && Aligned(l, lists, b, strict) && (strict ==> Safe(l)) && b.pos < l.Len()
    ensures Owner(l, b.pos) < |lists| && Delivers(l, lists, b, Owner(l, b.pos), strict)
  {
    var k, at, j := InCharge(l, lists, b.pos);
    InChargeSeated(l, lists, b, k, strict);
    DeliversFrom(l, lists, b, k, at, j, strict);
  }

  lemma {:induction false} DeliversFrom(l: Layout, lists: seq<seq<Range>>, b: Buf, k: nat, at: nat, j: nat,
                                        strict: bool)
    requires l.Valid() && Shares(l, lists) && Aligned(l, lists, b, strict) && (strict ==> Safe(l))
    requires b.pos < l.Len() && k < |lists| && InSlice(l, at, b.pos) && at == Nth(l.parallel, k, j)
    requires var i := FirstAfter(lists[k], b.pos); i < |lists[k]| && lists[k][i].start <= b.pos
    requires Seated(l, Switch(lists[k], b.views[k]), FirstAfter(lists[k], b.pos), b.pos, strict)
    ensures Delivers(l, lists, b, k, strict)
  {
    hide AllInPlace, Safe, IsShare, InSlice, Layout.File;
    ReadSeated(l, lists, b, k, at, j, strict);
    var from := OwnerDelivers(l, lists[k], b.views[k], b.pos, strict);
  }

  /** What a read does, put together from its parts. */
  lemma {:induction false} Delivered(l: Layout, lists: seq<seq<Range>>, b: Buf, k: nat, from: nat, q: nat)
    requires l.Valid() && Shares(l, lists) && ValidBuf(l, lists, b) && k < |lists|
    requires from <= b.pos <= q <= l.Len() && FirstAfter(lists[k], b.pos) < |lists[k]|
    requires var v := View(Some(FirstAfter(lists[k], b.pos)), q);
             && ReadView(l, lists[k], b.views[k]) == (FileChunk(from, l.File()[from..q]), v)
             && Trim(b.pos, FileChunk(from, l.File()[from..q])) == Ok(l.File()[b.pos..q])
    ensures var v := View(Some(FirstAfter(lists[k], b.pos)), q);
            ReadFrom(l, lists, b, k) == (Ok(l.File()[b.pos..q]), Buf(b.views[k := v], q))
  {
  }

  /** Slices are never empty. */
  lemma {:induction false} ShareRange(l: Layout, list: seq<Range>, k: nat, j: nat)
    requires l.Valid() && IsShare(list, l.Len(), l.SliceStep(), l.parallel, k) && j < |list|
    ensures list[j].start < list[j].end <= l.Len()
  {
    var no := Nth(l.parallel, k, j);
    assert (no + 1) * l.SliceStep() == no * l.SliceStep() + l.SliceStep();
  }

  /** Where a seek to `pos` makes a reader read next. */
  function Landing(list: seq<Range>, pos: nat): Option<View> {
    var i := FirstAfter(list, pos);
    if i < |list| then Some(View(Some(i), Max(pos, list[i].start))) else None
  }

  lemma {:induction false} SeekLands(l: Layout, list: seq<Range>, k: nat, pos: nat)
    requires l.Valid() && list != [] && IsShare(list, l.Len(), l.SliceStep(), l.parallel, k)
    ensures ValidView(l, list, SeekView(l, list, pos)) && Switch(list, SeekView(l, list, pos)) == Landing(list, pos)
  {
    var i := FirstAfter(list, pos);
    ShareRange(l, list, k, if i < |list| then i else |list| - 1);
  }

  /** Readers that have all landed for the same position are in place for it. */
  lemma {:induction false} LandedInPlace(l: Layout, lists: seq<seq<Range>>, seats: seq<Option<View>>, pos: nat,
                                         strict: bool)
    requires l.Valid() && Shares(l, lists) && |seats| == |lists| && pos < l.Len() && (strict ==> Safe(l))
    requires forall k :: 0 <= k < |lists| ==> seats[k] == Landing(lists[k], pos)
    ensures AllInPlace(l, lists, seats, pos, strict)
  {
    var at, _ := OwnerOfSlice(l, pos);
    forall k | 0 <= k < |lists|
      ensures InPlace(l, lists[k], seats[k], SeatPos(l, seats, Before(l, k)), pos, strict)
    {
      var i := FirstAfter(lists[k], pos);
      if i < |lists[k]| && pos < lists[k][i].start {
        PredecessorSlice(l, lists, k, pos, at);
        ReachCrosses(l, SeatPos(l, seats, Before(l, k)), Nth(l.parallel, k, i), strict);
      }
    }
  }

  /** After a seek every reader is in place, wherever the seek went. */
  lemma {:induction false} SeekAligned(l: Layout, lists: seq<seq<Range>>, b: Buf, pos: nat, strict: bool)
    requires l.Valid() && Shares(l, lists) && (strict ==> Safe(l))
    ensures Aligned(l, lists, SeekBuf(l, lists, b, pos), strict)
  {
    var s := SeekBuf(l, lists, b, pos);
    forall k | 0 <= k < |lists|
      ensures ValidView(l, lists[k], s.views[k]) && Switch(lists[k], s.views[k]) == Landing(lists[k], pos)
    {
      SeekLands(l, lists[k], k, pos);
    }
    if pos < l.Len() {
      LandedInPlace(l, lists, Seats(l, lists, s.views), pos, strict);
    }
  }

  lemma {:induction false} InitAligned(l: Layout, lists: seq<seq<Range>>, strict: bool)
    requires l.Valid() && Shares(l, lists) && (strict ==> Safe(l))
    ensures Aligned(l, lists, InitBuf(lists), strict)
  {
    var b := InitBuf(lists);
    if l.Len() > 0 {
      forall k | 0 <= k < |lists| ensures Switch(lists[k], b.views[k]) == Landing(lists[k], 0) {
        ShareRange(l, lists[k], k, 0);
      }
      LandedInPlace(l, lists, Seats(l, lists, b.views), 0, strict);
    }
  }

  /** The calls a client makes. */
  datatype BufOp = ReadOp | SeekOp(pos: nat)

  /** The state after a run of calls. No call of a run fails, so every run goes through. */
  ghost function RunBuf(l: Layout, lists: seq<seq<Range>>, b: Buf, ops: seq<BufOp>): (b': Buf)
    requires l.Valid() && Shares(l, lists) && Aligned(l, lists, b, false)
    ensures Aligned(l, lists, b', false)
    decreases |ops|
  {
    if ops == [] then b
    else match ops[0]
      case ReadOp =>
        ReadAligned(l, lists, b, false);
        RunBuf(l, lists, ReadBuf(l, lists, b).1, ops[1..])
      case SeekOp(p) =>
        SeekAligned(l, lists, b, p, false);
        RunBuf(l, lists, SeekBuf(l, lists, b, p), ops[1..])
  }

  lemma {:induction false} RunStrict(l: Layout, lists: seq<seq<Range>>, b: Buf, ops: seq<BufOp>)
    requires l.Valid() && Shares(l, lists) && Aligned(l, lists, b, false)
    requires Safe(l) && Aligned(l, lists, b, true)
    ensures Aligned(l, lists, RunBuf(l, lists, b, ops), true)
    decreases |ops|
  {
    if ops != [] {
      match ops[0]
      case ReadOp =>
        ReadAligned(l, lists, b, false);
        ReadAligned(l, lists, b, true);
        RunStrict(l, lists, ReadBuf(l, lists, b).1, ops[1..]);
      case SeekOp(p) =>
        SeekAligned(l, lists, b, p, false);
        SeekAligned(l, lists, b, p, true);
        RunStrict(l, lists, SeekBuf(l, lists, b, p), ops[1..]);
    }
  }

  /** A read that returns nothing although bytes remain. */
  ghost predicate StallsAfter(l: Layout, lists: seq<seq<Range>>, ops: seq<BufOp>)
    requires l.Valid() && Shares(l, lists) && Aligned(l, lists, InitBuf(lists), false)
  {
    var b := RunBuf(l, lists, InitBuf(lists), ops);
    b.pos < l.Len() && ReadBuf(l, lists, b).0 == Ok([])
  }

  /** A boundary that is not harmless, and the position just before it. */
  lemma {:induction false} BadBoundary(l: Layout, no: nat) returns (e: nat, end: nat)
    requires l.Valid() && no > 0 && no * l.sliceSize < l.Len() && !BoundaryOk(l, no)
    ensures 0 < e < end < l.Len() && e == no * l.sliceSize && end < e + l.chunkSize
    ensures e - 1 + ChunkLen(l.blocks, l.chunkSize, e - 1) == end == e + ChunkLen(l.blocks, l.chunkSize, e)
  {
    e := no * l.sliceSize;
    MulMonotone(1, no, l.sliceSize);
    end := BlockEnd(l.blocks, e);
    assert Holds(l.blocks, BlockAt(l.blocks, e), e - 1);
    HoldsUnique(l.blocks, BlockAt(l.blocks, e), BlockAt(l.blocks, e - 1), e - 1);
  }

  /** The first read after a seek starts at the position sought. */
  lemma {:induction false} ReadAfterSeek(l: Layout, lists: seq<seq<Range>>, b: Buf, k: nat, pos: nat)
    requires l.Valid() && Shares(l, lists) && pos < l.Len() && k < |lists|
    requires var i := FirstAfter(lists[k], pos); i < |lists[k]| && lists[k][i].start <= pos
    requires ValidBuf(l, lists, SeekBuf(l, lists, b, pos))
    ensures var q := pos + ChunkLen(l.blocks, l.chunkSize, pos);
            var v := View(Some(FirstAfter(lists[k], pos)), q);
            ReadFrom(l, lists, SeekBuf(l, lists, b, pos), k).1 == Buf(SeekBuf(l, lists, b, pos).views[k := v], q)
  {
    assert SeekBuf(l, lists, b, pos).views[k] == View(Some(FirstAfter(lists[k], pos)), pos);
  }

  /** A chunk that was delivered in full by the reader before leaves nothing. */
  lemma {:induction false} ReadCoveredChunk(l: Layout, lists: seq<seq<Range>>, b: Buf, k: nat, i: nat, e: nat)
    requires l.Valid() && Shares(l, lists) && ValidBuf(l, lists, b) && k < |lists|
    requires i < |lists[k]| && b.views[k] == View(Some(i), e) && e < lists[k][i].end && e < l.Len()
    requires b.pos == e + ChunkLen(l.blocks, l.chunkSize, e)
    ensures ReadFrom(l, lists, b, k).0 == Ok([])
  {
  }

  /** Consecutive slices belong to different readers. */
  lemma {:induction false} NeighboursDiffer(parallel: nat, k: nat, j: nat, k0: nat, j0: nat)
    requires parallel > 1 && Nth(parallel, k, j) == Nth(parallel, k0, j0) + 1
    ensures k != k0
  {
    if j0 < j {
      MulMonotone(j0 + 1, j, parallel);
    } else {
      MulMonotone(j, j0, parallel);
    }
  }

  /** The reader whose slice starts at a boundary `e` stands there after a seek to just before it. */
  lemma {:induction false} NextReader(l: Layout, list: seq<Range>, k: nat, j: nat, k0: nat, j0: nat, at: nat, e: nat,
                                      end: nat)
    requires l.Valid() && k < l.parallel && k0 < l.parallel && k != k0
    requires IsShare(list, l.Len(), l.SliceStep(), l.parallel, k)
    requires 0 < e < end < l.Len() && end < e + l.chunkSize && e == (at + 1) * l.sliceSize
    requires InSlice(l, at, e - 1) && at == Nth(l.parallel, k0, j0)
    requires InSlice(l, at + 1, end) && at + 1 == Nth(l.parallel, k, j)
    ensures var i := FirstAfter(list, e - 1); i < |list| && list[i].start == e
  {
    OwnerHasSlice(l, list, k, end, at + 1, j);
    OthersStartLater(l, list, k, e - 1, at, k0, j0);
    FirstAfterMoves(l, list, k, e - 1, end, at);
    StartPassed(l, list, k, e - 1, end, at);
  }

  lemma {:induction false} InSliceUnique(l: Layout, a: nat, b: nat, pos: nat)
    requires InSlice(l, a, pos) && InSlice(l, b, pos)
    ensures a == b
  {
    if a < b {
      MulMonotone(a + 1, b, l.SliceStep());
    } else if b < a {
      MulMonotone(b + 1, a, l.SliceStep());
    }
  }

  /** From the position before a bad boundary, the second read returns nothing. */
  lemma {:induction false} SecondReadEmpty(l: Layout, lists: seq<seq<Range>>, b: Buf, no: nat, e: nat, end: nat)
    requires l.Valid() && Shares(l, lists) && l.parallel > 1
    requires no > 0 && 0 < e < end < l.Len() && e == no * l.sliceSize && end < e + l.chunkSize
    requires e - 1 + ChunkLen(l.blocks, l.chunkSize, e - 1) == end == e + ChunkLen(l.blocks, l.chunkSize, e)
    requires Aligned(l, lists, SeekBuf(l, lists, b, e - 1), false)
    ensures Owner(l, e - 1) < |lists| && Owner(l, end) < |lists|
    ensures var b2 := ReadFrom(l, lists, SeekBuf(l, lists, b, e - 1), Owner(l, e - 1)).1;
            b2.pos == end && ValidBuf(l, lists, b2) && ReadFrom(l, lists, b2, Owner(l, end)).0 == Ok([])
  {
    var at0, j0 := OwnerOfSlice(l, e - 1);
    var at, j := OwnerOfSlice(l, end);
    BoundarySlices(l, no, e, end);
    InSliceUnique(l, at0, no - 1, e - 1);
    InSliceUnique(l, at, no, end);
    OwnerExists(l, lists, Owner(l, e - 1), e - 1, at0);
    OwnerExists(l, lists, Owner(l, end), end, at);
    SecondReadFromNext(l, lists, b, Owner(l, e - 1), j0, Owner(l, end), j, at0, e, end);
  }

  lemma {:induction false} SecondReadFromNext(
    l: Layout, lists: seq<seq<Range>>, b: Buf, k0: nat, j0: nat, k: nat, j: nat, at: nat, e: nat, end: nat)
    requires l.Valid() && Shares(l, lists) && l.parallel > 1 && k < |lists| && k0 < |lists|
    requires 0 < e < end < l.Len() && end < e + l.chunkSize && e == (at + 1) * l.sliceSize
    requires e - 1 + ChunkLen(l.blocks, l.chunkSize, e - 1) == end == e + ChunkLen(l.blocks, l.chunkSize, e)
    requires Aligned(l, lists, SeekBuf(l, lists, b, e - 1), false)
    requires InSlice(l, at, e - 1) && at == Nth(l.parallel, k0, j0)
    requires InSlice(l, at + 1, end) && at + 1 == Nth(l.parallel, k, j)
    ensures var b2 := ReadFrom(l, lists, SeekBuf(l, lists, b, e - 1), k0).1;
            b2.pos == end && ValidBuf(l, lists, b2) && ReadFrom(l, lists, b2, k).0 == Ok([])
  {
    hide IsShare, InSlice, Nth, FirstAfter, ChunkLen, AllInPlace;
    NeighboursDiffer(l.parallel, k, j, k0, j0);
    OwnerHasSlice(l, lists[k0], k0, e - 1, at, j0);
    NextReader(l, lists[k], k, j, k0, j0, at, e, end);
    ShareRange(l, lists[k], k, FirstAfter(lists[k], e - 1));
    TwoReads(l, lists, b, k0, k, e, end);
  }

  lemma {:induction false} TwoReads(l: Layout, lists: seq<seq<Range>>, b: Buf, k0: nat, k: nat, e: nat, end: nat)
    requires l.Valid() && Shares(l, lists) && k < |lists| && k0 < |lists| && k != k0 && 0 < e < end < l.Len()
    requires e - 1 + ChunkLen(l.blocks, l.chunkSize, e - 1) == end == e + ChunkLen(l.blocks, l.chunkSize, e)
    requires ValidBuf(l, lists, SeekBuf(l, lists, b, e - 1))
    requires var i := FirstAfter(lists[k0], e - 1); i < |lists[k0]| && lists[k0][i].start <= e - 1
    requires var i := FirstAfter(lists[k], e - 1); i < |lists[k]| && lists[k][i].start == e < lists[k][i].end
    ensures var b2 := ReadFrom(l, lists, SeekBuf(l, lists, b, e - 1), k0).1;
            b2.pos == end && ValidBuf(l, lists, b2) && ReadFrom(l, lists, b2, k).0 == Ok([])
  {
    hide InPlace, IsShare, FirstAfter, Layout.File, ReadView;
    ReadAfterSeek(l, lists, b, k0, e - 1);
    var b2 := ReadFrom(l, lists, SeekBuf(l, lists, b, e - 1), k0).1;
    ReadCoveredChunk(l, lists, b2, k, FirstAfter(lists[k], e - 1), e);
  }

  lemma {:induction false} BoundarySlices(l: Layout, no: nat, e: nat, end: nat)
    requires l.Valid() && l.parallel > 1 && no > 0 && e == no * l.sliceSize && e <= end < e + l.chunkSize && e > 0
    ensures InSlice(l, no - 1, e - 1) && InSlice(l, no, end)
  {
    assert (no - 1) * l.sliceSize == e - l.sliceSize;
    assert (no + 1) * l.sliceSize == e + l.sliceSize;
  }

  lemma {:induction false} RunSeekRead(l: Layout, lists: seq<seq<Range>>, b: Buf, pos: nat)
    requires l.Valid() && Shares(l, lists) && Aligned(l, lists, b, false)
    ensures Aligned(l, lists, SeekBuf(l, lists, b, pos), false)
    ensures RunBuf(l, lists, b, [SeekOp(pos), ReadOp]) == ReadBuf(l, lists, SeekBuf(l, lists, b, pos)).1
  {
    SeekAligned(l, lists, b, pos, false);
    var b1 := SeekBuf(l, lists, b, pos);
    ReadAligned(l, lists, b1, false);
    var b2 := ReadBuf(l, lists, b1).1;
    var ops: seq<BufOp> := [SeekOp(pos), ReadOp];
    assert ops[1..] == [ReadOp];
    assert [ReadOp][1..] == [];
    assert RunBuf(l, lists, b2, []) == b2;
    assert RunBuf(l, lists, b1, [ReadOp]) == b2;
  }

  lemma {:induction false} StallsFrom(l: Layout, lists: seq<seq<Range>>, b: Buf, k: nat, pos: nat, k2: nat)
    requires l.Valid() && Shares(l, lists) && Aligned(l, lists, b, false)
    requires Aligned(l, lists, SeekBuf(l, lists, b, pos), false)
    requires pos < l.Len() && k == Owner(l, pos) < |lists|
    requires var b2 := ReadFrom(l, lists, SeekBuf(l, lists, b, pos), k).1;
             && ValidBuf(l, lists, b2) && b2.pos < l.Len() && k2 == Owner(l, b2.pos) < |lists|
             && ReadFrom(l, lists, b2, k2).0 == Ok([])
    ensures var b2 := RunBuf(l, lists, b, [SeekOp(pos), ReadOp]);
            b2.pos < l.Len() && ReadBuf(l, lists, b2).0 == Ok([])
  {
    RunSeekRead(l, lists, b, pos);
  }

  lemma {:induction false} StallsAt(l: Layout, lists: seq<seq<Range>>, b: Buf, no: nat, e: nat, end: nat)
    requires l.Valid() && Shares(l, lists) && l.parallel > 1 && Aligned(l, lists, b, false)
    requires no > 0 && 0 < e < end < l.Len() && e == no * l.sliceSize && end < e + l.chunkSize
    requires e - 1 + ChunkLen(l.blocks, l.chunkSize, e - 1) == end == e + ChunkLen(l.blocks, l.chunkSize, e)
    ensures var b2 := RunBuf(l, lists, b, [SeekOp(e - 1), ReadOp]);
            b2.pos < l.Len() && ReadBuf(l, lists, b2).0 == Ok([])
  {
    hide Shares, Aligned, SeekBuf, ReadFrom, ReadBuf, RunBuf, ValidBuf;
    SeekAligned(l, lists, b, e - 1, false);
    SecondReadEmpty(l, lists, b, no, e, end);
    StallsFrom(l, lists, b, Owner(l, e - 1), e - 1, Owner(l, end));
  }

  lemma {:induction false} BadBoundaryStalls(l: Layout, lists: seq<seq<Range>>, no: nat)
    requires l.Valid() && Shares(l, lists) && l.parallel > 1
    requires no > 0 && no * l.sliceSize < l.Len() && !BoundaryOk(l, no)
    requires Aligned(l, lists, InitBuf(lists), false)
    ensures exists ops :: StallsAfter(l, lists, ops)
  {
    var e, end := BadBoundary(l, no);
    StallsAt(l, lists, InitBuf(lists), no, e, end);
    assert StallsAfter(l, lists, [SeekOp(e - 1), ReadOp]);
  }

  /** Reading makes progress in every run exactly when no slice boundary cuts a block within a chunk of
      its end. */
  lemma {:induction false} StallFree(l: Layout, lists: seq<seq<Range>>)
    requires l.Valid() && Shares(l, lists) && Aligned(l, lists, InitBuf(lists), false)
    ensures Safe(l) <==> !exists ops :: StallsAfter(l, lists, ops)
  {
    if Safe(l) {
      forall ops ensures !StallsAfter(l, lists, ops) {
        InitAligned(l, lists, true);
        RunStrict(l, lists, InitBuf(lists), ops);
        ReadAligned(l, lists, RunBuf(l, lists, InitBuf(lists), ops), true);
      }
    } else {
      var no: nat :| no > 0 && no * l.sliceSize < l.Len() && !BoundaryOk(l, no);
      BadBoundaryStalls(l, lists, no);
    }
  }

  /** The sizes the system writes with: every block but the last is a whole number of chunks, and so is a slice. */
  ghost predicate WholeChunks(l: Layout) {
    && l.Valid() && l.sliceSize % l.chunkSize == 0
    && forall i :: 0 <= i < |l.blocks| - 1 ==> |l.blocks[i].data| % l.chunkSize == 0
  }

  lemma {:induction false} SumOfMultiples(a: nat, b: nat, d: nat)
    requires d > 0 && a % d == 0 && b % d == 0
    ensures (a + b) % d == 0
  {
    var i, j := a / d, b / d;
    assert a + b == (i + j) * d;
    DivModUnique(a + b, d, i + j, 0);
  }

  lemma {:induction false} MultipleOfMultiple(n: nat, a: nat, d: nat)
    requires d > 0 && a % d == 0
    ensures (n * a) % d == 0
  {
    var i := a / d;
    assert n * a == (n * i) * d;
    DivModUnique(n * a, d, n * i, 0);
  }

  lemma {:induction false} MultiplesApart(a: nat, b: nat, d: nat)
    requires d > 0 && a % d == 0 && b % d == 0 && a < b
    ensures a + d <= b
  {
    var i, j := a / d, b / d;
    assert a == i * d && b == j * d;
    if j <= i {
      MulMonotone(j, i, d);
    } else {
      MulMonotone(i + 1, j, d);
    }
  }

  lemma {:induction false} StartIsMultiple(l: Layout, i: nat)
    requires WholeChunks(l) && i < |l.blocks|
    ensures Start(l.blocks, i) % l.chunkSize == 0
  {
    if i > 0 {
      StartIsMultiple(l, i - 1);
      SumOfMultiples(Start(l.blocks, i - 1), |l.blocks[i - 1].data|, l.chunkSize);
    }
  }

  /** With blocks of whole chunks no slice boundary is bad, whatever the number of readers. */
  lemma {:induction false} WholeChunksAreSafe(l: Layout)
    requires WholeChunks(l)
    ensures Safe(l)
  {
    forall no: nat | no > 0 && no * l.sliceSize < l.Len()
      ensures BoundaryOk(l, no)
    {
      var e := no * l.sliceSize;
      var i := BlockAt(l.blocks, e);
      if i + 1 < |l.blocks| {
        MultipleOfMultiple(no, l.sliceSize, l.chunkSize);
        StartIsMultiple(l, i + 1);
        MultiplesApart(e, Start(l.blocks, i + 1), l.chunkSize);
      }
    }
  }

  /** There are bad boundaries: two blocks of 5000 bytes, read by two readers in slices of 4096. */
  lemma {:induction false} BadBoundaryExample(a: seq<byte>, b: seq<byte>)
    requires |a| == 5000 && |b| == 5000
    ensures !Safe(Layout([Block(1, a), Block(2, b)], 4096, 4096, 2))
  {
    var l := Layout([Block(1, a), Block(2, b)], 4096, 4096, 2);
    assert Start(l.blocks, 1) == Start(l.blocks, 0) + |l.blocks[0].data|;
    assert Start(l.blocks, 2) == Start(l.blocks, 1) + |l.blocks[1].data|;
    assert Holds(l.blocks, 0, 4096);
    HoldsUnique(l.blocks, 0, BlockAt(l.blocks, 4096), 4096);
    assert !BoundaryOk(l, 1);
  }
}
