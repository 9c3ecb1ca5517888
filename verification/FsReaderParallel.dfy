/** One parallel reader: a base reader confined to its share of the slices. */
module FsReaderParallels {
  import opened Common
  import opened FileBlocks
  import opened BlockReaders
  import opened FsReaderBases
  import opened Slices
  import opened ParallelReads

  const FILE_MIN_ALIGN_SIZE: nat := 4096

  class FsReaderParallel {
    ghost const layout: Layout
    const inner: FsReaderBase
    const parallelId: nat
    const allocSlices: seq<Range>
    var curIdx: Option<nat>

    ghost function Repr(): set<object>
      reads inner
    {
      {this, inner} + inner.Repr
    }

    /** The reader's state, as the value the reassembly reasons about. */
    function State(): View
      reads this, inner
    {
      View(curIdx, inner.pos)
    }

    ghost predicate Valid()
      reads this, inner, inner.Repr
    {
      && layout.Valid() && inner.Valid() && this !in inner.Repr
      && inner.search.blocks == layout.blocks && inner.chunkSize == layout.chunkSize
      && allocSlices != [] && IsShare(allocSlices, layout.Len(), layout.SliceStep(), layout.parallel, parallelId)
      && ValidView(layout, allocSlices, State())
    }

    constructor (ghost layout: Layout, inner: FsReaderBase, parallelId: nat, allocSlices: seq<Range>)
      requires layout.Valid() && inner.Valid() && inner.pos == 0
      requires inner.search.blocks == layout.blocks && inner.chunkSize == layout.chunkSize
      requires allocSlices != [] && IsShare(allocSlices, layout.Len(), layout.SliceStep(), layout.parallel, parallelId)
      ensures Valid() && State() == View(None, 0)
      ensures this.layout == layout && this.inner == inner && this.allocSlices == allocSlices
              && this.parallelId == parallelId
    {
      this.layout, this.inner, this.parallelId, this.allocSlices := layout, inner, parallelId, allocSlices;
      curIdx := None;
    }

    /** A reader whose objects did not change did not change. */
    twostate lemma Kept()
      requires old(Valid()) && unchanged(old(Repr()))
      ensures Valid() && State() == old(State()) && Repr() == old(Repr())
    {
    }

    /** Move on to slice `idx`. */
    method SwitchTo(idx: nat) returns (r: Result<()>)
      requires Valid() && idx < |allocSlices|
      modifies Repr()
      ensures fresh(Repr() - old(Repr())) && inner.everOpened <= inner.Repr
      ensures r.Err? ==> IsFault(r.error) && !inner.reliable
      ensures inner.faults == old(inner.faults) + if r.Err? then 1 else 0
      ensures r.Ok? ==> Valid() && State() == View(Some(idx), allocSlices[idx].start)
    {
      curIdx := Some(idx);
      r := inner.Seek(allocSlices[idx].start);
    }

    /** Go to the first slice, or on to the next one when the current one has been read to its end; say whether
        there is one. */
    method EnterSlice() returns (r: Result<bool>)
      requires Valid()
      modifies Repr()
      ensures fresh(Repr() - old(Repr())) && inner.everOpened <= inner.Repr
      ensures r.Err? ==> IsFault(r.error) && !inner.reliable
      ensures inner.faults == old(inner.faults) + if r.Err? then 1 else 0
      ensures r.Ok? ==> Valid() && Switch(allocSlices, old(State())) == if r.value then Some(State()) else None
      ensures r.Ok? && !r.value ==> State() == old(State())
    {
      hide IsShare;
      if curIdx.None? {
        var sought := SwitchTo(0);
        return if sought.Ok? then Ok(true) else Err(sought.error);
      }
      if inner.pos >= allocSlices[curIdx.value].end {
        var next := curIdx.value + 1;
        if next >= |allocSlices| {
          return Ok(false);
        }
        var sought := SwitchTo(next);
        return if sought.Ok? then Ok(true) else Err(sought.error);
      }
      r := Ok(true);
    }

    method Read() returns (r: Result<FileChunk>)
      requires Valid()
      modifies Repr()
      ensures fresh(Repr() - old(Repr())) && inner.everOpened <= inner.Repr
      ensures r.Err? ==> IsFault(r.error) && !inner.reliable
      ensures inner.faults == old(inner.faults) + if r.Err? then 1 else 0
      ensures r.Ok? ==> Valid() && (r.value, State()) == ReadView(layout, allocSlices, old(State()))
    {
      var more := EnterSlice();
      if more.Err? {
        return Err(more.error);
      }
      if !more.value {
        return Ok(FileChunk(-1, []));
      }
      hide IsShare, Switch;
      var pos := inner.pos;
      var bytes := inner.Read();
      r := if bytes.Ok? then Ok(FileChunk(pos, bytes.value)) else Err(bytes.error);
    }

    method Seek(pos: nat) returns (r: Result<()>)
      requires Valid()
      modifies Repr()
      ensures fresh(Repr() - old(Repr())) && inner.everOpened <= inner.Repr
      ensures r.Err? ==> IsFault(r.error) && !inner.reliable
      ensures inner.faults == old(inner.faults) + if r.Err? then 1 else 0
      ensures Valid() && State() == if r.Ok? then SeekView(layout, allocSlices, pos) else old(State())
    {
      ShareSorted(allocSlices, layout.Len(), layout.SliceStep(), layout.parallel, parallelId);
      var index := PartitionPoint(allocSlices, pos);
      if index < |allocSlices| {
        r := inner.Seek(Max(pos, allocSlices[index].start));
        curIdx := if r.Ok? then Some(index) else curIdx;
      } else {
        r := inner.Seek(inner.len);
        curIdx := if r.Ok? then Some(|allocSlices| - 1) else curIdx;
      }
    }

    method Complete() returns (r: Result<()>)
      requires Valid()
      modifies Repr()
      ensures Repr() == old(Repr()) && inner.everOpened == old(inner.everOpened) <= inner.Repr
      ensures inner.dropped == old(inner.dropped)
      ensures r.Ok? ==> forall b :: b in inner.everOpened ==> b.completed || b in inner.dropped
      ensures r.Err? ==> IsFault(r.error) && !inner.reliable
      ensures inner.faults == old(inner.faults) + if r.Err? then 1 else 0
    {
      r := inner.Complete();
    }
  }

  /** `reader` is a new reader of the given share, with objects of its own. */
  ghost predicate IsNew(reader: FsReaderParallel, layout: Layout, slices: seq<Range>, reliable: bool)
    reads reader, reader.inner, reader.inner.Repr
  {
    && reader.Valid() && reader.State() == View(None, 0)
    && reader.layout == layout && reader.allocSlices == slices
    && reader.inner.reliable == reliable && reader.inner.faults == 0
  }

  /** What `split` returns, with a single reader's share seen as one big slice. */
  ghost predicate AllShares(layout: Layout, slices: seq<seq<Range>>) {
    && |slices| == (if layout.Len() == 0 then 0 else layout.parallel)
    && forall k :: 0 <= k < |slices| ==> IsShare(slices[k], layout.Len(), layout.SliceStep(), layout.parallel, k)
  }

  /** After an empty share only empty shares follow, so dropping them keeps the numbering. */
  lemma {:induction false} EmptyFromHere(layout: Layout, slices: seq<seq<Range>>, i: nat, k: nat)
    requires AllShares(layout, slices) && i < k < |slices| && slices[i] == []
    ensures slices[k] == []
  {
    MulMonotone(i, k, layout.SliceStep());
    assert Nth(layout.parallel, i, 0) == i && Nth(layout.parallel, k, 0) == k;
  }

  lemma {:induction false} KeptShares(layout: Layout, slices: seq<seq<Range>>, n: nat)
    requires AllShares(layout, slices) && n <= |slices|
    requires forall i :: 0 <= i < n ==> slices[i] != []
    requires n < |slices| ==> slices[n] == []
    ensures Shares(layout, slices[..n])
  {
    if n < |slices| {
      assert Nth(layout.parallel, n, 0) == n;
    }
  }

  /** A reader of its own for one share. */
  method NewReader(ghost layout: Layout, search: SearchFileBlocks, locs: int -> seq<Worker>, localHost: Option<string>,
                   reliable: bool, closeReaderLimit: nat, len: nat, chunkSize: nat, k: nat, slices: seq<Range>)
    returns (reader: FsReaderParallel)
    requires search.Valid() && UniqueIds(search.blocks) && (reliable ==> Served(search.blocks, locs))
    requires layout.Valid() && len == layout.Len()
    requires search.blocks == layout.blocks && chunkSize == layout.chunkSize
    requires slices != [] && IsShare(slices, layout.Len(), layout.SliceStep(), layout.parallel, k)
    ensures IsNew(reader, layout, slices, reliable) && fresh(reader.Repr())
  {
    var base := new FsReaderBase(search, locs, localHost, reliable, chunkSize, len, closeReaderLimit);
    reader := new FsReaderParallel(layout, base, k, slices);
  }

  /** The readers made so far, one for each of the first shares. */
  ghost predicate AllNew(readers: seq<FsReaderParallel>, layout: Layout, slices: seq<seq<Range>>, reliable: bool)
    requires |readers| <= |slices|
    reads readers, set r | r in readers :: r.inner, set r, o | r in readers && o in r.inner.Repr :: o
  {
    && (forall i :: 0 <= i < |readers| ==> IsNew(readers[i], layout, slices[i], reliable))
    && forall i, j :: 0 <= i < j < |readers| ==> readers[i].Repr() !! readers[j].Repr()
  }

  method AddReader(ghost layout: Layout, slices: seq<seq<Range>>, readers: seq<FsReaderParallel>,
                   search: SearchFileBlocks, locs: int -> seq<Worker>, localHost: Option<string>, reliable: bool,
                   closeReaderLimit: nat, len: nat, chunkSize: nat)
    returns (more: seq<FsReaderParallel>)
    requires search.Valid() && UniqueIds(search.blocks) && (reliable ==> Served(search.blocks, locs))
    requires layout.Valid() && len == layout.Len()
    requires search.blocks == layout.blocks && chunkSize == layout.chunkSize && AllShares(layout, slices)
    requires |readers| < |slices| && slices[|readers|] != [] && AllNew(readers, layout, slices, reliable)
    ensures |more| == |readers| + 1 && AllNew(more, layout, slices, reliable)
    ensures more[..|readers|] == readers && fresh(more[|readers|].Repr())
    ensures forall i :: 0 <= i < |readers| ==> readers[i].Repr() == old(readers[i].Repr())
  {
    hide FsReaderParallel.Valid, FsReaderParallel.State;
    var k := |readers|;
    var reader := NewReader(layout, search, locs, localHost, reliable, closeReaderLimit, len, chunkSize, k, slices[k]);
    forall i | 0 <= i < |readers|
      ensures IsNew(readers[i], layout, slices[i], reliable) && readers[i].Repr() == old(readers[i].Repr())
    {
      readers[i].Kept();
    }
    more := readers + [reader];
  }

  /** The loop of `create_all`: a reader for every share that is not empty. */
  method OpenAll(ghost layout: Layout, slices: seq<seq<Range>>, search: SearchFileBlocks, locs: int -> seq<Worker>,
                 localHost: Option<string>, reliable: bool, closeReaderLimit: nat, len: nat, chunkSize: nat)
    returns (readers: seq<FsReaderParallel>, ghost owned: set<object>)
    requires search.Valid() && UniqueIds(search.blocks) && (reliable ==> Served(search.blocks, locs))
    requires layout.Valid() && len == layout.Len()
    requires search.blocks == layout.blocks && chunkSize == layout.chunkSize && AllShares(layout, slices)
    ensures |readers| <= |slices| && Shares(layout, slices[..|readers|])
    ensures AllNew(readers, layout, slices, reliable) && fresh(owned)
    ensures forall i :: 0 <= i < |readers| ==> readers[i].Repr() <= owned
  {
    hide FsReaderParallel.Valid, FsReaderParallel.State, SearchFileBlocks.Valid, UniqueIds, Served, Layout.Valid,
         AllShares;
    readers, owned := [], {};
    for k := 0 to |slices|
      invariant |readers| <= k && forall i :: 0 <= i < |readers| ==> slices[i] != []
      invariant |readers| < k ==> slices[|readers|] == []
      invariant AllNew(readers, layout, slices, reliable)
      invariant fresh(owned) && forall i :: 0 <= i < |readers| ==> readers[i].Repr() <= owned
    {
      if slices[k] != [] {
        if |readers| < k {
          EmptyFromHere(layout, slices, |readers|, k);
        }
        readers := AddReader(layout, slices, readers, search, locs, localHost, reliable, closeReaderLimit, len,
                             chunkSize);
        owned := owned + readers[|readers| - 1].Repr();
      }
    }
    KeptShares(layout, slices, |readers|);
  }

  /** `create_all`: check the sizes, cut the file, and open a reader for every share that is not empty. */
  method CreateAll(search: SearchFileBlocks, locs: int -> seq<Worker>, localHost: Option<string>, reliable: bool,
                   closeReaderLimit: nat, readParallel: nat, sliceSize: nat, chunkSize: nat)
    returns (r: Result<seq<FsReaderParallel>>, ghost layout: Layout, ghost lists: seq<seq<Range>>,
             ghost owned: set<object>)
    requires search.Valid() && UniqueIds(search.blocks) && (reliable ==> Served(search.blocks, locs))
             && readParallel > 0
    ensures layout == Layout(search.blocks, chunkSize, sliceSize, readParallel)
    ensures r.Ok? <==> 4096 <= chunkSize <= sliceSize && chunkSize % 4096 == 0 && sliceSize % chunkSize == 0
    ensures r.Err? ==> r.error == Misaligned
    ensures r.Ok? ==> layout.Valid() && Shares(layout, lists) && |r.value| == |lists|
    ensures r.Ok? ==> AllNew(r.value, layout, lists, reliable)
    ensures fresh(owned) && (r.Ok? ==> forall i :: 0 <= i < |r.value| ==> r.value[i].Repr() <= owned)
  {
    hide FsReaderParallel.Valid, FsReaderParallel.State;
    layout, lists, owned := Layout(search.blocks, chunkSize, sliceSize, readParallel), [], {};
    if chunkSize % FILE_MIN_ALIGN_SIZE != 0 || chunkSize < FILE_MIN_ALIGN_SIZE {
      return Err(Misaligned), layout, lists, owned;
    }
    if sliceSize % chunkSize != 0 || sliceSize < chunkSize {
      return Err(Misaligned), layout, lists, owned;
    }
    var len := Start(search.blocks, |search.blocks|);
    var slices := Split(len, sliceSize, readParallel);
    assert AllShares(layout, slices);
    var readers;
    readers, owned := OpenAll(layout, slices, search, locs, localHost, reliable, closeReaderLimit, len, chunkSize);
    lists := slices[..|readers|];
    r := Ok(readers);
  }
}
