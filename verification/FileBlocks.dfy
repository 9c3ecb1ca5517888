/** The block list of a file and the two position lookups over it. */
module FileBlocks {
  import opened Common

  /** A committed block. The client knows its id and length; `data` is what every replica stores. */
  datatype Block = Block(id: int, data: seq<byte>)

  /** File position at which block `i` starts; `Start(bs, |bs|)` is the length of the file. */
  function Start(bs: seq<Block>, i: nat): nat
    requires i <= |bs|
  {
    if i == 0 then 0 else Start(bs, i - 1) + |bs[i - 1].data|
  }

  /** The bytes of the first `n` blocks, one after the other. */
  function Joined(bs: seq<Block>, n: nat): seq<byte>
    requires n <= |bs|
  {
    if n == 0 then [] else Joined(bs, n - 1) + bs[n - 1].data
  }

  /** The flat file. */
  function Contents(bs: seq<Block>): seq<byte> {
    Joined(bs, |bs|)
  }

  /** Block `i` is the one that holds file position `pos`. */
  ghost predicate Holds(bs: seq<Block>, i: nat, pos: int) {
    i < |bs| && Start(bs, i) <= pos < Start(bs, i + 1)
  }

  lemma {:induction false} StartMonotone(bs: seq<Block>, i: nat, j: nat)
    requires i <= j <= |bs|
    ensures Start(bs, i) <= Start(bs, j)
  {
    if i < j {
      StartMonotone(bs, i, j - 1);
    }
  }

  lemma HoldsUnique(bs: seq<Block>, i: nat, j: nat, pos: int)
    requires Holds(bs, i, pos) && Holds(bs, j, pos)
    ensures i == j
  {
    if i < j {
      StartMonotone(bs, i + 1, j);
    } else if j < i {
      StartMonotone(bs, j + 1, i);
    }
  }

  lemma {:induction false} JoinedLength(bs: seq<Block>, n: nat)
    requires n <= |bs|
    ensures |Joined(bs, n)| == Start(bs, n)
  {
    if n > 0 {
      JoinedLength(bs, n - 1);
    }
  }

  lemma ContentsLength(bs: seq<Block>)
    ensures |Contents(bs)| == Start(bs, |bs|)
  {
    JoinedLength(bs, |bs|);
  }

  /** The first blocks are a prefix of the file. */
  lemma {:induction false} JoinedPrefix(bs: seq<Block>, m: nat, n: nat)
    requires m <= n <= |bs|
    ensures Joined(bs, m) <= Joined(bs, n)
  {
    if m < n {
      JoinedPrefix(bs, m, n - 1);
    }
  }

  /** Block `i` occupies exactly the file positions from its start to the next block's start. */
  lemma ContentsOfBlock(bs: seq<Block>, i: nat)
    requires i < |bs|
    ensures Start(bs, i + 1) <= |Contents(bs)|
    ensures Contents(bs)[Start(bs, i)..Start(bs, i + 1)] == bs[i].data
  {
    JoinedLength(bs, i);
    JoinedLength(bs, i + 1);
    JoinedPrefix(bs, i + 1, |bs|);
    assert Joined(bs, i + 1)[Start(bs, i)..] == bs[i].data;
  }

  /** A byte range inside one block, read from the file or from the block, is the same. */
  lemma BytesOfBlock(bs: seq<Block>, i: nat, off: nat, n: nat)
    requires i < |bs| && off + n <= |bs[i].data|
    ensures Start(bs, i) + off + n <= |Contents(bs)|
    ensures Contents(bs)[Start(bs, i) + off..Start(bs, i) + off + n] == bs[i].data[off..off + n]
  {
    ContentsOfBlock(bs, i);
    SliceOfSlice(Contents(bs), Start(bs, i), Start(bs, i + 1), off, n);
  }

  /** The block, among the first `n`, that holds a position. */
  function BlockBelow(bs: seq<Block>, pos: nat, n: nat): (i: nat)
    requires n <= |bs| && pos < Start(bs, n)
    ensures i < n && Holds(bs, i, pos)
  {
    if Start(bs, n - 1) <= pos then n - 1 else BlockBelow(bs, pos, n - 1)
  }

  /** The block that holds a position of the file. */
  function BlockAt(bs: seq<Block>, pos: nat): (i: nat)
    requires pos < Start(bs, |bs|)
    ensures Holds(bs, i, pos)
  {
    BlockBelow(bs, pos, |bs|)
  }

  /** Where the block that holds `pos` ends. */
  function BlockEnd(bs: seq<Block>, pos: nat): (e: nat)
    requires pos < Start(bs, |bs|)
    ensures pos < e <= Start(bs, |bs|)
  {
    var i := BlockAt(bs, pos);
    StartMonotone(bs, i + 1, |bs|);
    Start(bs, i + 1)
  }

  /** Every position between `p` and the end of its block has the same block. */
  lemma BlockEndStable(bs: seq<Block>, p: nat, q: nat)
    requires p < Start(bs, |bs|) && p <= q < BlockEnd(bs, p)
    ensures BlockAt(bs, q) == BlockAt(bs, p) && BlockEnd(bs, q) == BlockEnd(bs, p)
  {
    HoldsUnique(bs, BlockAt(bs, p), BlockAt(bs, q), q);
  }

  /** A lookup's answer: the offset inside the block, and the block. */
  datatype Located = Located(off: int, block: Block)

  /** What a lookup owes its caller: the block holding `pos`, or failure when no block does. */
  ghost predicate IsLookup(bs: seq<Block>, pos: int, r: Option<Located>) {
    match r
    case Some(l) => exists i: nat :: Holds(bs, i, pos) && l == Located(pos - Start(bs, i), bs[i])
    case None => !(0 <= pos < Start(bs, |bs|))
  }

  lemma LookupUnique(bs: seq<Block>, pos: int, a: Option<Located>, b: Option<Located>)
    requires IsLookup(bs, pos, a) && IsLookup(bs, pos, b)
    ensures a == b
  {
    if a.Some? {
      var i: nat :| Holds(bs, i, pos) && a.value == Located(pos - Start(bs, i), bs[i]);
      StartMonotone(bs, i + 1, |bs|);
      var j: nat :| Holds(bs, j, pos) && b.value == Located(pos - Start(bs, j), bs[j]);
      HoldsUnique(bs, i, j, pos);
    } else if b.Some? {
      var j: nat :| Holds(bs, j, pos);
      StartMonotone(bs, j + 1, |bs|);
    }
  }

  /** `FileBlocks::get_read_block`: walk the blocks with a running start position. */
  method LinearLookup(bs: seq<Block>, pos: int) returns (r: Option<Located>)
    ensures IsLookup(bs, pos, r)
  {
    var start := 0;
    for i := 0 to |bs|
      invariant start == Start(bs, i)
      invariant !(0 <= pos < start)
    {
      var end := start + |bs[i].data|;
      if start <= pos < end {
        assert Holds(bs, i, pos);
        return Some(Located(pos - start, bs[i]));
      }
      start := end;
    }
    r := None;
  }

  /** `SearchFileBlocks`: the block list with the range of every block, for binary search. */
  datatype SearchFileBlocks = SearchFileBlocks(blocks: seq<Block>, searchOff: seq<Range>) {

    ghost predicate Valid() {
      && |searchOff| == |blocks|
      && forall i :: 0 <= i < |blocks| ==> searchOff[i] == Range(Start(blocks, i), Start(blocks, i + 1))
    }

    lemma ValidEndsSorted()
      requires Valid()
      ensures EndsSorted(searchOff)
    {
      forall i, j | 0 <= i < j < |searchOff| ensures searchOff[i].end <= searchOff[j].end {
        StartMonotone(blocks, i + 1, j + 1);
      }
    }

    static method New(bs: seq<Block>) returns (s: SearchFileBlocks)
      ensures s.Valid() && s.blocks == bs
    {
      var searchOff := [];
      var off := 0;
      for i := 0 to |bs|
        invariant |searchOff| == i && off == Start(bs, i)
        invariant forall j :: 0 <= j < i ==> searchOff[j] == Range(Start(bs, j), Start(bs, j + 1))
      {
        var end := off + |bs[i].data|;
        searchOff := searchOff + [Range(off, end)];
        off := end;
      }
      s := SearchFileBlocks(bs, searchOff);
    }

    /** The binary lookup. It refines the linear one from position 0 on; a negative position is
        answered with the first block and a negative offset. */
    method GetReadBlock(pos: int) returns (r: Option<Located>)
      requires Valid()
      ensures 0 <= pos ==> IsLookup(blocks, pos, r)
      ensures pos < 0 ==> r == if blocks == [] then None else Some(Located(pos, blocks[0]))
    {
      ValidEndsSorted();
      var i := PartitionPoint(searchOff, pos);
      assert i > 0 ==> searchOff[i - 1].end <= pos;
      assert pos < 0 ==> i == 0;
      if i < |blocks| {
        r := Some(Located(pos - searchOff[i].start, blocks[i]));
        assert 0 <= pos ==> Holds(blocks, i, pos);
      } else {
        r := None;
      }
    }
  }

  /** Both lookups on one position: they agree exactly when the position is not negative, or there is
      no block at all. */
  method CompareLookups(bs: seq<Block>, pos: int) returns (linear: Option<Located>, binary: Option<Located>)
    ensures linear == binary <==> (0 <= pos || bs == [])
    ensures linear.Some? ==> 0 <= linear.value.off < |linear.value.block.data|
  {
    linear := LinearLookup(bs, pos);
    var s := SearchFileBlocks.New(bs);
    binary := s.GetReadBlock(pos);
    if 0 <= pos {
      LookupUnique(bs, pos, linear, binary);
    }
  }
}
