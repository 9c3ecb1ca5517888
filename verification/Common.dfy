/** Types shared by the model: bytes, optional values and fallible results. */
module Common {

  type byte = x: int | 0 <= x < 0x100

  datatype Option<+T> = None | Some(value: T)

  /** Why a call of the data path reports an error. */
  datatype FsError =
    | NoBlock            // no block holds the requested position
    | NoWorker           // every replica is excluded, or opening one failed
    | Io                 // a remote call or a disk access failed
    | SeekBeyondEnd
    | NegativeSeek
    | Abnormal           // the "Abnormal status" guards of the readers
    | Misaligned         // chunk or slice size
    | NotInitialized     // no reader for the slice
    | Closed             // the peer of a channel is gone
    | Rejected           // the master or a worker refused a request

  /** What goes wrong outside the client: a worker, a disk or a connection fails. */
  predicate IsFault(e: FsError) {
    e.NoWorker? || e.Io?
  }

  /** A fault, or what a channel reports after one has ended its task. */
  predicate IsTransport(e: FsError) {
    IsFault(e) || e.Closed?
  }

  datatype Result<+T> = Ok(value: T) | Err(error: FsError)

  function Min(a: int, b: int): (m: int)
    ensures m <= a && m <= b && (m == a || m == b)
  {
    if a <= b then a else b
  }

  function Max(a: int, b: int): (m: int)
    ensures m >= a && m >= b && (m == a || m == b)
  {
    if a >= b then a else b
  }

  /** At most `n` bytes of a file from `at` on: what a flat cursor reads. */
  function Window(file: seq<byte>, at: nat, n: nat): (w: seq<byte>)
    ensures |w| == Min(n, Max(|file| - at, 0))
  {
    if at >= |file| then [] else file[at..Min(at + n, |file|)]
  }

  /** A half-open range `[start, end)` of file positions: `FileSlice` and `Range<i64>`. */
  datatype Range = Range(start: nat, end: nat)

  /** The end positions of a list of ranges never decrease. */
  ghost predicate EndsSorted(rs: seq<Range>) {
    forall i, j :: 0 <= i < j < |rs| ==> rs[i].end <= rs[j].end
  }

  /** `i` separates the ranges that end at or before `pos` from those that end after it. */
  ghost predicate IsPartitionPoint(rs: seq<Range>, pos: int, i: nat) {
    && i <= |rs|
    && (forall j :: 0 <= j < i ==> rs[j].end <= pos)
    && (forall j :: i <= j < |rs| ==> pos < rs[j].end)
  }

  /** The first range that ends after `pos`, or the number of ranges when none does. */
  function FirstAfter(rs: seq<Range>, pos: int): (i: nat)
    ensures i <= |rs|
    ensures forall j :: 0 <= j < i ==> rs[j].end <= pos
    ensures i < |rs| ==> pos < rs[i].end
  {
    if rs == [] || pos < rs[0].end then 0 else 1 + FirstAfter(rs[1..], pos)
  }

  /** The binary search both lookups of the read path run. */
  method PartitionPoint(rs: seq<Range>, pos: int) returns (i: nat)
    requires EndsSorted(rs)
    ensures IsPartitionPoint(rs, pos, i) && i == FirstAfter(rs, pos)
  {
    var lo, hi := 0, |rs|;
    while lo < hi
      invariant 0 <= lo <= hi <= |rs|
      invariant forall j :: 0 <= j < lo ==> rs[j].end <= pos
      invariant forall j :: hi <= j < |rs| ==> pos < rs[j].end
    {
      var mid := (lo + hi) / 2;
      if rs[mid].end <= pos {
        lo := mid + 1;
      } else {
        hi := mid;
      }
    }
    i := lo;
    assert i < |rs| ==> pos < rs[i].end;
  }

  /** A slice of a slice is a slice. */
  lemma SliceOfSlice<T>(f: seq<T>, s: nat, e: nat, off: nat, n: nat)
    requires s <= e <= |f| && off + n <= e - s
    ensures f[s..e][off..off + n] == f[s + off..s + off + n]
  {
    var inner, direct := f[s..e][off..off + n], f[s + off..s + off + n];
    assert forall k :: 0 <= k < n ==> inner[k] == direct[k];
  }

  /** Swapping two elements of a sequence keeps its elements. */
  lemma SwapKeepsElements<T>(s: seq<T>, i: nat)
    requires i < |s|
    ensures multiset(s[0 := s[i]][i := s[0]]) == multiset(s)
  {
  }

  /** Chunks, one after the other. */
  function Flatten(chunks: seq<seq<byte>>): seq<byte> {
    if chunks == [] then [] else Flatten(chunks[..|chunks| - 1]) + chunks[|chunks| - 1]
  }

  lemma {:induction false} FlattenNothing()
    ensures Flatten([]) == []
  {
  }

  lemma {:induction false} FlattenMore(chunks: seq<seq<byte>>, chunk: seq<byte>)
    ensures Flatten(chunks + [chunk]) == Flatten(chunks) + chunk
  {
    assert (chunks + [chunk])[..|chunks|] == chunks;
  }

  lemma {:induction false} FlattenJoined(front: seq<seq<byte>>, back: seq<seq<byte>>)
    ensures Flatten(front + back) == Flatten(front) + Flatten(back)
  {
    if back == [] {
      assert front + back == front;
    } else {
      var last := |back| - 1;
      FlattenJoined(front, back[..last]);
      assert (front + back)[..|front + back| - 1] == front + back[..last];
    }
  }

  function Pow256(n: nat): (p: nat)
    ensures p > 0
  {
    if n == 0 then 1 else 256 * Pow256(n - 1)
  }

  lemma {:induction false} MulMonotone(a: nat, b: nat, c: nat)
    requires a <= b
    ensures a * c <= b * c
  {
  }

  lemma {:induction false} DivModUnique(n: nat, d: nat, q: nat, r: nat)
    requires d > 0 && n == q * d + r && r < d
    ensures n / d == q && n % d == r
  {
    var q', r' := n / d, n % d;
    assert n == q' * d + r';
    if q' < q {
      MulMonotone(q' + 1, q, d);
    } else if q < q' {
      MulMonotone(q + 1, q', d);
    }
  }
}
