/** Cutting a file into slices and dealing them round-robin to parallel readers. */
module Slices {
  import opened Common

  /** The slice with number `no`; the last one stops at the end of the file. */
  function SliceNo(total: nat, sliceSize: nat, no: nat): Range {
    Range(no * sliceSize, Min((no + 1) * sliceSize, total))
  }

  /** The number of the `j`-th slice dealt to reader `k`. */
  function Nth(parallel: nat, k: nat, j: nat): nat {
    k + j * parallel
  }

  /** `list` is reader `k`'s share of the slices: numbers k, k + parallel, k + 2 * parallel, ... */
  predicate IsShare(list: seq<Range>, total: nat, sliceSize: nat, parallel: nat, k: nat) {
    && (forall j :: 0 <= j < |list| ==>
          list[j] == SliceNo(total, sliceSize, Nth(parallel, k, j)) && list[j].start < total)
    && Nth(parallel, k, |list|) * sliceSize >= total
  }

  /** Rounding up counts exactly the slices that start inside the file. */
  lemma {:induction false} CeilDiv(total: nat, sliceSize: nat, no: nat)
    requires sliceSize > 0
    ensures no < (total + sliceSize - 1) / sliceSize <==> no * sliceSize < total
  {
    var n := (total + sliceSize - 1) / sliceSize;
    assert n * sliceSize == total + sliceSize - 1 - (total + sliceSize - 1) % sliceSize;
    if no < n {
      MulMonotone(no + 1, n, sliceSize);
    } else {
      MulMonotone(n, no, sliceSize);
    }
  }

  /** How many of the numbers 0 .. n are dealt to reader `k`. */
  function Dealt(n: nat, parallel: nat, k: nat): nat
    requires parallel > 0
  {
    n / parallel + if k < n % parallel then 1 else 0
  }

  lemma {:induction false} DivModNext(n: nat, d: nat)
    requires d > 0
    ensures n % d + 1 < d ==> (n + 1) / d == n / d && (n + 1) % d == n % d + 1
    ensures n % d + 1 == d ==> (n + 1) / d == n / d + 1 && (n + 1) % d == 0
  {
    var q, r := n / d, n % d;
    assert n == q * d + r;
    if r + 1 < d {
      DivModUnique(n + 1, d, q, r + 1);
    } else {
      assert (q + 1) * d == q * d + d;
      DivModUnique(n + 1, d, q + 1, 0);
    }
  }

  /** Dealing one more number gives it to reader `n % parallel`, as its next one. */
  lemma {:induction false} DealOne(n: nat, parallel: nat, k: nat)
    requires k < parallel
    ensures Dealt(n + 1, parallel, k) == Dealt(n, parallel, k) + if k == n % parallel then 1 else 0
    ensures k == n % parallel ==> Nth(parallel, k, Dealt(n, parallel, k)) == n
    ensures n <= Nth(parallel, k, Dealt(n, parallel, k))
  {
    DivModNext(n, parallel);
    var q := n / parallel;
    assert n == q * parallel + n % parallel;
    assert (q + 1) * parallel == q * parallel + parallel;
  }

  /** A number falls between two consecutive slices of a reader in one way only. */
  lemma {:induction false} NthUnique(parallel: nat, k: nat, i: nat, j: nat, no: nat)
    requires parallel > 0
    requires no <= Nth(parallel, k, i) && (i > 0 ==> Nth(parallel, k, i - 1) < no)
    requires no <= Nth(parallel, k, j) && (j > 0 ==> Nth(parallel, k, j - 1) < no)
    ensures i == j
  {
    if i < j {
      MulMonotone(i, j - 1, parallel);
    } else if j < i {
      MulMonotone(j, i - 1, parallel);
    }
  }

  /** Going from number `no` to itself or the next, a reader's first slice from there on changes only
      when it was `no` itself; the reader's next slice then is `no + parallel`. */
  lemma {:induction false} NthMoves(parallel: nat, k: nat, i: nat, j: nat, no: nat, next: nat)
    requires parallel > 0 && no <= next <= no + 1
    requires no <= Nth(parallel, k, i) && (i > 0 ==> Nth(parallel, k, i - 1) < no)
    requires next <= Nth(parallel, k, j) && (j > 0 ==> Nth(parallel, k, j - 1) < next)
    ensures j == if next == no || Nth(parallel, k, i) != no then i else i + 1
    ensures Nth(parallel, k, i + 1) == Nth(parallel, k, i) + parallel
  {
    assert Nth(parallel, k, i + 1) == Nth(parallel, k, i) + parallel by {
      assert (i + 1) * parallel == i * parallel + parallel;
    }
    if next == no || Nth(parallel, k, i) != no {
      NthUnique(parallel, k, i, j, next);
    } else {
      NthUnique(parallel, k, i + 1, j, next);
    }
  }

  lemma {:induction false} NthBefore(parallel: nat, k: nat, j: nat)
    requires parallel > 0 && j > 0
    ensures Nth(parallel, k, j - 1) + parallel == Nth(parallel, k, j)
  {
    assert (j - 1) * parallel == j * parallel - parallel;
  }

  /** Number `no` is slice `no / parallel` of reader `no % parallel`. */
  lemma {:induction false} NthOfNumber(parallel: nat, no: nat)
    requires parallel > 0
    ensures Nth(parallel, no % parallel, no / parallel) == no
    ensures no / parallel > 0 ==> Nth(parallel, no % parallel, no / parallel - 1) < no
  {
    var q := no / parallel;
    assert no == q * parallel + no % parallel;
    assert (q - 1) * parallel == q * parallel - parallel;
  }

  /** A reader's slices end in increasing order. */
  lemma {:induction false} ShareSorted(list: seq<Range>, total: nat, sliceSize: nat, parallel: nat, k: nat)
    requires IsShare(list, total, sliceSize, parallel, k)
    ensures EndsSorted(list)
  {
    forall i, j | 0 <= i < j < |list| ensures list[i].end <= list[j].end {
      MulMonotone(i, j, parallel);
      MulMonotone(Nth(parallel, k, i) + 1, Nth(parallel, k, j) + 1, sliceSize);
    }
  }

  /** `FsReaderParallel::split`. */
  method Split(total: int, sliceSize: nat, parallel: nat) returns (slices: seq<seq<Range>>)
    requires sliceSize > 0 && parallel > 0
    ensures total <= 0 ==> slices == []
    ensures total > 0 && parallel == 1 ==> slices == [[Range(0, total)]]
    ensures total > 0 && parallel > 1 ==>
              |slices| == parallel &&
              forall k :: 0 <= k < parallel ==> IsShare(slices[k], total, sliceSize, parallel, k)
  {
    if total <= 0 {
      return [];
    }
    if parallel == 1 {
      return [[Range(0, total)]];
    }
    var numChunks := (total + sliceSize - 1) / sliceSize;
    slices := seq(parallel, _ => []);
    for no := 0 to numChunks
      invariant |slices| == parallel
      invariant forall k :: 0 <= k < parallel ==> |slices[k]| == Dealt(no, parallel, k)
      invariant forall k, j :: 0 <= k < parallel && 0 <= j < |slices[k]| ==>
                  slices[k][j] == SliceNo(total, sliceSize, Nth(parallel, k, j)) && slices[k][j].start < total
    {
      var start := no * sliceSize;
      var end := if no == numChunks - 1 then total else start + sliceSize;
      CeilDiv(total, sliceSize, no);
      CeilDiv(total, sliceSize, no + 1);
      var id := no % parallel;
      assert Range(start, end) == SliceNo(total, sliceSize, no);
      forall k | 0 <= k < parallel
        ensures Dealt(no + 1, parallel, k) == Dealt(no, parallel, k) + if k == id then 1 else 0
        ensures k == id ==> Nth(parallel, k, Dealt(no, parallel, k)) == no
      {
        DealOne(no, parallel, k);
      }
      slices := slices[id := slices[id] + [Range(start, end)]];
    }
    forall k | 0 <= k < parallel ensures IsShare(slices[k], total, sliceSize, parallel, k) {
      DealOne(numChunks, parallel, k);
      CeilDiv(total, sliceSize, Nth(parallel, k, |slices[k]|));
    }
  }
}
