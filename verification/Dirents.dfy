/** Directory listings for the kernel: records packed into pages of limited size, and read on by offset. */
module Dirents {
  import opened Common

  /** A number in `width` bytes, lowest first, as the structures of the FUSE protocol lie in memory. */
  function Little(n: nat, width: nat): (d: seq<byte>)
    ensures |d| == width
  {
    if width == 0 then [] else [n % 256] + Little(n / 256, width - 1)
  }

  function LittleValue(d: seq<byte>): nat {
    if d == [] then 0 else d[0] + 256 * LittleValue(d[1..])
  }

  lemma {:induction false} LittleRoundTrip(n: nat, width: nat)
    requires n < Pow256(width)
    ensures LittleValue(Little(n, width)) == n
  {
    if width > 0 {
      LittleRoundTrip(n / 256, width - 1);
    }
  }

  /** Byte `i` of a number counts the 256 to the power `i`. */
  lemma {:induction false} LittleByte(n: nat, width: nat, i: nat)
    requires i < width
    ensures Little(n, width)[i] == n / Pow256(i) % 256
  {
    if i > 0 {
      LittleByte(n / 256, width - 1, i - 1);
      DivTwice(n, Pow256(i - 1));
    }
  }

  lemma {:induction false} DivTwice(n: nat, b: nat)
    requires b > 0
    ensures n / 256 / b == n / (256 * b)
  {
    var q, r := n / 256 / b, n / 256 % b;
    assert n / 256 == q * b + r;
    Regroup(q, b);
    DivModUnique(n, 256 * b, q, 256 * r + n % 256);
  }

  lemma {:induction false} Regroup(q: nat, b: nat)
    ensures 256 * (q * b) == q * (256 * b)
  {
  }

  /** A directory entry: its name, inode number and type, and the attributes that only a plus listing has. */
  datatype Entry = Entry(name: seq<byte>, ino: nat, typ: nat, attrs: seq<byte>)

  const DIRENT_SIZE: nat := 24
  const ALIGN: nat := 8

  /** The entry's fields fit the structure, whose attribute part has `plus` bytes. */
  predicate Fits(e: Entry, plus: nat) {
    |e.attrs| == plus && e.ino < Pow256(8) && e.typ < Pow256(4) && |e.name| < Pow256(4)
  }

  /** The structure in front of a name; `off` is where to read on. */
  function Header(e: Entry, off: nat): (h: seq<byte>)
    ensures |h| == |e.attrs| + DIRENT_SIZE
  {
    e.attrs + Little(e.ino, 8) + Little(off, 8) + Little(|e.name|, 4) + Little(e.typ, 4)
  }

  function Aligned(n: nat): (a: nat)
    ensures n <= a < n + 8 && a % 8 == 0
  {
    (n + ALIGN - 1) / ALIGN * ALIGN
  }

  function Zeros(n: nat): (z: seq<byte>)
    ensures |z| == n && forall i :: 0 <= i < n ==> z[i] == 0
  {
    seq(n, i => 0)
  }

  function RecordLen(e: Entry): nat {
    Aligned(|e.attrs| + DIRENT_SIZE + |e.name|)
  }

  function Record(e: Entry, off: nat): (r: seq<byte>)
    ensures |r| == RecordLen(e) > 0
  {
    Header(e, off) + e.name + Zeros(RecordLen(e) - |e.attrs| - DIRENT_SIZE - |e.name|)
  }

  /** The records of entries `from` up to `until`; each carries the index behind its own. */
  function Records(list: seq<Entry>, from: nat, until: nat): (b: seq<byte>)
    requires from <= until <= |list|
  {
    if from == until then [] else Records(list, from, until - 1) + Record(list[until - 1], until)
  }

  lemma {:induction false} RecordsAligned(list: seq<Entry>, from: nat, until: nat)
    requires from <= until <= |list|
    ensures |Records(list, from, until)| % 8 == 0
  {
    hide Record;
    if from < until {
      RecordsAligned(list, from, until - 1);
      SumAligned(|Records(list, from, until - 1)|, RecordLen(list[until - 1]));
    }
  }

  lemma {:induction false} SumAligned(a: nat, b: nat)
    requires a % 8 == 0 && b % 8 == 0
    ensures (a + b) % 8 == 0
  {
  }

  lemma {:induction false} PaddingOf(n: nat)
    ensures Aligned(n) == n + (8 - n % 8) % 8 && Zeros(Aligned(n) - n) == seq((8 - n % 8) % 8, i => 0)
  {
  }

  lemma {:induction false} RecordIs(e: Entry, off: nat)
    ensures var n := |Header(e, off)| + |e.name|;
            var pad := (8 - n % 8) % 8;
            RecordLen(e) == n + pad && Record(e, off) == Header(e, off) + e.name + seq(pad, i => 0)
  {
    hide Header, Aligned, Zeros;
    PaddingOf(|Header(e, off)| + |e.name|);
  }

  /** The bytes of one record: a plain entry "a" of type 8 with inode 258, to be read on from offset 1. */
  lemma {:induction false} RecordExample()
    ensures Record(Entry([97], 258, 8, []), 1) ==
            [] + [2, 1, 0, 0, 0, 0, 0, 0] + [1, 0, 0, 0, 0, 0, 0, 0] + [1, 0, 0, 0] + [8, 0, 0, 0]
            + [97] + [0, 0, 0, 0, 0, 0, 0]
  {
    NumberExample(258, 8, [2, 1, 0, 0, 0, 0, 0, 0]);
    NumberExample(1, 8, [1, 0, 0, 0, 0, 0, 0, 0]);
    NumberExample(1, 4, [1, 0, 0, 0]);
    NumberExample(8, 4, [8, 0, 0, 0]);
    PaddingOf(25);
    hide Little, Aligned;
    assert Zeros(7) == [0, 0, 0, 0, 0, 0, 0];
  }

  lemma {:induction false} NumberExample(n: nat, width: nat, d: seq<byte>)
    requires n < 65536 && 2 <= width == |d| && d[0] == n % 256 && d[1] == n / 256
    requires forall i :: 2 <= i < width ==> d[i] == 0
    ensures Little(n, width) == d
  {
    LittleSmall(n, width);
  }

  lemma {:induction false} LittleSmall(n: nat, width: nat)
    requires n < 65536 && width >= 2
    ensures Little(n, width) == [n % 256, n / 256] + Zeros(width - 2)
  {
    assert Little(n / 256, width - 1) == [n / 256] + Little(0, width - 2);
    LittleZero(width - 2);
  }

  lemma {:induction false} LittleZero(width: nat)
    ensures Little(0, width) == Zeros(width)
  {
    if width > 0 {
      LittleZero(width - 1);
    }
  }

  class FuseDirentList {
    const maxSize: nat
    var buf: seq<byte>

    constructor (maxSize: nat)
      ensures buf == [] && this.maxSize == maxSize
    {
      this.maxSize, buf := maxSize, [];
    }

    /** Add a structure and a name, padded with zeros to a multiple of eight bytes; or nothing at all, if they do not
        fit. */
    method AddBuf(bytes: seq<byte>, name: seq<byte>) returns (added: bool)
      modifies this`buf
      ensures var pad := (8 - (|bytes| + |name|) % 8) % 8;
              && (added <==> |old(buf)| + |bytes| + |name| + pad <= maxSize)
              && buf == old(buf) + if added then bytes + name + seq(pad, i => 0) else []
    {
      PaddingOf(|bytes| + |name|);
      var dataLen := |bytes| + |name|;
      var alignLen := Aligned(dataLen);
      if |buf| + alignLen > maxSize {
        return false;
      }
      buf := buf + bytes;
      buf := buf + name;
      buf := buf + Zeros(alignLen - dataLen);
      added := true;
    }

    method Add(off: nat, e: Entry) returns (added: bool)
      modifies this`buf
      ensures added <==> |old(buf)| + RecordLen(e) <= maxSize
      ensures buf == old(buf) + if added then Record(e, off) else []
    {
      RecordIs(e, off);
      hide Header, Record, RecordLen;
      added := AddBuf(Header(e, off), e.name);
    }
  }

  /** One page: as many whole entries from `offset` on as fit, never more bytes than asked for. */
  method ReadDir(list: seq<Entry>, offset: nat, size: nat) returns (page: seq<byte>, ghost until: nat)
    ensures offset >= |list| ==> page == [] && until == offset
    ensures offset < |list| ==> offset <= until <= |list| && page == Records(list, offset, until)
    ensures |page| <= size && (page == [] <==> until == offset)
    ensures until < |list| ==> |page| + RecordLen(list[until]) > size
  {
    hide Record, RecordLen;
    var res := new FuseDirentList(size);
    until := offset;
    var index := offset;
    while index < |list|
      invariant until == index && (offset < |list| ==> index <= |list| && res.buf == Records(list, offset, index))
      invariant offset <= index && (offset >= |list| ==> index == offset && res.buf == [])
      invariant |res.buf| <= size && res.maxSize == size && (res.buf == [] <==> index == offset)
    {
      var added := res.Add(index + 1, list[index]);
      if !added {
        break;
      }
      index := index + 1;
      until := index;
    }
    page := res.buf;
  }

  /** An entry as the kernel finds it in a page, with the offset to read on from. */
  datatype Found = Found(entry: Entry, off: nat)

  /** The first record of a page: the name's length says where the next one starts. */
  function DecodeOne(page: seq<byte>, plus: nat): Option<(Found, nat)> {
    if |page| < plus + DIRENT_SIZE then None
    else
      var nameLen := LittleValue(page[plus + 16..plus + 20]);
      var size := Aligned(plus + DIRENT_SIZE + nameLen);
      if |page| < size then None
      else
        var e := Entry(page[plus + DIRENT_SIZE..plus + DIRENT_SIZE + nameLen], LittleValue(page[plus..plus + 8]),
                       LittleValue(page[plus + 20..plus + 24]), page[..plus]);
        Some((Found(e, LittleValue(page[plus + 8..plus + 16])), size))
  }

  function Decode(page: seq<byte>, plus: nat): seq<Found>
    decreases |page|
  {
    match DecodeOne(page, plus)
    case None => []
    case Some((found, size)) => [found] + Decode(page[size..], plus)
  }

  /** Entries `from` up to `until` as a page shows them. */
  function Listed(list: seq<Entry>, from: nat, until: nat): (fs: seq<Found>)
    requires from <= until <= |list|
    ensures |fs| == until - from
  {
    seq(until - from, i requires 0 <= i < until - from => Found(list[from + i], from + i + 1))
  }

  lemma {:induction false} HeaderFields(e: Entry, off: nat, rest: seq<byte>)
    ensures var h, p := Header(e, off) + rest, |e.attrs|;
            && h[..p] == e.attrs && h[p..p + 8] == Little(e.ino, 8) && h[p + 8..p + 16] == Little(off, 8)
            && h[p + 16..p + 20] == Little(|e.name|, 4) && h[p + 20..p + 24] == Little(e.typ, 4)
  {
  }

  /** A record is read back, whatever follows it. */
  lemma {:induction false} DecodeRecord(e: Entry, off: nat, plus: nat, rest: seq<byte>)
    requires Fits(e, plus) && off < Pow256(8)
    ensures DecodeOne(Record(e, off) + rest, plus) == Some((Found(e, off), RecordLen(e)))
  {
    hide Little, LittleValue, Pow256, Zeros, Aligned;
    var pad := Zeros(RecordLen(e) - |e.attrs| - DIRENT_SIZE - |e.name|);
    var page := Record(e, off) + rest;
    assert page == Header(e, off) + (e.name + pad + rest);
    HeaderFields(e, off, e.name + pad + rest);
    LittleRoundTrip(e.ino, 8);
    LittleRoundTrip(off, 8);
    LittleRoundTrip(|e.name|, 4);
    LittleRoundTrip(e.typ, 4);
    assert page[plus + DIRENT_SIZE..plus + DIRENT_SIZE + |e.name|] == e.name;
  }

  lemma {:induction false} RecordsFirst(list: seq<Entry>, from: nat, until: nat)
    requires from < until <= |list|
    ensures Records(list, from, until) == Record(list[from], from + 1) + Records(list, from + 1, until)
    decreases until - from
  {
    hide Record, RecordLen;
    if from + 1 < until {
      RecordsFirst(list, from, until - 1);
    }
  }

  /** The first record, then what lies behind it. */
  lemma {:induction false} DecodeStep(e: Entry, off: nat, plus: nat, rest: seq<byte>)
    requires Fits(e, plus) && off < Pow256(8)
    ensures Decode(Record(e, off) + rest, plus) == [Found(e, off)] + Decode(rest, plus)
  {
    DecodeRecord(e, off, plus, rest);
    hide DecodeOne, Record, RecordLen, Fits;
    assert (Record(e, off) + rest)[RecordLen(e)..] == rest;
  }

  /** A page decodes to the entries packed into it. */
  lemma {:induction false} DecodeRecords(list: seq<Entry>, from: nat, until: nat, plus: nat)
    requires from <= until <= |list| < Pow256(8) && forall i :: 0 <= i < |list| ==> Fits(list[i], plus)
    ensures Decode(Records(list, from, until), plus) == Listed(list, from, until)
    decreases |list| - from
  {
    hide Decode, Record, Fits, Pow256;
    if from < until {
      RecordsFirst(list, from, until);
      DecodeStep(list[from], from + 1, plus, Records(list, from + 1, until));
      DecodeRecords(list, from + 1, until, plus);
      ListedFirst(list, from, until);
    } else {
      DecodeNothing(plus);
    }
  }

  lemma {:induction false} DecodeNothing(plus: nat)
    ensures Decode([], plus) == []
  {
  }

  lemma {:induction false} ListedFirst(list: seq<Entry>, from: nat, until: nat)
    requires from < until <= |list|
    ensures Listed(list, from, until) == [Found(list[from], from + 1)] + Listed(list, from + 1, until)
  {
  }

  function Entries(found: seq<Found>): (es: seq<Entry>)
    ensures |es| == |found|
  {
    seq(|found|, i requires 0 <= i < |found| => found[i].entry)
  }

  /** What a client has seen after these pages. */
  function Seen(pages: seq<seq<byte>>, plus: nat): seq<Entry> {
    if pages == [] then []
    else Seen(pages[..|pages| - 1], plus) + Entries(Decode(pages[|pages| - 1], plus))
  }

  lemma {:induction false} SeenNothing(plus: nat)
    ensures Seen([], plus) == []
  {
  }

  lemma {:induction false} SeenMore(pages: seq<seq<byte>>, page: seq<byte>, plus: nat)
    ensures Seen(pages + [page], plus) == Seen(pages, plus) + Entries(Decode(page, plus))
  {
    hide Decode, Entries;
    assert (pages + [page])[..|pages|] == pages;
  }

  /** Reading a directory page by page, each from the offset of the last entry seen, until a page is empty:
      the entries come out in order, each once. All of them come out exactly if every page asked for has
      room for the entry it starts with. */
  method ListAll(list: seq<Entry>, plus: nat, sizes: nat -> nat) returns (pages: seq<seq<byte>>)
    requires |list| < Pow256(8) && forall i :: 0 <= i < |list| ==> Fits(list[i], plus)
    ensures var seen := Seen(pages, plus);
            && seen <= list && (seen != list ==> |seen| < |list| && sizes(|pages|) < RecordLen(list[|seen|]))
            && ((forall k: nat, i: nat :: i < |list| ==> sizes(k) >= RecordLen(list[i])) ==> seen == list)
    ensures forall k :: 0 <= k < |pages| ==> 0 < |pages[k]| <= sizes(k)
  {
    hide DecodeOne, Decode, Records, RecordLen, Fits, Seen;
    SeenNothing(plus);
    pages := [];
    ghost var seen: seq<Entry> := [];
    var offset: nat := 0;
    while true
      invariant seen == Seen(pages, plus) && offset == |seen| <= |list| && seen == list[..|seen|]
      invariant forall k :: 0 <= k < |pages| ==> 0 < |pages[k]| <= sizes(k)
      decreases |list| - |seen|
    {
      var page, until := ReadDir(list, offset, sizes(|pages|));
      if page == [] {
        return;
      }
      var found := Decode(page, plus);
      DecodeRecords(list, offset, until, plus);
      assert Entries(found) == list[offset..until];
      seen := seen + Entries(found);
      offset := found[|found| - 1].off;
      SeenMore(pages, page, plus);
      pages := pages + [page];
    }
  }
}
