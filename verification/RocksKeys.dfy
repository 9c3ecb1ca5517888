/** Keys of the metadata store: big-endian numbers, composite keys, and the range a prefix scan covers. */
module RocksKeys {
  import opened Common

  type Key = seq<byte>

  /** The order of the store: bytewise, a proper prefix first. */
  predicate Less(a: Key, b: Key) {
    if b == [] then false
    else if a == [] then true
    else a[0] < b[0] || (a[0] == b[0] && Less(a[1..], b[1..]))
  }

  predicate InRange(key: Key, start: Key, end: Key) {
    !Less(key, start) && Less(key, end)
  }

  predicate AllMax(s: Key) {
    forall i :: 0 <= i < |s| ==> s[i] == 0xff
  }

  /** Nothing of its length or more sorts behind a string of largest bytes, except what it starts. */
  lemma {:induction false} BehindAllMax(s: Key, key: Key)
    requires AllMax(s)
    ensures !Less(key, s) <==> s <= key
  {
    if s != [] && key != [] {
      BehindAllMax(s[1..], key[1..]);
      PrefixByFirst(s, key);
    }
  }

  /** `end` is `start` cut behind a byte that can be raised, with that byte raised, and what is cut off
      could not be raised. */
  lemma {:induction false} RangeIsPrefix(start: Key, k: nat, end: Key, key: Key)
    requires k < |start| && start[k] < 0xff && AllMax(start[k + 1..])
    requires end == start[..k] + [start[k] + 1]
    ensures InRange(key, start, end) <==> start <= key
    decreases k
  {
    if key != [] {
      PrefixByFirst(start, key);
      if k == 0 {
        BehindAllMax(start[1..], key[1..]);
        assert end[0] == start[0] + 1 && end[1..] == [];
        assert !Less(key[1..], []);
        assert Less(key, end) <==> key[0] <= start[0];
        assert Less(key, start) <==> key[0] < start[0] || (key[0] == start[0] && Less(key[1..], start[1..]));
      } else {
        assert end[0] == start[0] && start[1..][k..] == start[k + 1..];
        assert end[1..] == start[1..][..k - 1] + [start[1..][k - 1] + 1];
        RangeIsPrefix(start[1..], k - 1, end[1..], key[1..]);
      }
    }
  }

  lemma {:induction false} PrefixByFirst(a: Key, b: Key)
    requires a != [] && b != []
    ensures a <= b <==> a[0] == b[0] && a[1..] <= b[1..]
  {
    if a <= b {
      assert b[1..][..|a| - 1] == a[1..];
    }
    if a[0] == b[0] && a[1..] <= b[1..] {
      forall i | 0 <= i < |a| ensures a[i] == b[i] {
        assert i > 0 ==> a[i] == a[1..][i - 1] && b[i] == b[1..][i - 1];
      }
    }
  }

  /** The end of the range a prefix scan covers. The range holds exactly the keys with that prefix if and
      only if some byte of the prefix can be raised; otherwise it is empty, although the prefix itself is
      such a key. */
  method CalculateEndBytes(start: Key) returns (end: Key)
    ensures (forall key :: InRange(key, start, end) <==> start <= key) <==> !AllMax(start)
    ensures AllMax(start) ==> forall key :: !InRange(key, start, end)
  {
    var offset := |start|;
    while offset > 0
      invariant 0 <= offset <= |start| && AllMax(start[offset..])
    {
      if start[offset - 1] != 0xff {
        break;
      }
      offset := offset - 1;
    }
    if offset == 0 {
      end := [];
      assert !(InRange(start, start, end) <==> start <= start);
      return;
    }
    end := start[..offset];
    end := end[offset - 1 := end[offset - 1] + 1];
    forall key ensures InRange(key, start, end) <==> start <= key {
      RangeIsPrefix(start, offset - 1, end, key);
    }
  }

  /** The big-endian digits of a number. */
  function Digits(n: nat, width: nat): (d: Key)
    ensures |d| == width
  {
    if width == 0 then [] else Digits(n / 256, width - 1) + [n % 256]
  }

  function Value(d: Key): nat {
    if d == [] then 0 else 256 * Value(d[..|d| - 1]) + d[|d| - 1]
  }

  lemma {:induction false} ValueBelow(d: Key)
    ensures Value(d) < Pow256(|d|)
  {
    if d != [] {
      ValueBelow(d[..|d| - 1]);
    }
  }

  lemma {:induction false} DigitsValue(n: nat, width: nat)
    requires n < Pow256(width)
    ensures Value(Digits(n, width)) == n
  {
    if width > 0 {
      DigitsValue(n / 256, width - 1);
      assert Digits(n, width)[..width - 1] == Digits(n / 256, width - 1);
    }
  }

  /** The order of two keys of one length by all but the last byte, then the last. */
  lemma {:induction false} LessByLast(a: Key, b: Key, x: byte, y: byte)
    requires |a| == |b|
    ensures Less(a + [x], b + [y]) <==> Less(a, b) || (a == b && x < y)
  {
    if a == [] {
      assert (a + [x])[1..] == [] && (b + [y])[1..] == [];
    } else {
      assert (a + [x])[1..] == a[1..] + [x] && (b + [y])[1..] == b[1..] + [y];
      LessByLast(a[1..], b[1..], x, y);
      assert a == b <==> a[0] == b[0] && a[1..] == b[1..];
    }
  }

  lemma {:induction false} ValueInjective(a: Key, b: Key)
    requires |a| == |b| && Value(a) == Value(b)
    ensures a == b
  {
    if a != [] {
      ValueInjective(a[..|a| - 1], b[..|b| - 1]);
      assert a == a[..|a| - 1] + [a[|a| - 1]] && b == b[..|b| - 1] + [b[|b| - 1]];
    }
  }

  /** Keys of one length are ordered as the numbers they stand for. */
  lemma {:induction false} OrderIsNumeric(a: Key, b: Key)
    requires |a| == |b|
    ensures Less(a, b) <==> Value(a) < Value(b)
  {
    if a != [] {
      var a', b' := a[..|a| - 1], b[..|b| - 1];
      assert a == a' + [a[|a| - 1]] && b == b' + [b[|b| - 1]];
      OrderIsNumeric(a', b');
      LessByLast(a', b', a[|a| - 1], b[|b| - 1]);
      if Value(a') == Value(b') {
        ValueInjective(a', b');
      }
    }
  }

  /** A signed number of `width` bytes as the unsigned one with the same bits, and back. */
  function ToUnsigned(v: int, width: nat): (u: int) {
    if v < 0 then v + Pow256(width) else v
  }

  function ToSigned(u: nat, width: nat): (v: int) {
    if 2 * u < Pow256(width) then u else u - Pow256(width)
  }

  ghost predicate IsSigned(v: int, width: nat) {
    0 <= 2 * v + Pow256(width) && 2 * v < Pow256(width)
  }

  /** `u64_to_bytes`, `u32_to_bytes` and their like. */
  function UnsignedKey(v: nat, width: nat): Key {
    Digits(v, width)
  }

  function SignedKey(v: int, width: nat): Key
    requires IsSigned(v, width)
  {
    Digits(ToUnsigned(v, width), width)
  }

  /** `u64_from_bytes` and its like: any longer string will do, a shorter one is refused. */
  function UnsignedFrom(bytes: Key, width: nat): Option<nat> {
    if |bytes| < width then None else Some(Value(bytes[..width]))
  }

  function SignedFrom(bytes: Key, width: nat): Option<int> {
    if |bytes| < width then None else Some(ToSigned(Value(bytes[..width]), width))
  }

  /** A number is read back from a key that starts with it, whatever follows, and from no shorter part of it. */
  lemma {:induction false} UnsignedRoundTrip(v: nat, width: nat, rest: Key)
    requires v < Pow256(width)
    ensures UnsignedFrom(UnsignedKey(v, width) + rest, width) == Some(v)
    ensures forall n :: 0 <= n <= width + |rest| ==>
              (UnsignedFrom((UnsignedKey(v, width) + rest)[..n], width) == if n < width then None else Some(v))
  {
    DigitsValue(v, width);
    var key := UnsignedKey(v, width) + rest;
    assert key[..width] == UnsignedKey(v, width);
    forall n | width <= n <= |key| ensures key[..n][..width] == key[..width] {
    }
  }

  lemma {:induction false} SignedRoundTrip(v: int, width: nat, rest: Key)
    requires IsSigned(v, width)
    ensures SignedFrom(SignedKey(v, width) + rest, width) == Some(v)
    ensures forall n :: 0 <= n <= width + |rest| ==>
              (SignedFrom((SignedKey(v, width) + rest)[..n], width) == if n < width then None else Some(v))
  {
    UnsignedRoundTrip(ToUnsigned(v, width), width, rest);
  }

  /** Reading and writing again gives the same bytes: no two keys stand for one number, signed or not. */
  lemma {:induction false} KeyRoundTrip(bytes: Key)
    ensures UnsignedFrom(bytes, |bytes|).Some? && UnsignedFrom(bytes, |bytes|).value < Pow256(|bytes|)
    ensures UnsignedKey(UnsignedFrom(bytes, |bytes|).value, |bytes|) == bytes
    ensures SignedFrom(bytes, |bytes|).Some? && IsSigned(SignedFrom(bytes, |bytes|).value, |bytes|)
    ensures SignedKey(SignedFrom(bytes, |bytes|).value, |bytes|) == bytes
  {
    ValueBelow(bytes);
    assert bytes[..|bytes|] == bytes;
    var u := Value(bytes);
    DigitsValue(u, |bytes|);
    ValueInjective(Digits(u, |bytes|), bytes);
  }

  lemma {:induction false} UnsignedOrder(a: nat, b: nat, width: nat)
    requires a < Pow256(width) && b < Pow256(width)
    ensures Less(UnsignedKey(a, width), UnsignedKey(b, width)) <==> a < b
  {
    DigitsValue(a, width);
    DigitsValue(b, width);
    OrderIsNumeric(Digits(a, width), Digits(b, width));
  }

  /** Signed keys are in numeric order among numbers of one sign; the negative ones come last. */
  lemma {:induction false} SignedOrder(a: int, b: int, width: nat)
    requires IsSigned(a, width) && IsSigned(b, width)
    ensures Less(SignedKey(a, width), SignedKey(b, width)) <==> if (a < 0) == (b < 0) then a < b else b < 0
  {
    UnsignedOrder(ToUnsigned(a, width), ToUnsigned(b, width), width);
  }

  /** `i64_u32_to_bytes`, `i64_str_to_bytes` and their like: an inode's number, then what is below it. */
  function CompositeKey(v: int, width: nat, rest: Key): Key
    requires IsSigned(v, width)
  {
    SignedKey(v, width) + rest
  }

  lemma {:induction false} LessByFront(a: Key, b: Key, x: Key, y: Key)
    requires |a| == |b|
    ensures Less(a + x, b + y) <==> Less(a, b) || (a == b && Less(x, y))
  {
    if a == [] {
      assert a + x == x && b + y == y;
    } else {
      assert (a + x)[1..] == a[1..] + x && (b + y)[1..] == b[1..] + y;
      LessByFront(a[1..], b[1..], x, y);
      assert a == b <==> a[0] == b[0] && a[1..] == b[1..];
    }
  }

  /** Both parts are read back, and entries are grouped by the number, then ordered below it. */
  lemma {:induction false} CompositeKeys(v: int, w: int, width: nat, x: Key, y: Key)
    requires IsSigned(v, width) && IsSigned(w, width)
    ensures SignedFrom(CompositeKey(v, width, x), width) == Some(v) && CompositeKey(v, width, x)[width..] == x
    ensures v == w ==> (Less(CompositeKey(v, width, x), CompositeKey(w, width, y)) <==> Less(x, y))
    ensures v != w ==> (Less(CompositeKey(v, width, x), CompositeKey(w, width, y)) <==>
                          if (v < 0) == (w < 0) then v < w else w < 0)
  {
    SignedRoundTrip(v, width, x);
    LessByFront(SignedKey(v, width), SignedKey(w, width), x, y);
    SignedOrder(v, w, width);
    SignedOrder(w, v, width);
  }

  /** `u32_i64_to_bytes` and `u64_u64_to_bytes`: the same with an unsigned number in front, in numeric order. */
  lemma {:induction false} CompositeKeysUnsigned(v: nat, w: nat, width: nat, x: Key, y: Key)
    requires v < Pow256(width) && w < Pow256(width)
    ensures UnsignedFrom(UnsignedKey(v, width) + x, width) == Some(v) && (UnsignedKey(v, width) + x)[width..] == x
    ensures Less(UnsignedKey(v, width) + x, UnsignedKey(w, width) + y) <==> v < w || (v == w && Less(x, y))
  {
    UnsignedRoundTrip(v, width, x);
    LessByFront(UnsignedKey(v, width), UnsignedKey(w, width), x, y);
    UnsignedOrder(v, w, width);
    UnsignedOrder(w, v, width);
    if UnsignedKey(v, width) == UnsignedKey(w, width) {
      DigitsValue(v, width);
      DigitsValue(w, width);
    }
  }

  lemma {:induction false} OnlyMinusOneIsAllMax(v: int, width: nat)
    requires IsSigned(v, width) && width > 0
    ensures AllMax(SignedKey(v, width)) <==> v == -1
  {
    DigitsValue(Pow256(width) - 1, width);
    MaxValue(Digits(Pow256(width) - 1, width), width);
    DigitsValue(ToUnsigned(v, width), width);
    if AllMax(SignedKey(v, width)) {
      AllMaxValue(SignedKey(v, width));
    }
  }

  lemma {:induction false} AllMaxValue(d: Key)
    requires AllMax(d)
    ensures Value(d) == Pow256(|d|) - 1
  {
    if d != [] {
      AllMaxValue(d[..|d| - 1]);
    }
  }

  /** A key of the largest value has only largest bytes. */
  lemma {:induction false} MaxValue(d: Key, width: nat)
    requires |d| == width && Value(d) == Pow256(width) - 1
    ensures AllMax(d)
  {
    if d != [] {
      var d' := d[..width - 1];
      ValueBelow(d');
      MaxValue(d', width - 1);
      forall i | 0 <= i < width ensures d[i] == 0xff {
        assert i < width - 1 ==> d[i] == d'[i];
      }
    }
  }

  /** The keys with a given first number are those that start with it. */
  lemma {:induction false} PrefixIsFirst(v: int, width: nat, key: Key)
    requires IsSigned(v, width)
    ensures SignedKey(v, width) <= key <==> SignedFrom(key, width) == Some(v)
  {
    if SignedKey(v, width) <= key {
      SignedRoundTrip(v, width, key[width..]);
      assert key == SignedKey(v, width) + key[width..];
    } else if |key| >= width {
      KeyRoundTrip(key[..width]);
      assert key[..width][..width] == key[..width];
    }
  }

  lemma {:induction false} PrefixIsFirstUnsigned(v: nat, width: nat, key: Key)
    requires v < Pow256(width)
    ensures UnsignedKey(v, width) <= key <==> UnsignedFrom(key, width) == Some(v)
  {
    if UnsignedKey(v, width) <= key {
      UnsignedRoundTrip(v, width, key[width..]);
      assert key == UnsignedKey(v, width) + key[width..];
    } else if |key| >= width && Value(key[..width]) == v {
      DigitsValue(v, width);
      ValueInjective(Digits(v, width), key[..width]);
    }
  }

  /** What a scan over the range of a prefix returns: the keys with that prefix, or nothing if no byte of the
      prefix can be raised. */
  method PrefixScan(keys: set<Key>, start: Key) returns (found: set<Key>)
    ensures found == if AllMax(start) then {} else set key | key in keys && start <= key
  {
    var end := CalculateEndBytes(start);
    found := set key | key in keys && InRange(key, start, end);
  }

  /** A scan below a signed number returns exactly the entries filed under it, unless it is -1. */
  lemma {:induction false} ScanBySigned(v: int, width: nat, key: Key)
    requires IsSigned(v, width) && width > 0
    ensures !AllMax(SignedKey(v, width)) && SignedKey(v, width) <= key <==> v != -1 && SignedFrom(key, width) == Some(v)
  {
    OnlyMinusOneIsAllMax(v, width);
    PrefixIsFirst(v, width, key);
  }

  /** The same below an unsigned number, unless it is the largest. */
  lemma {:induction false} ScanByUnsigned(v: nat, width: nat, key: Key)
    requires v < Pow256(width) && width > 0
    ensures !AllMax(UnsignedKey(v, width)) && UnsignedKey(v, width) <= key
            <==> v != Pow256(width) - 1 && UnsignedFrom(key, width) == Some(v)
  {
    DigitsValue(v, width);
    if v == Pow256(width) - 1 {
      MaxValue(Digits(v, width), width);
    } else if AllMax(UnsignedKey(v, width)) {
      AllMaxValue(UnsignedKey(v, width));
    }
    PrefixIsFirstUnsigned(v, width, key);
  }
}
