/** Byte order, alignment and fixed-width field access over byte sequences.

    ldid works on raw memory: it reads a `uint32_t` out of a mapped file with
    the host's byte order and then passes it through `Swap`, which reverses
    the bytes when the object's `swapped_` flag says so. The host is fixed
    here as little-endian (the common case that `main` detects at start-up),
    so a raw load is a little-endian load, `Data::Swap` with `swapped_` set
    turns it into a big-endian load, and the global `Swap` always reverses:
    everything it writes (signature blobs, the fat table) is big-endian. */
module Bytes {

  type byte = x: int | 0 <= x < 0x100
  type u16 = x: int | 0 <= x < 0x1_0000
  type u32 = x: int | 0 <= x < 0x1_0000_0000
  type u64 = x: int | 0 <= x < 0x1_0000_0000_0000_0000

  const TWO_32: int := 0x1_0000_0000
  const TWO_64: int := 0x1_0000_0000_0000_0000

  // ---------------------------------------------------------------------
  // Arithmetic helpers
  // ---------------------------------------------------------------------

  lemma MulAtLeast(k: int, m: int)
    requires k >= 1 && m >= 0
    ensures k * m >= m
  {}

  lemma MulDistrib(a: int, b: int, m: int)
    ensures a * m - b * m == (a - b) * m
  {}

  /** Euclidean division undoes `hi * m + lo` when `lo < m`. */
  lemma DivModSplit(hi: nat, lo: nat, m: nat)
    requires lo < m
    ensures (hi * m + lo) / m == hi && (hi * m + lo) % m == lo
  {
    var n := hi * m + lo;
    var q, r := n / m, n % m;
    assert q * m + r == n && 0 <= r < m;
    MulDistrib(q, hi, m);
    MulDistrib(hi, q, m);
    if q > hi {
      MulAtLeast(q - hi, m);
    } else if q < hi {
      MulAtLeast(hi - q, m);
    }
  }

  /** Every natural number splits into a quotient and a remainder. */
  lemma DivModJoin(n: nat, m: nat)
    requires m > 0
    ensures n == (n / m) * m + n % m
  {}

  // ---------------------------------------------------------------------
  // Swap_ (ldid.cpp:307-326): reverse the bytes of a 16, 32 or 64-bit value
  // ---------------------------------------------------------------------

  function Swap16(v: u16): u16
  {
    (v % 0x100) * 0x100 + v / 0x100
  }

  /** First the bytes inside each 16-bit half are exchanged, then the halves. */
  function Swap32(v: u32): u32
  {
    Swap16(v % 0x1_0000) * 0x1_0000 + Swap16(v / 0x1_0000)
  }

  /** Exchanges the 32-bit halves and reverses each of them, as the three
      mask-and-shift steps of the source do together. */
  function Swap64(v: u64): u64
  {
    Swap32(v % TWO_32) * TWO_32 + Swap32(v / TWO_32)
  }

  /** A 32-bit value assembled from its four bytes, least significant first. */
  function Value32(b0: byte, b1: byte, b2: byte, b3: byte): u32
  {
    b0 + 0x100 * b1 + 0x1_0000 * b2 + 0x100_0000 * b3
  }

  /** The bytes of a value can be read back out of it. */
  lemma Value32Digits(b0: byte, b1: byte, b2: byte, b3: byte)
    ensures var v := Value32(b0, b1, b2, b3);
      v % 0x100 == b0 && (v / 0x100) % 0x100 == b1 &&
      (v / 0x1_0000) % 0x100 == b2 && v / 0x100_0000 == b3 &&
      v % 0x1_0000 == b0 + 0x100 * b1 && v / 0x1_0000 == b2 + 0x100 * b3
  {
    var v := Value32(b0, b1, b2, b3);
    DivModSplit(b1 + 0x100 * b2 + 0x1_0000 * b3, b0, 0x100);
    DivModSplit(b2 + 0x100 * b3, b1, 0x100);
    DivModSplit(b3, b2, 0x100);
    DivModSplit(b2 + 0x100 * b3, b0 + 0x100 * b1, 0x1_0000);
    DivModSplit(b3, b0 + 0x100 * b1 + 0x1_0000 * b2, 0x100_0000);
    assert v / 0x100 == b1 + 0x100 * b2 + 0x1_0000 * b3;
    assert v / 0x1_0000 == b2 + 0x100 * b3;
  }

  /** Every 32-bit value is assembled from its own bytes. */
  lemma Value32OfDigits(v: u32)
    ensures v == Value32(v % 0x100, (v / 0x100) % 0x100, (v / 0x1_0000) % 0x100, v / 0x100_0000)
  {
    DivModJoin(v, 0x100);
    DivModJoin(v / 0x100, 0x100);
    DivModJoin(v / 0x1_0000, 0x100);
    assert (v / 0x100) / 0x100 == v / 0x1_0000;
    assert (v / 0x1_0000) / 0x100 == v / 0x100_0000;
  }

  lemma Swap16Involutive(v: u16)
    ensures Swap16(Swap16(v)) == v
  {
    DivModSplit(v % 0x100, v / 0x100, 0x100);
  }

  lemma Swap32Involutive(v: u32)
    ensures Swap32(Swap32(v)) == v
  {
    Swap16Involutive(v % 0x1_0000);
    Swap16Involutive(v / 0x1_0000);
    DivModSplit(Swap16(v % 0x1_0000), Swap16(v / 0x1_0000), 0x1_0000);
  }

  lemma Swap64Involutive(v: u64)
    ensures Swap64(Swap64(v)) == v
  {
    var lo, hi := v % TWO_32, v / TWO_32;
    DivModJoin(v, TWO_32);
    var w := Swap64(v);
    assert w == Swap32(lo) * TWO_32 + Swap32(hi);
    DivModSplit(Swap32(lo), Swap32(hi), TWO_32);
    assert w % TWO_32 == Swap32(hi) && w / TWO_32 == Swap32(lo);
    Swap32Involutive(lo);
    Swap32Involutive(hi);
    assert Swap64(w) == Swap32(Swap32(hi)) * TWO_32 + Swap32(Swap32(lo));
  }

  /** Swap32 reverses the order of the four bytes. */
  lemma Swap32Reverses(b0: byte, b1: byte, b2: byte, b3: byte)
    ensures Swap32(Value32(b0, b1, b2, b3)) == Value32(b3, b2, b1, b0)
  {
    Value32Digits(b0, b1, b2, b3);
    DivModSplit(b1, b0, 0x100);
    DivModSplit(b3, b2, 0x100);
  }

  // ---------------------------------------------------------------------
  // Data::Swap (ldid.cpp:385-407): swap only when the object is swapped
  // ---------------------------------------------------------------------

  function SwapIf32(swapped: bool, v: u32): u32
  {
    if swapped then Swap32(v) else v
  }

  function SwapIf64(swapped: bool, v: u64): u64
  {
    if swapped then Swap64(v) else v
  }

  // ---------------------------------------------------------------------
  // Align (ldid.cpp:300-305)
  // ---------------------------------------------------------------------

  /** Rounds `value` up to the next multiple of `align`. */
  function Align(value: nat, align: nat): (r: nat)
    requires align > 0
    ensures r % align == 0 && value <= r < value + align
  {
    DivModJoin(value + align - 1, align);
    ((value + align - 1) / align) * align
  }

  /** A multiple is left alone, and Align is the least multiple not below
      its argument. */
  lemma AlignLeast(value: nat, align: nat, m: nat)
    requires align > 0 && m % align == 0 && value <= m
    ensures Align(value, align) <= m
  {
    var r := Align(value, align);
    DivModJoin(r, align);
    DivModJoin(m, align);
    if m < r {
      var qm, qr := m / align, r / align;
      assert qm * align < qr * align;
      assert qm < qr by {
        if qm >= qr {
          if qm > qr { MulAtLeast(qm - qr, align); }
          MulDistrib(qm, qr, align);
        }
      }
      MulDistrib(qr, qm, align);
      MulAtLeast(qr - qm, align);
    }
  }

  lemma AlignOfMultiple(value: nat, align: nat)
    requires align > 0 && value % align == 0
    ensures Align(value, align) == value
  {
    AlignLeast(value, align, value);
  }

  /** Adding a multiple of the alignment commutes with Align. */
  lemma AlignShift(base: nat, value: nat, align: nat)
    requires align > 0 && base % align == 0
    ensures Align(base + value, align) == base + Align(value, align)
  {
    var a := Align(value, align);
    MultipleSum(base, a, align);
    AlignLeast(base + value, align, base + a);
    var b := Align(base + value, align);
    MultipleDiff(b, base, align);
    AlignLeast(value, align, b - base);
  }

  lemma MultipleSum(x: nat, y: nat, m: nat)
    requires m > 0 && x % m == 0 && y % m == 0
    ensures (x + y) % m == 0
  {
    DivModJoin(x, m);
    DivModJoin(y, m);
    assert x + y == (x / m + y / m) * m;
    DivModSplit(x / m + y / m, 0, m);
  }

  lemma MultipleDiff(x: nat, y: nat, m: nat)
    requires m > 0 && x % m == 0 && y % m == 0 && y <= x
    ensures (x - y) % m == 0
  {
    DivModJoin(x, m);
    DivModJoin(y, m);
    MulDistrib(x / m, y / m, m);
    assert x - y == (x / m - y / m) * m;
    if x / m < y / m {
      MulAtLeast(y / m - x / m, m);
      MulDistrib(y / m, x / m, m);
    }
    DivModSplit(x / m - y / m, 0, m);
  }

  /** A multiple of a multiple of d is a multiple of d. */
  lemma MultipleOfMultiple(x: nat, m: nat, d: nat)
    requires d > 0 && m > 0 && x % m == 0 && m % d == 0
    ensures x % d == 0
  {
    DivModJoin(x, m);
    DivModJoin(m, d);
    assert x == ((x / m) * (m / d)) * d;
    DivModSplit((x / m) * (m / d), 0, d);
  }

  // ---------------------------------------------------------------------
  // Loads and stores through a little-endian host
  // ---------------------------------------------------------------------

  function LE32(s: seq<byte>, o: nat): u32
    requires o + 4 <= |s|
  {
    Value32(s[o], s[o + 1], s[o + 2], s[o + 3])
  }

  function BE32(s: seq<byte>, o: nat): u32
    requires o + 4 <= |s|
  {
    Value32(s[o + 3], s[o + 2], s[o + 1], s[o])
  }

  /** A 32-bit field of an object whose byte order is `swapped`. */
  function Get32(s: seq<byte>, o: nat, swapped: bool): u32
    requires o + 4 <= |s|
  {
    if swapped then BE32(s, o) else LE32(s, o)
  }

  /** Get32 is a raw host load followed by Data::Swap. */
  lemma Get32IsSwappedLoad(s: seq<byte>, o: nat, swapped: bool)
    requires o + 4 <= |s|
    ensures Get32(s, o, swapped) == SwapIf32(swapped, LE32(s, o))
  {
    if swapped {
      Swap32Reverses(s[o], s[o + 1], s[o + 2], s[o + 3]);
    }
  }

  /** Reading a field in the other byte order yields the byte-swapped value. */
  lemma Get32OtherOrder(s: seq<byte>, o: nat, swapped: bool)
    requires o + 4 <= |s|
    ensures Get32(s, o, !swapped) == Swap32(Get32(s, o, swapped))
  {
    Swap32Reverses(s[o], s[o + 1], s[o + 2], s[o + 3]);
    Swap32Reverses(s[o + 3], s[o + 2], s[o + 1], s[o]);
  }

  function LEBytes32(v: u32): (r: seq<byte>)
    ensures |r| == 4
  {
    [v % 0x100, (v / 0x100) % 0x100, (v / 0x1_0000) % 0x100, v / 0x100_0000]
  }

  function BEBytes32(v: u32): (r: seq<byte>)
    ensures |r| == 4
  {
    [v / 0x100_0000, (v / 0x1_0000) % 0x100, (v / 0x100) % 0x100, v % 0x100]
  }

  /** The four bytes that store `v` in the given byte order. */
  function Encode32(v: u32, swapped: bool): (r: seq<byte>)
    ensures |r| == 4 && Get32(r, 0, swapped) == v
  {
    Value32OfDigits(v);
    if swapped then BEBytes32(v) else LEBytes32(v)
  }

  /** Encode32 is Data::Swap followed by a raw host store. */
  lemma Encode32IsSwappedStore(v: u32, swapped: bool)
    ensures Encode32(v, swapped) == LEBytes32(SwapIf32(swapped, v))
  {
    if swapped {
      var b := BEBytes32(v);
      Value32OfDigits(v);
      Swap32Reverses(b[3], b[2], b[1], b[0]);
      Value32Digits(b[0], b[1], b[2], b[3]);
    }
  }

  /** Replaces `|piece|` bytes of `s` starting at `o`. */
  function Splice(s: seq<byte>, o: nat, piece: seq<byte>): (r: seq<byte>)
    requires o + |piece| <= |s|
    ensures |r| == |s|
    ensures forall k {:trigger r[k]} :: 0 <= k < |s| ==> r[k] == if o <= k < o + |piece| then piece[k - o] else s[k]
    decreases |piece|
  {
    if piece == [] then s else Splice(s[o := piece[0]], o + 1, piece[1..])
  }

  /** After a splice, its range holds the piece... */
  lemma SplicePiece(s: seq<byte>, o: nat, piece: seq<byte>)
    requires o + |piece| <= |s|
    ensures Splice(s, o, piece)[o..o + |piece|] == piece
  {}

  /** ...and a range apart from it is as it was. */
  lemma SpliceApart(s: seq<byte>, o: nat, piece: seq<byte>, lo: nat, hi: nat)
    requires o + |piece| <= |s| && lo <= hi <= |s| && (hi <= o || o + |piece| <= lo)
    ensures Splice(s, o, piece)[lo..hi] == s[lo..hi]
  {}

  /** ...and the bytes before it stay as they were. */
  lemma SpliceBefore(s: seq<byte>, o: nat, piece: seq<byte>)
    requires o + |piece| <= |s|
    ensures Splice(s, o, piece)[..o] == s[..o]
  {
    var r := Splice(s, o, piece);
    assert forall k {:trigger r[k]} :: 0 <= k < o ==> r[k] == s[k];
  }

  /** Splicing in what is already there changes nothing. */
  lemma SpliceSame(s: seq<byte>, o: nat, n: nat)
    requires o + n <= |s|
    ensures Splice(s, o, s[o .. o + n]) == s
  {
    var r := Splice(s, o, s[o .. o + n]);
    assert forall k {:trigger r[k]} :: 0 <= k < |s| ==> r[k] == s[k];
  }

  /** A second splice at the same place that covers the first undoes it. */
  lemma SpliceOver(s: seq<byte>, o: nat, first: seq<byte>, second: seq<byte>)
    requires |first| <= |second| && o + |second| <= |s|
    ensures Splice(Splice(s, o, first), o, second) == Splice(s, o, second)
  {
    var x, y := Splice(Splice(s, o, first), o, second), Splice(s, o, second);
    assert forall k {:trigger x[k]} :: 0 <= k < |s| ==> x[k] == y[k];
  }

  /** A run inside a window reads the same through the window. */
  lemma SliceWithin(s: seq<byte>, base: nat, w: seq<byte>, i: nat, j: nat)
    requires base + |w| <= |s| && s[base .. base + |w|] == w && i <= j <= |w|
    ensures s[base + i .. base + j] == w[i..j]
  {
    assert forall k {:trigger s[k]} :: base + i <= k < base + j ==> s[k] == w[k - base];
  }

  /** Two splices side by side are one splice of both pieces. */
  lemma SpliceConcat(s: seq<byte>, o: nat, first: seq<byte>, second: seq<byte>)
    requires o + |first| + |second| <= |s|
    ensures Splice(Splice(s, o, first), o + |first|, second) == Splice(s, o, first + second)
  {
    var x, y := Splice(Splice(s, o, first), o + |first|, second), Splice(s, o, first + second);
    assert forall k {:trigger x[k]} :: 0 <= k < |s| ==> x[k] == y[k];
  }

  /** A splice inside a window that holds `w` is a splice of `w`. */
  lemma SpliceNested(s: seq<byte>, o: nat, w: seq<byte>, f: nat, piece: seq<byte>)
    requires o + |w| <= |s| && f + |piece| <= |w|
    ensures Splice(Splice(s, o, w), o + f, piece) == Splice(s, o, Splice(w, f, piece))
  {
    var x, y := Splice(Splice(s, o, w), o + f, piece), Splice(s, o, Splice(w, f, piece));
    assert forall k {:trigger x[k]} :: 0 <= k < |s| ==> x[k] == y[k];
  }

  /** Stores a 32-bit field; nothing outside its four bytes changes. */
  function Put32(s: seq<byte>, o: nat, v: u32, swapped: bool): (r: seq<byte>)
    requires o + 4 <= |s|
    ensures |r| == |s| && Get32(r, o, swapped) == v
    ensures forall k {:trigger r[k]} :: 0 <= k < |s| && (k < o || o + 4 <= k) ==> r[k] == s[k]
  {
    var e := Encode32(v, swapped);
    var r := Splice(s, o, e);
    Get32Frame(r, e, o, 0, swapped);
    r
  }

  /** A field is a function of its four bytes only. */
  lemma Get32Frame(s: seq<byte>, t: seq<byte>, o: nat, p: nat, swapped: bool)
    requires o + 4 <= |s| && p + 4 <= |t|
    requires s[o] == t[p] && s[o + 1] == t[p + 1] && s[o + 2] == t[p + 2] && s[o + 3] == t[p + 3]
    ensures Get32(s, o, swapped) == Get32(t, p, swapped)
  {}

  /** A field read inside a window of `s` that holds `w` is the same
      field of `w`. */
  lemma Get32Within(s: seq<byte>, base: nat, w: seq<byte>, f: nat, swapped: bool)
    requires base + |w| <= |s| && s[base..base + |w|] == w && f + 4 <= |w|
    ensures Get32(s, base + f, swapped) == Get32(w, f, swapped)
  {
    assert s[base + f] == w[f] && s[base + f + 1] == w[f + 1];
    assert s[base + f + 2] == w[f + 2] && s[base + f + 3] == w[f + 3];
    Get32Frame(s, w, base + f, f, swapped);
  }

  /** A store leaves every field it does not overlap as it was. */
  lemma Get32PutOther(s: seq<byte>, o: nat, v: u32, swapped: bool, p: nat, order: bool)
    requires o + 4 <= |s| && p + 4 <= |s| && (p + 4 <= o || o + 4 <= p)
    ensures Get32(Put32(s, o, v, swapped), p, order) == Get32(s, p, order)
  {
    Get32Frame(Put32(s, o, v, swapped), s, p, p, order);
  }

  /** A value cut to its low 32 bits, as unsigned C arithmetic does. */
  function Wrap32(x: int): (r: u32)
    ensures 0 <= x < TWO_32 ==> r == x
    ensures x == TWO_32 ==> r == 0
  {
    x % TWO_32
  }

  /** The same, to 64 bits. */
  function Wrap64(x: int): (r: u64)
    ensures 0 <= x < TWO_64 ==> r == x
    ensures x == TWO_64 ==> r == 0
  {
    x % TWO_64
  }

  // 64-bit fields: two 32-bit words, the low one first unless swapped.

  function Get64(s: seq<byte>, o: nat, swapped: bool): u64
    requires o + 8 <= |s|
  {
    if swapped then Get32(s, o + 4, true) + TWO_32 * Get32(s, o, true)
    else Get32(s, o, false) + TWO_32 * Get32(s, o + 4, false)
  }

  function Encode64(v: u64, swapped: bool): (r: seq<byte>)
    ensures |r| == 8 && Get64(r, 0, swapped) == v
  {
    var lo, hi := v % TWO_32, v / TWO_32;
    var r := if swapped then Encode32(hi, true) + Encode32(lo, true) else Encode32(lo, false) + Encode32(hi, false);
    assert r[..4] == (if swapped then Encode32(hi, true) else Encode32(lo, false));
    assert r[4..] == (if swapped then Encode32(lo, true) else Encode32(hi, false));
    Get32Frame(r, r[..4], 0, 0, swapped);
    Get32Frame(r, r[4..], 4, 0, swapped);
    DivModJoin(v, TWO_32);
    r
  }

  function Put64(s: seq<byte>, o: nat, v: u64, swapped: bool): (r: seq<byte>)
    requires o + 8 <= |s|
    ensures |r| == |s| && Get64(r, o, swapped) == v
    ensures forall k {:trigger r[k]} :: 0 <= k < |s| && (k < o || o + 8 <= k) ==> r[k] == s[k]
  {
    var e := Encode64(v, swapped);
    var r := Splice(s, o, e);
    Get32Frame(r, e, o, 0, swapped);
    Get32Frame(r, e, o + 4, 4, swapped);
    r
  }

  /** A 64-bit field is a function of its eight bytes only. */
  lemma Get64Frame(s: seq<byte>, t: seq<byte>, o: nat, p: nat, swapped: bool)
    requires o + 8 <= |s| && p + 8 <= |t| && s[o..o + 8] == t[p..p + 8]
    ensures Get64(s, o, swapped) == Get64(t, p, swapped)
  {
    assert forall k {:trigger s[o..o + 8][k]} :: 0 <= k < 8 ==> s[o + k] == s[o..o + 8][k] && t[p + k] == t[p..p + 8][k];
    Get32Frame(s, t, o, p, swapped);
    Get32Frame(s, t, o + 4, p + 4, swapped);
  }

  /** A 64-bit store leaves every 64-bit field it does not overlap as it was. */
  lemma Get64PutOther(s: seq<byte>, o: nat, v: u64, swapped: bool, p: nat, order: bool)
    requires o + 8 <= |s| && p + 8 <= |s| && (p + 8 <= o || o + 8 <= p)
    ensures Get64(Put64(s, o, v, swapped), p, order) == Get64(s, p, order)
  {
    var r := Put64(s, o, v, swapped);
    Get32Frame(r, s, p, p, order);
    Get32Frame(r, s, p + 4, p + 4, order);
  }

  /** Get64 is a raw host load followed by Data::Swap. */
  lemma Get64IsSwappedLoad(s: seq<byte>, o: nat, swapped: bool)
    requires o + 8 <= |s|
    ensures Get64(s, o, swapped) == SwapIf64(swapped, Get64(s, o, false))
  {
    if swapped {
      var lo, hi := LE32(s, o), LE32(s, o + 4);
      var v := Get64(s, o, false);
      assert v == hi * TWO_32 + lo;
      DivModSplit(hi, lo, TWO_32);
      assert v % TWO_32 == lo && v / TWO_32 == hi;
      Get32IsSwappedLoad(s, o, true);
      Get32IsSwappedLoad(s, o + 4, true);
      assert Swap64(v) == Swap32(lo) * TWO_32 + Swap32(hi);
    }
  }

  function Zeros(n: nat): (r: seq<byte>)
    ensures |r| == n && forall k :: 0 <= k < n ==> r[k] == 0
  {
    seq(n, _ => 0)
  }

  /** A stored 0 is four zero bytes in either byte order. */
  lemma PutZero(s: seq<byte>, o: nat, swapped: bool)
    requires o + 4 <= |s|
    ensures Put32(s, o, 0, swapped) == Splice(s, o, Zeros(4))
  {
    EncodeZero(0, swapped);
  }

  lemma EncodeZero(v: u32, swapped: bool)
    requires v == 0
    ensures Encode32(v, swapped) == Zeros(4)
  {
    assert LEBytes32(v) == Zeros(4) && BEBytes32(v) == Zeros(4) by {
      assert LEBytes32(v) == [0, 0, 0, 0] && BEBytes32(v) == [0, 0, 0, 0];
    }
  }

  /** Four zero bytes read as 0 in either byte order. */
  lemma ZerosRead(s: seq<byte>, o: nat, swapped: bool)
    requires o + 4 <= |s| && s[o .. o + 4] == Zeros(4)
    ensures Get32(s, o, swapped) == 0
  {
    assert s[o] == s[o .. o + 4][0] && s[o + 1] == s[o .. o + 4][1];
    assert s[o + 2] == s[o .. o + 4][2] && s[o + 3] == s[o .. o + 4][3];
  }

  // ---------------------------------------------------------------------
  // strncmp(a, b, n) == 0 over fixed-size name fields
  // ---------------------------------------------------------------------

  /** strncmp compares up to n characters and stops early at a NUL that
      both strings share. Compares positions i .. n-1. */
  function StrnEqFrom(a: seq<byte>, b: seq<byte>, i: nat, n: nat): bool
    requires n <= |a| && n <= |b| && i <= n
    decreases n - i
  {
    i == n || (a[i] == b[i] && (a[i] == 0 || StrnEqFrom(a, b, i + 1, n)))
  }

  /** A C string literal as the 16-byte name field it is compared with: the
      name, its NUL and zero padding. */
  function NameField(name: seq<byte>): (r: seq<byte>)
    requires |name| < 16
    ensures |r| == 16
  {
    name + Zeros(16 - |name|)
  }

  /** A 16-byte field matches a shorter NUL-free name exactly when it holds
      the name followed by a NUL; whatever follows the NUL is ignored. */
  lemma {:induction false} NameMatches(field: seq<byte>, name: seq<byte>, i: nat)
    requires |field| == 16 && |name| < 16 && i <= |name|
    requires forall k :: 0 <= k < |name| ==> name[k] != 0
    ensures StrnEqFrom(field, NameField(name), i, 16) <==>
            (field[i..|name|] == name[i..] && field[|name|] == 0)
    decreases |name| - i
  {
    var b := NameField(name);
    if i == |name| {
      assert b[i] == 0;
      assert field[i..|name|] == [] == name[i..];
    } else {
      assert b[i] == name[i] != 0;
      NameMatches(field, name, i + 1);
      assert field[i..|name|] == [field[i]] + field[i + 1..|name|];
      assert name[i..] == [name[i]] + name[i + 1..];
    }
  }
}
