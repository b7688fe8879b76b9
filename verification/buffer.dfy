/** In-place edits of an output buffer: the memcpy, memmove, memset and
    field stores ldid performs on its mapped output file. Each is stated
    against the byte-sequence function it performs (Splice, Put32, Put64). */
module Buffer {
  import opened Bytes

  /** memcpy(a + o, piece, |piece|). */
  method Write(a: array<byte>, o: nat, piece: seq<byte>)
    requires o + |piece| <= a.Length
    modifies a
    ensures a[..] == Splice(old(a[..]), o, piece)
  {
    var i := 0;
    while i < |piece|
      invariant 0 <= i <= |piece|
      invariant forall k :: 0 <= k < a.Length ==> a[k] == if o <= k < o + i then piece[k - o] else old(a[k])
    {
      a[o + i] := piece[i];
      i := i + 1;
    }
  }

  /** memset(a + o, 0, n). */
  method Clear(a: array<byte>, o: nat, n: nat)
    requires o + n <= a.Length
    modifies a
    ensures a[..] == Splice(old(a[..]), o, Zeros(n))
  {
    var i := 0;
    while i < n
      invariant 0 <= i <= n
      invariant forall k :: 0 <= k < a.Length ==> a[k] == if o <= k < o + i then 0 else old(a[k])
    {
      a[o + i] := 0;
      i := i + 1;
    }
  }

  /** A field store through Data::Swap (or the global Swap). */
  method Store32(a: array<byte>, o: nat, v: u32, swapped: bool)
    requires o + 4 <= a.Length
    modifies a
    ensures a[..] == Put32(old(a[..]), o, v, swapped)
  {
    Write(a, o, Encode32(v, swapped));
  }

  method Store64(a: array<byte>, o: nat, v: u64, swapped: bool)
    requires o + 8 <= a.Length
    modifies a
    ensures a[..] == Put64(old(a[..]), o, v, swapped)
  {
    Write(a, o, Encode64(v, swapped));
  }

  function Load32(a: array<byte>, o: nat, swapped: bool): (v: u32)
    reads a
    requires o + 4 <= a.Length
    ensures v == Get32(a[..], o, swapped)
  {
    var b := [a[o], a[o + 1], a[o + 2], a[o + 3]];
    Get32Frame(a[..], b, o, 0, swapped);
    if swapped then Value32(b[3], b[2], b[1], b[0]) else Value32(b[0], b[1], b[2], b[3])
  }

  function Load64(a: array<byte>, o: nat, swapped: bool): (v: u64)
    reads a
    requires o + 8 <= a.Length
    ensures v == Get64(a[..], o, swapped)
  {
    var first := Load32(a, o, swapped);
    var second := Load32(a, o + 4, swapped);
    if swapped then second + TWO_32 * first else first + TWO_32 * second
  }
}
