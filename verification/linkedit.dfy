/** The __LINKEDIT stretch of the relocator (ldid.cpp:1094-1104): every
    segment named __LINKEDIT, 32-bit ones first, gets its file size set to
    reach the new end of the slice and its memory size rounded up to a
    page. */
module Linkedit {
  import opened Bytes
  import opened MachO
  import opened Edits

  /** "__LINKEDIT", the segment whose size follows the slice's. */
  const LINKEDIT: seq<byte> := [0x5f, 0x5f, 0x4c, 0x49, 0x4e, 0x4b, 0x45, 0x44, 0x49, 0x54]
  const PAGE: nat := 0x1000

  // ---------------------------------------------------------------------
  // __LINKEDIT (ldid.cpp:1094-1104)
  // ---------------------------------------------------------------------

  // segment_command keeps vmsize at 28, fileoff at 32 and filesize at 36;
  // segment_command_64 keeps them at 32, 40 and 48, eight bytes each.

  /** Sizes that end a segment at `end`: the file size is end - fileoff
      in `width`-bit arithmetic, so the file bytes reach exactly there
      when the segment starts below it, and the memory size is the file
      size rounded up to a page (zero once that no longer fits). */
  predicate EndsAt(vmsize: nat, fileoff: nat, filesize: nat, end: u32, width: nat)
  {
    var limit := if width == 32 then TWO_32 else TWO_64;
    && filesize == (end - fileoff) % limit
    && vmsize % PAGE == 0
    && (filesize <= limit - PAGE ==> filesize <= vmsize < filesize + PAGE)
  }

  /** A 32-bit segment that ends at `end`. */
  predicate Ends32(s: seq<byte>, o: nat, end: u32, swapped: bool)
    requires o + 40 <= |s|
  {
    EndsAt(Get32(s, o + 28, swapped), Get32(s, o + 32, swapped), Get32(s, o + 36, swapped), end, 32)
  }

  /** The same for a 64-bit segment. */
  predicate Ends64(s: seq<byte>, o: nat, end: u32, swapped: bool)
    requires o + 56 <= |s|
  {
    EndsAt(Get64(s, o + 32, swapped), Get64(s, o + 40, swapped), Get64(s, o + 48, swapped), end, 64)
  }

  /** vmsize = Align(filesize, 4096) cut to 32 bits is a page multiple,
      and covers the file size by less than a page while that fits. */
  lemma PageRound32(size: u32)
    ensures var v := Wrap32(Align(size, PAGE));
      && v % PAGE == 0 && (size <= TWO_32 - PAGE ==> size <= v < size + PAGE)
  {
    AlignLeast(size, PAGE, TWO_32);
  }

  /** The same cut to 64 bits. */
  lemma PageRound64(size: u64)
    ensures var v := Wrap64(Align(size, PAGE));
      && v % PAGE == 0 && (size <= TWO_64 - PAGE ==> size <= v < size + PAGE)
  {
    AlignLeast(size, PAGE, TWO_64);
  }

  /** filesize = end - fileoff, then vmsize = Align(filesize, 4096), each
      in 32-bit arithmetic and stored in the slice's byte order. */
  function Resize32(t: seq<byte>, swapped: bool, o: nat, end: u32): (r: seq<byte>)
    requires o + 40 <= |t|
    ensures |r| == |t| && Ends32(r, o, end, swapped)
    ensures Get32(r, o + 32, swapped) == Get32(t, o + 32, swapped)
    ensures forall k {:trigger r[k]} :: 0 <= k < |t| && !(o + 28 <= k < o + 40) ==> r[k] == t[k]
  {
    var size := Wrap32(end - Get32(t, o + 32, swapped));
    var sized := Put32(t, o + 36, size, swapped);
    PageRound32(size);
    var r := Put32(sized, o + 28, Wrap32(Align(size, PAGE)), swapped);
    Get32PutOther(t, o + 36, size, swapped, o + 32, swapped);
    Get32PutOther(sized, o + 28, Wrap32(Align(size, PAGE)), swapped, o + 32, swapped);
    Get32PutOther(sized, o + 28, Wrap32(Align(size, PAGE)), swapped, o + 36, swapped);
    r
  }

  /** The same for a 64-bit segment: end - fileoff in 64 bits. */
  function Resize64(t: seq<byte>, swapped: bool, o: nat, end: u32): (r: seq<byte>)
    requires o + 56 <= |t|
    ensures |r| == |t| && Ends64(r, o, end, swapped)
    ensures Get64(r, o + 40, swapped) == Get64(t, o + 40, swapped)
    ensures forall k {:trigger r[k]} :: 0 <= k < |t| && !(o + 32 <= k < o + 56) ==> r[k] == t[k]
  {
    var size := Wrap64(end - Get64(t, o + 40, swapped));
    var sized := Put64(t, o + 48, size, swapped);
    PageRound64(size);
    var r := Put64(sized, o + 32, Wrap64(Align(size, PAGE)), swapped);
    Get64PutOther(t, o + 48, size, swapped, o + 40, swapped);
    Get64PutOther(sized, o + 32, Wrap64(Align(size, PAGE)), swapped, o + 40, swapped);
    Get64PutOther(sized, o + 32, Wrap64(Align(size, PAGE)), swapped, o + 48, swapped);
    r
  }

  // ---------------------------------------------------------------------
  // As written: the size is kept already in the slice's byte order
  // ---------------------------------------------------------------------

  /** ldid.cpp:1095-1097 as it reads: `size` holds end - fileoff already
      put into the slice's byte order, filesize receives it unchanged, and
      vmsize receives Align of that swapped value. */
  function Resize32AsWritten(t: seq<byte>, swapped: bool, o: nat, end: u32): (r: seq<byte>)
    requires o + 40 <= |t|
    ensures |r| == |t|
  {
    var raw := SwapIf32(swapped, Wrap32(end - Get32(t, o + 32, swapped)));
    Put32(Put32(t, o + 36, raw, false), o + 28, Wrap32(Align(raw, PAGE)), false)
  }

  /** As written, the file size is still right in both byte orders. */
  lemma Resize32AsWrittenFilesize(t: seq<byte>, swapped: bool, o: nat, end: u32)
    requires o + 40 <= |t|
    ensures var r := Resize32AsWritten(t, swapped, o, end);
      && Get32(r, o + 32, swapped) == Get32(t, o + 32, swapped)
      && (Get32(r, o + 32, swapped) <= end ==> Get32(r, o + 32, swapped) + Get32(r, o + 36, swapped) == end)
  {
    var size := Wrap32(end - Get32(t, o + 32, swapped));
    var raw := SwapIf32(swapped, size);
    var sized := Put32(t, o + 36, raw, false);
    Get32PutOther(t, o + 36, raw, false, o + 32, swapped);
    Get32PutOther(sized, o + 28, Wrap32(Align(raw, PAGE)), false, o + 32, swapped);
    Get32PutOther(sized, o + 28, Wrap32(Align(raw, PAGE)), false, o + 36, swapped);
    Get32IsSwappedLoad(sized, o + 36, swapped);
    Swap32Involutive(size);
  }

  /** In a slice of the host's byte order the stretch as written is the
      intended one. */
  lemma Resize32AsWrittenUnswapped(t: seq<byte>, o: nat, end: u32)
    requires o + 40 <= |t|
    ensures Resize32AsWritten(t, false, o, end) == Resize32(t, false, o, end)
  {
  }

  /** The 64-bit loop as it reads (ldid.cpp:1101-1103). */
  function Resize64AsWritten(t: seq<byte>, swapped: bool, o: nat, end: u32): (r: seq<byte>)
    requires o + 56 <= |t|
    ensures |r| == |t|
  {
    var raw := SwapIf64(swapped, Wrap64(end - Get64(t, o + 40, swapped)));
    Put64(Put64(t, o + 48, raw, false), o + 32, Wrap64(Align(raw, PAGE)), false)
  }

  /** As written, the file size is still right in both byte orders. */
  lemma Resize64AsWrittenFilesize(t: seq<byte>, swapped: bool, o: nat, end: u32)
    requires o + 56 <= |t|
    ensures var r := Resize64AsWritten(t, swapped, o, end);
      && Get64(r, o + 40, swapped) == Get64(t, o + 40, swapped)
      && (Get64(r, o + 40, swapped) <= end ==> Get64(r, o + 40, swapped) + Get64(r, o + 48, swapped) == end)
  {
    var size := Wrap64(end - Get64(t, o + 40, swapped));
    var raw := SwapIf64(swapped, size);
    var sized := Put64(t, o + 48, raw, false);
    var r := Put64(sized, o + 32, Wrap64(Align(raw, PAGE)), false);
    Get64PutOther(t, o + 48, raw, false, o + 40, swapped);
    Get64PutOther(sized, o + 32, Wrap64(Align(raw, PAGE)), false, o + 40, swapped);
    Raw64ReadsBack(sized, r, o + 48, size, swapped);
  }

  /** A value stored raw after Data::Swap reads back through Data::Swap. */
  lemma Raw64ReadsBack(s: seq<byte>, r: seq<byte>, p: nat, v: u64, swapped: bool)
    requires p + 8 <= |s| && |r| == |s| && Get64(s, p, false) == SwapIf64(swapped, v)
    requires forall k {:trigger r[k]} :: p <= k < p + 8 ==> r[k] == s[k]
    ensures Get64(r, p, swapped) == v
  {
    assert r[p..p + 8] == s[p..p + 8];
    Get64Frame(r, s, p, p, false);
    Get64IsSwappedLoad(r, p, swapped);
    Swap64Involutive(v);
  }

  /** In a slice of the host's byte order the stretch as written is the
      intended one. */
  lemma Resize64AsWrittenUnswapped(t: seq<byte>, o: nat, end: u32)
    requires o + 56 <= |t|
    ensures Resize64AsWritten(t, false, o, end) == Resize64(t, false, o, end)
  {
  }

  /** As written, vmsize holds, raw, Align of the swapped size: a page
      multiple in the host's order rather than in the slice's. */
  lemma Resize32AsWrittenVmsize(t: seq<byte>, swapped: bool, o: nat, end: u32)
    requires o + 40 <= |t|
    ensures Get32(Resize32AsWritten(t, swapped, o, end), o + 28, swapped)
      == SwapIf32(swapped, Wrap32(Align(SwapIf32(swapped, Wrap32(end - Get32(t, o + 32, swapped))), PAGE)))
  {
    Get32IsSwappedLoad(Resize32AsWritten(t, swapped, o, end), o + 28, swapped);
  }

  /** The same for a 64-bit segment. */
  lemma Resize64AsWrittenVmsize(t: seq<byte>, swapped: bool, o: nat, end: u32)
    requires o + 56 <= |t|
    ensures Get64(Resize64AsWritten(t, swapped, o, end), o + 32, swapped)
      == SwapIf64(swapped, Wrap64(Align(SwapIf64(swapped, Wrap64(end - Get64(t, o + 40, swapped))), PAGE)))
  {
    Get64IsSwappedLoad(Resize64AsWritten(t, swapped, o, end), o + 32, swapped);
  }

  /** 0x1001 byte-reversed in 32 bits is 0x01100000. */
  lemma SwapPage32()
    ensures Swap32(0x1001) == 0x0110_0000
  {
    assert 0x1001 % 0x1_0000 == 0x1001 && 0x1001 / 0x1_0000 == 0;
    assert 0x1001 % 0x100 == 1 && 0x1001 / 0x100 == 0x10;
    assert Swap16(0x1001) == 0x110;
    assert Swap16(0) == 0;
  }

  /** In 64 bits it is 0x01100000 shifted to the high word. */
  lemma SwapPage64(x: u64)
    requires x == 0x1001
    ensures Swap64(x) == 0x0110_0000_0000_0000
  {
    SwapPage32();
    var lo, hi := x % TWO_32, x / TWO_32;
    assert lo == 0x1001 && hi == 0;
    assert Swap16(hi % 0x1_0000) == 0 && Swap16(hi / 0x1_0000) == 0;
    assert Swap32(hi) == 0;
  }

  /** The vmsize read back, as written, for a swapped size of 0x1001. */
  lemma SwappedPage32(v: u32, size: u32)
    requires size == 0x1001 && v == SwapIf32(true, Wrap32(Align(SwapIf32(true, size), PAGE)))
    ensures v == 0x1001
  {
    SwapPage32();
    assert SwapIf32(true, size) == 0x0110_0000;
    AlignOfMultiple(0x0110_0000, PAGE);
    assert Align(SwapIf32(true, size), PAGE) == 0x0110_0000;
    assert Wrap32(Align(SwapIf32(true, size), PAGE)) == 0x0110_0000;
    Swap32Involutive(0x1001);
  }

  /** The same in 64 bits. */
  lemma SwappedPage64(v: u64, size: u64)
    requires size == 0x1001 && v == SwapIf64(true, Wrap64(Align(SwapIf64(true, size), PAGE)))
    ensures v == 0x1001
  {
    var raw := 0x0110_0000_0000_0000;
    SwapPage64(size);
    assert SwapIf64(true, size) == raw;
    AlignOfMultiple(raw, PAGE);
    assert Align(SwapIf64(true, size), PAGE) == raw;
    assert Wrap64(Align(SwapIf64(true, size), PAGE)) == raw;
    Swap64Involutive(size);
  }

  /** The one page multiple within a page above 0x1001. */
  lemma NextPage(v: int)
    requires v % PAGE == 0 && 0x1001 <= v < 0x2001
    ensures v == 0x2000
  {
  }

  /** A segment at file offset 0 that ends at 0x1001 spans two pages. */
  lemma TwoPages(vmsize: nat, filesize: nat, width: nat)
    requires EndsAt(vmsize, 0, filesize, 0x1001, width)
    ensures vmsize == 0x2000
  {
    var limit := if width == 32 then TWO_32 else TWO_64;
    assert 0x1001 % limit == 0x1001;
    assert 0x1001 <= limit - PAGE;
    NextPage(vmsize);
  }

  lemma TwoPages32(s: seq<byte>, o: nat, swapped: bool)
    requires o + 40 <= |s| && Ends32(s, o, 0x1001, swapped) && Get32(s, o + 32, swapped) == 0
    ensures Get32(s, o + 28, swapped) == 0x2000
  {
    TwoPages(Get32(s, o + 28, swapped), Get32(s, o + 36, swapped), 32);
  }

  /** The same for a 64-bit segment. */
  lemma TwoPages64(s: seq<byte>, o: nat, swapped: bool)
    requires o + 56 <= |s| && Ends64(s, o, 0x1001, swapped) && Get64(s, o + 40, swapped) == 0
    ensures Get64(s, o + 32, swapped) == 0x2000
  {
    TwoPages(Get64(s, o + 32, swapped), Get64(s, o + 48, swapped), 64);
  }

  /** In a slice of the other byte order, a 32-bit segment at file offset
      0 that must reach 0x1001 keeps vmsize 0x1001 as written:
      Swap32(0x1001) is 0x01100000, already a page multiple, so Align
      leaves it and it reads back as 0x1001. The stretch meant to store
      0x2000. */
  lemma Resize32SwappedVmsize(t: seq<byte>, o: nat)
    requires o + 40 <= |t| && Get32(t, o + 32, true) == 0
    ensures Get32(Resize32AsWritten(t, true, o, 0x1001), o + 28, true) == 0x1001
    ensures !Ends32(Resize32AsWritten(t, true, o, 0x1001), o, 0x1001, true)
    ensures Get32(Resize32(t, true, o, 0x1001), o + 28, true) == 0x2000
  {
    Resize32AsWrittenVmsize(t, true, o, 0x1001);
    var a := Resize32AsWritten(t, true, o, 0x1001);
    SwappedPage32(Get32(a, o + 28, true), Wrap32(0x1001 - Get32(t, o + 32, true)));
    TwoPages32(Resize32(t, true, o, 0x1001), o, true);
  }

  /** The same for a 64-bit segment. */
  lemma Resize64SwappedVmsize(t: seq<byte>, o: nat)
    requires o + 56 <= |t| && Get64(t, o + 40, true) == 0
    ensures Get64(Resize64AsWritten(t, true, o, 0x1001), o + 32, true) == 0x1001
    ensures !Ends64(Resize64AsWritten(t, true, o, 0x1001), o, 0x1001, true)
    ensures Get64(Resize64(t, true, o, 0x1001), o + 32, true) == 0x2000
  {
    Resize64AsWrittenVmsize(t, true, o, 0x1001);
    var a := Resize64AsWritten(t, true, o, 0x1001);
    SwappedPage64(Get64(a, o + 32, true), Wrap64(0x1001 - Get64(t, o + 40, true)));
    TwoPages64(Resize64(t, true, o, 0x1001), o, true);
  }

  // ---------------------------------------------------------------------
  // The loops over GetSegments / GetSegments64 ("__LINKEDIT")
  // ---------------------------------------------------------------------

  /** The 32-bit loop: Resize32 on each listed segment, in list order. */
  function ResizeAll32(t: seq<byte>, swapped: bool, segs: seq<nat>, end: u32): (r: seq<byte>)
    requires forall i :: 0 <= i < |segs| ==> segs[i] + 40 <= |t|
    ensures |r| == |t|
    decreases |segs|
  {
    if segs == [] then t
    else Resize32(ResizeAll32(t, swapped, segs[..|segs| - 1], end), swapped, segs[|segs| - 1], end)
  }

  /** The 64-bit loop. */
  function ResizeAll64(t: seq<byte>, swapped: bool, segs: seq<nat>, end: u32): (r: seq<byte>)
    requires forall i :: 0 <= i < |segs| ==> segs[i] + 56 <= |t|
    ensures |r| == |t|
    decreases |segs|
  {
    if segs == [] then t
    else Resize64(ResizeAll64(t, swapped, segs[..|segs| - 1], end), swapped, segs[|segs| - 1], end)
  }

  /** Both loops, 32-bit segments first, over the slice with its new end:
      the slice stays valid with the same commands and segment lists, and
      every __LINKEDIT segment, 32-bit or 64-bit, ends at `end` with its
      memory size the page-rounded file size. */
  function ResizeLinkedit(w: seq<byte>, h: Header, end: u32): (r: seq<byte>)
    requires Valid(w, h)
    ensures |r| == |w| && SameLayout(r, w, h)
    ensures forall p :: p in GetSegments(w, h, LINKEDIT) ==> p + 40 <= |r| && Ends32(r, p, end, h.swapped)
    ensures forall p :: p in GetSegments64(w, h, LINKEDIT) ==> p + 56 <= |r| && Ends64(r, p, end, h.swapped)
  {
    var sw := h.swapped;
    var segs := GetSegments(w, h, LINKEDIT);
    ResizeAll32Keeps(w, h, segs, end);
    SegmentsSpaced32(w, h);
    ResizeAll32Ends(w, sw, segs, end);
    var mid := ResizeAll32(w, sw, segs, end);
    var segs64 := GetSegments64(mid, h, LINKEDIT);
    ResizeAll64Keeps(mid, h, segs64, end);
    SegmentsSpaced64(mid, h);
    ResizeAll64Ends(mid, sw, segs64, end);
    var r := ResizeAll64(mid, sw, segs64, end);
    KeptThrough64(mid, h, segs, end);
    Listed32(r, segs, end, sw);
    Listed64(r, segs64, end, sw);
    r
  }

  // ---------------------------------------------------------------------
  // What the loops keep and establish
  // ---------------------------------------------------------------------

  /** The resized slice's own __LINKEDIT segments, 32-bit and 64-bit, all
      end at `end`. */
  lemma ResizedEnds(w: seq<byte>, h: Header, end: u32)
    requires Valid(w, h)
    ensures var r := ResizeLinkedit(w, h, end);
      && Valid(r, h)
      && (forall p :: p in GetSegments(r, h, LINKEDIT) ==> p + 40 <= |r| && Ends32(r, p, end, h.swapped))
      && (forall p :: p in GetSegments64(r, h, LINKEDIT) ==> p + 56 <= |r| && Ends64(r, p, end, h.swapped))
  {
    var r := ResizeLinkedit(w, h, end);
    assert GetSegments(r, h, LINKEDIT) == GetSegments(w, h, LINKEDIT);
    assert GetSegments64(r, h, LINKEDIT) == GetSegments64(w, h, LINKEDIT);
  }

  /** `r` is a valid slice with the same header, commands and segment
      lists as `t`. */
  ghost predicate SameLayout(r: seq<byte>, t: seq<byte>, h: Header)
    requires WellFormed(t, h)
  {
    && Valid(r, h) && GetLoadCommands(r, h) == GetLoadCommands(t, h)
    && (forall name :: GetSegments(r, h, name) == GetSegments(t, h, name))
    && (forall name :: GetSegments64(r, h, name) == GetSegments64(t, h, name))
  }

  /** Ends32 reads only the segment's three size fields. */
  lemma Ends32Frame(s: seq<byte>, t: seq<byte>, o: nat, end: u32, swapped: bool)
    requires o + 40 <= |s| && o + 40 <= |t|
    requires forall k {:trigger t[k]} :: o + 28 <= k < o + 40 ==> t[k] == s[k]
    ensures Ends32(t, o, end, swapped) == Ends32(s, o, end, swapped)
  {
    Get32Frame(s, t, o + 28, o + 28, swapped);
    Get32Frame(s, t, o + 32, o + 32, swapped);
    Get32Frame(s, t, o + 36, o + 36, swapped);
  }

  /** Ends64 reads only the segment's three size fields. */
  lemma Ends64Frame(s: seq<byte>, t: seq<byte>, o: nat, end: u32, swapped: bool)
    requires o + 56 <= |s| && o + 56 <= |t|
    requires forall k {:trigger t[k]} :: o + 32 <= k < o + 56 ==> t[k] == s[k]
    ensures Ends64(t, o, end, swapped) == Ends64(s, o, end, swapped)
  {
    assert t[o + 32..o + 40] == s[o + 32..o + 40];
    assert t[o + 40..o + 48] == s[o + 40..o + 48];
    assert t[o + 48..o + 56] == s[o + 48..o + 56];
    Get64Frame(t, s, o + 32, o + 32, swapped);
    Get64Frame(t, s, o + 40, o + 40, swapped);
    Get64Frame(t, s, o + 48, o + 48, swapped);
  }

  /** A listed 32-bit segment is a listed command with room for its
      size fields. */
  lemma Segment32Fields(s: seq<byte>, h: Header, c: nat)
    requires WellFormed(s, h) && c in GetSegments(s, h, LINKEDIT)
    ensures c in GetLoadCommands(s, h) && c + 8 <= |s| && Cmd(s, c, h.swapped) == LC_SEGMENT
    ensures h.CommandsStart() <= c && c + 40 <= c + CmdSize(s, c, h.swapped) <= |s|
  {
    var cmds := GetLoadCommands(s, h);
    var i :| 0 <= i < |cmds| && cmds[i] == c;
  }

  /** A listed 64-bit segment likewise. */
  lemma Segment64Fields(s: seq<byte>, h: Header, c: nat)
    requires WellFormed(s, h) && c in GetSegments64(s, h, LINKEDIT)
    ensures c in GetLoadCommands(s, h) && c + 8 <= |s| && Cmd(s, c, h.swapped) == LC_SEGMENT_64
    ensures h.CommandsStart() <= c && c + 56 <= c + CmdSize(s, c, h.swapped) <= |s|
  {
    var cmds := GetLoadCommands(s, h);
    var i :| 0 <= i < |cmds| && cmds[i] == c;
  }

  /** Changing only bytes past the name of one listed command keeps the
      header, the commands and both segment lists. */
  lemma SizesEdited(s: seq<byte>, r: seq<byte>, h: Header, c: nat, w: nat, len: nat)
    requires Valid(s, h) && c in GetLoadCommands(s, h) && h.CommandsStart() <= c
    requires InBody(s, c, w, len, h.swapped) && c + 24 <= w && |r| == |s|
    requires forall k {:trigger r[k]} :: 0 <= k < |s| && !(w <= k < w + len) ==> r[k] == s[k]
    ensures SameLayout(r, s, h)
  {
    EditInCommand(s, r, h, c, w, len);
    HeaderKept(s, r);
  }

  /** One 32-bit __LINKEDIT segment stretched: the header, the commands
      and both segment lists stay as they were. */
  lemma Resize32Step(s: seq<byte>, h: Header, c: nat, end: u32)
    requires Valid(s, h) && c in GetSegments(s, h, LINKEDIT)
    ensures c in GetLoadCommands(s, h) && c + 40 <= |s|
    ensures SameLayout(Resize32(s, h.swapped, c, end), s, h)
  {
    Segment32Fields(s, h, c);
    SizesEdited(s, Resize32(s, h.swapped, c, end), h, c, c + 28, 12);
  }

  /** One 64-bit __LINKEDIT segment stretched. */
  lemma Resize64Step(s: seq<byte>, h: Header, c: nat, end: u32)
    requires Valid(s, h) && c in GetSegments64(s, h, LINKEDIT)
    ensures c in GetLoadCommands(s, h) && c + 56 <= |s|
    ensures SameLayout(Resize64(s, h.swapped, c, end), s, h)
  {
    Segment64Fields(s, h, c);
    SizesEdited(s, Resize64(s, h.swapped, c, end), h, c, c + 32, 24);
  }

  /** Distinct offsets in `segs` lie at least `span` bytes apart. */
  predicate Spaced(segs: seq<nat>, span: nat)
  {
    forall i, j :: 0 <= i < |segs| && 0 <= j < |segs| && segs[i] != segs[j] ==>
      segs[i] + span <= segs[j] || segs[j] + span <= segs[i]
  }

  /** The `pspan` bytes from `p` overlap none of the `span` bytes from any
      offset in `segs`. */
  predicate Clear(p: nat, pspan: nat, segs: seq<nat>, span: nat)
  {
    forall i :: 0 <= i < |segs| ==> p + pspan <= segs[i] || segs[i] + span <= p
  }

  /** Distinct 32-bit __LINKEDIT segments are distinct commands, so their
      first 40 bytes do not overlap. */
  lemma SegmentsSpaced32(s: seq<byte>, h: Header)
    requires WellFormed(s, h)
    ensures Spaced(GetSegments(s, h, LINKEDIT), 40)
  {
    var segs := GetSegments(s, h, LINKEDIT);
    forall i, j | 0 <= i < |segs| && 0 <= j < |segs| && segs[i] != segs[j]
      ensures segs[i] + 40 <= segs[j] || segs[j] + 40 <= segs[i]
    {
      Segment32Fields(s, h, segs[i]);
      Segment32Fields(s, h, segs[j]);
      Apart(s, h, segs[i], segs[j]);
    }
  }

  /** The same for the first 56 bytes of 64-bit segments. */
  lemma SegmentsSpaced64(s: seq<byte>, h: Header)
    requires WellFormed(s, h)
    ensures Spaced(GetSegments64(s, h, LINKEDIT), 56)
  {
    var segs := GetSegments64(s, h, LINKEDIT);
    forall i, j | 0 <= i < |segs| && 0 <= j < |segs| && segs[i] != segs[j]
      ensures segs[i] + 56 <= segs[j] || segs[j] + 56 <= segs[i]
    {
      Segment64Fields(s, h, segs[i]);
      Segment64Fields(s, h, segs[j]);
      Apart(s, h, segs[i], segs[j]);
    }
  }

  /** A 32-bit segment is a different command from every 64-bit one. */
  lemma SegmentsClear(s: seq<byte>, h: Header, p: nat)
    requires WellFormed(s, h) && p in GetSegments(s, h, LINKEDIT)
    ensures Clear(p, 40, GetSegments64(s, h, LINKEDIT), 56)
  {
    var segs := GetSegments64(s, h, LINKEDIT);
    Segment32Fields(s, h, p);
    forall i | 0 <= i < |segs|
      ensures p + 40 <= segs[i] || segs[i] + 56 <= p
    {
      Segment64Fields(s, h, segs[i]);
      Apart(s, h, p, segs[i]);
    }
  }

  /** Stretching the segment at `c` keeps every segment that lies apart
      from it ending where it did. */
  lemma StepKeeps32(m: seq<byte>, r: seq<byte>, prev: seq<nat>, c: nat, end: u32, sw: bool)
    requires c + 40 <= |m| && |r| == |m|
    requires forall k {:trigger r[k]} :: 0 <= k < |m| && !(c + 28 <= k < c + 40) ==> r[k] == m[k]
    requires Ends32(r, c, end, sw)
    requires forall i :: 0 <= i < |prev| ==> prev[i] + 40 <= |m| && Ends32(m, prev[i], end, sw)
    requires forall i :: 0 <= i < |prev| ==> prev[i] == c || prev[i] + 40 <= c || c + 40 <= prev[i]
    ensures forall i :: 0 <= i < |prev| ==> prev[i] + 40 <= |r| && Ends32(r, prev[i], end, sw)
  {
    forall i | 0 <= i < |prev|
      ensures prev[i] + 40 <= |r| && Ends32(r, prev[i], end, sw)
    {
      if prev[i] != c {
        Ends32Frame(m, r, prev[i], end, sw);
      }
    }
  }

  /** The same for 64-bit segments. */
  lemma StepKeeps64(m: seq<byte>, r: seq<byte>, prev: seq<nat>, c: nat, end: u32, sw: bool)
    requires c + 56 <= |m| && |r| == |m|
    requires forall k {:trigger r[k]} :: 0 <= k < |m| && !(c + 32 <= k < c + 56) ==> r[k] == m[k]
    requires Ends64(r, c, end, sw)
    requires forall i :: 0 <= i < |prev| ==> prev[i] + 56 <= |m| && Ends64(m, prev[i], end, sw)
    requires forall i :: 0 <= i < |prev| ==> prev[i] == c || prev[i] + 56 <= c || c + 56 <= prev[i]
    ensures forall i :: 0 <= i < |prev| ==> prev[i] + 56 <= |r| && Ends64(r, prev[i], end, sw)
  {
    forall i | 0 <= i < |prev|
      ensures prev[i] + 56 <= |r| && Ends64(r, prev[i], end, sw)
    {
      if prev[i] != c {
        Ends64Frame(m, r, prev[i], end, sw);
      }
    }
  }

  /** Sizes that hold for each earlier segment and for the last one hold
      for the whole list. */
  lemma Assemble32(r: seq<byte>, prev: seq<nat>, c: nat, segs: seq<nat>, end: u32, sw: bool)
    requires segs != [] && prev == segs[..|segs| - 1] && c == segs[|segs| - 1]
    requires c + 40 <= |r| && Ends32(r, c, end, sw)
    requires forall i :: 0 <= i < |prev| ==> prev[i] + 40 <= |r| && Ends32(r, prev[i], end, sw)
    ensures forall i :: 0 <= i < |segs| ==> segs[i] + 40 <= |r| && Ends32(r, segs[i], end, sw)
  {
    forall i | 0 <= i < |segs|
      ensures segs[i] + 40 <= |r| && Ends32(r, segs[i], end, sw)
    {
      if i < |prev| {
        assert segs[i] == prev[i];
      }
    }
  }

  /** The same for 64-bit segments. */
  lemma Assemble64(r: seq<byte>, prev: seq<nat>, c: nat, segs: seq<nat>, end: u32, sw: bool)
    requires segs != [] && prev == segs[..|segs| - 1] && c == segs[|segs| - 1]
    requires c + 56 <= |r| && Ends64(r, c, end, sw)
    requires forall i :: 0 <= i < |prev| ==> prev[i] + 56 <= |r| && Ends64(r, prev[i], end, sw)
    ensures forall i :: 0 <= i < |segs| ==> segs[i] + 56 <= |r| && Ends64(r, segs[i], end, sw)
  {
    forall i | 0 <= i < |segs|
      ensures segs[i] + 56 <= |r| && Ends64(r, segs[i], end, sw)
    {
      if i < |prev| {
        assert segs[i] == prev[i];
      }
    }
  }

  /** The 32-bit loop over listed segments keeps the slice valid, with the
      same commands and the same segment lists. */
  lemma {:induction false} ResizeAll32Keeps(t: seq<byte>, h: Header, segs: seq<nat>, end: u32)
    requires Valid(t, h) && forall i :: 0 <= i < |segs| ==> segs[i] in GetSegments(t, h, LINKEDIT)
    ensures forall i :: 0 <= i < |segs| ==> segs[i] + 40 <= |t|
    ensures SameLayout(ResizeAll32(t, h.swapped, segs, end), t, h)
    decreases |segs|
  {
    forall i | 0 <= i < |segs|
      ensures segs[i] + 40 <= |t|
    {
      Segment32Fields(t, h, segs[i]);
    }
    if segs != [] {
      var prev, c := segs[..|segs| - 1], segs[|segs| - 1];
      ResizeAll32Keeps(t, h, prev, end);
      var m := ResizeAll32(t, h.swapped, prev, end);
      assert c in GetSegments(m, h, LINKEDIT);
      Resize32Step(m, h, c, end);
    }
  }

  /** The 64-bit loop likewise. */
  lemma {:induction false} ResizeAll64Keeps(t: seq<byte>, h: Header, segs: seq<nat>, end: u32)
    requires Valid(t, h) && forall i :: 0 <= i < |segs| ==> segs[i] in GetSegments64(t, h, LINKEDIT)
    ensures forall i :: 0 <= i < |segs| ==> segs[i] + 56 <= |t|
    ensures SameLayout(ResizeAll64(t, h.swapped, segs, end), t, h)
    decreases |segs|
  {
    forall i | 0 <= i < |segs|
      ensures segs[i] + 56 <= |t|
    {
      Segment64Fields(t, h, segs[i]);
    }
    if segs != [] {
      var prev, c := segs[..|segs| - 1], segs[|segs| - 1];
      ResizeAll64Keeps(t, h, prev, end);
      var m := ResizeAll64(t, h.swapped, prev, end);
      assert c in GetSegments64(m, h, LINKEDIT);
      Resize64Step(m, h, c, end);
    }
  }

  /** One step of the 32-bit loop: once the earlier segments end at `end`
      in `m`, stretching the last one leaves all of them ending there. */
  lemma StepEnds32(m: seq<byte>, prev: seq<nat>, c: nat, segs: seq<nat>, end: u32, sw: bool)
    requires segs != [] && prev == segs[..|segs| - 1] && c == segs[|segs| - 1]
    requires c + 40 <= |m|
    requires forall i :: 0 <= i < |prev| ==> prev[i] + 40 <= |m| && Ends32(m, prev[i], end, sw)
    requires forall i :: 0 <= i < |prev| ==> prev[i] == c || prev[i] + 40 <= c || c + 40 <= prev[i]
    ensures forall i :: 0 <= i < |segs| ==> segs[i] + 40 <= |m| && Ends32(Resize32(m, sw, c, end), segs[i], end, sw)
  {
    var r := Resize32(m, sw, c, end);
    StepKeeps32(m, r, prev, c, end, sw);
    Assemble32(r, prev, c, segs, end, sw);
  }

  /** The same for the 64-bit loop. */
  lemma StepEnds64(m: seq<byte>, prev: seq<nat>, c: nat, segs: seq<nat>, end: u32, sw: bool)
    requires segs != [] && prev == segs[..|segs| - 1] && c == segs[|segs| - 1]
    requires c + 56 <= |m|
    requires forall i :: 0 <= i < |prev| ==> prev[i] + 56 <= |m| && Ends64(m, prev[i], end, sw)
    requires forall i :: 0 <= i < |prev| ==> prev[i] == c || prev[i] + 56 <= c || c + 56 <= prev[i]
    ensures forall i :: 0 <= i < |segs| ==> segs[i] + 56 <= |m| && Ends64(Resize64(m, sw, c, end), segs[i], end, sw)
  {
    var r := Resize64(m, sw, c, end);
    StepKeeps64(m, r, prev, c, end, sw);
    Assemble64(r, prev, c, segs, end, sw);
  }

  /** After the 32-bit loop every segment it visited ends at `end`. */
  lemma {:induction false} ResizeAll32Ends(t: seq<byte>, sw: bool, segs: seq<nat>, end: u32)
    requires forall i :: 0 <= i < |segs| ==> segs[i] + 40 <= |t|
    requires Spaced(segs, 40)
    ensures forall i :: 0 <= i < |segs| ==> Ends32(ResizeAll32(t, sw, segs, end), segs[i], end, sw)
    decreases |segs|
  {
    if segs != [] {
      var prev, c := segs[..|segs| - 1], segs[|segs| - 1];
      assert forall i :: 0 <= i < |prev| ==> prev[i] == segs[i];
      ResizeAll32Ends(t, sw, prev, end);
      var m := ResizeAll32(t, sw, prev, end);
      StepEnds32(m, prev, c, segs, end, sw);
    }
  }

  /** After the 64-bit loop every segment it visited ends at `end`. */
  lemma {:induction false} ResizeAll64Ends(t: seq<byte>, sw: bool, segs: seq<nat>, end: u32)
    requires forall i :: 0 <= i < |segs| ==> segs[i] + 56 <= |t|
    requires Spaced(segs, 56)
    ensures forall i :: 0 <= i < |segs| ==> Ends64(ResizeAll64(t, sw, segs, end), segs[i], end, sw)
    decreases |segs|
  {
    if segs != [] {
      var prev, c := segs[..|segs| - 1], segs[|segs| - 1];
      assert forall i :: 0 <= i < |prev| ==> prev[i] == segs[i];
      ResizeAll64Ends(t, sw, prev, end);
      var m := ResizeAll64(t, sw, prev, end);
      StepEnds64(m, prev, c, segs, end, sw);
    }
  }

  /** The bytes from `lo` to `hi` lie outside the bytes `a` to `b` of
      every offset in `segs`. */
  predicate Away(lo: nat, hi: nat, segs: seq<nat>, a: nat, b: nat)
  {
    forall i :: 0 <= i < |segs| ==> hi <= segs[i] + a || segs[i] + b <= lo
  }

  /** Byte `k` lies outside the bytes `a` to `b` of every offset in
      `segs`. */
  predicate Untouched(k: nat, segs: seq<nat>, a: nat, b: nat)
  {
    forall i :: 0 <= i < |segs| ==> k < segs[i] + a || segs[i] + b <= k
  }

  /** Each byte of a range that lies away from the fields is untouched. */
  lemma AwayUntouched(lo: nat, hi: nat, segs: seq<nat>, a: nat, b: nat, k: nat)
    requires Away(lo, hi, segs, a, b) && lo <= k < hi
    ensures Untouched(k, segs, a, b)
  {
  }

  /** The 32-bit loop writes only the size fields of its segments. */
  lemma {:induction false} ResizeAll32Frame(t: seq<byte>, sw: bool, segs: seq<nat>, end: u32, k: nat)
    requires forall i :: 0 <= i < |segs| ==> segs[i] + 40 <= |t|
    requires k < |t| && Untouched(k, segs, 28, 40)
    ensures ResizeAll32(t, sw, segs, end)[k] == t[k]
    decreases |segs|
  {
    if segs != [] {
      var prev := segs[..|segs| - 1];
      assert forall i :: 0 <= i < |prev| ==> prev[i] == segs[i];
      ResizeAll32Frame(t, sw, prev, end, k);
    }
  }

  /** The 64-bit loop likewise. */
  lemma {:induction false} ResizeAll64Frame(t: seq<byte>, sw: bool, segs: seq<nat>, end: u32, k: nat)
    requires forall i :: 0 <= i < |segs| ==> segs[i] + 56 <= |t|
    requires k < |t| && Untouched(k, segs, 32, 56)
    ensures ResizeAll64(t, sw, segs, end)[k] == t[k]
    decreases |segs|
  {
    if segs != [] {
      var prev := segs[..|segs| - 1];
      assert forall i :: 0 <= i < |prev| ==> prev[i] == segs[i];
      ResizeAll64Frame(t, sw, prev, end, k);
    }
  }

  /** Both loops leave the bytes from `lo` to `hi` as they were when these
      lie away from the size fields of every segment they visit. */
  lemma BothAway(w: seq<byte>, mid: seq<byte>, r: seq<byte>, sw: bool, segs: seq<nat>, segs64: seq<nat>, end: u32, lo: nat, hi: nat)
    requires forall i :: 0 <= i < |segs| ==> segs[i] + 40 <= |w|
    requires forall i :: 0 <= i < |segs64| ==> segs64[i] + 56 <= |w|
    requires mid == ResizeAll32(w, sw, segs, end) && r == ResizeAll64(mid, sw, segs64, end)
    requires lo <= hi <= |w| && Away(lo, hi, segs, 28, 40) && Away(lo, hi, segs64, 32, 56)
    ensures forall k {:trigger r[k]} :: lo <= k < hi ==> r[k] == w[k]
  {
    forall k | lo <= k < hi
      ensures r[k] == w[k]
    {
      AwayUntouched(lo, hi, segs, 28, 40, k);
      AwayUntouched(lo, hi, segs64, 32, 56, k);
      ResizeAll32Frame(w, sw, segs, end, k);
      ResizeAll64Frame(mid, sw, segs64, end, k);
    }
  }

  /** A listed command that is no segment lies away from every segment's
      size fields. */
  lemma CommandAway(s: seq<byte>, h: Header, c: nat)
    requires WellFormed(s, h) && c in GetLoadCommands(s, h)
    requires Cmd(s, c, h.swapped) != LC_SEGMENT && Cmd(s, c, h.swapped) != LC_SEGMENT_64
    ensures c + 8 <= |s| && c + CmdSize(s, c, h.swapped) <= |s|
    ensures Away(c, c + CmdSize(s, c, h.swapped), GetSegments(s, h, LINKEDIT), 28, 40)
    ensures Away(c, c + CmdSize(s, c, h.swapped), GetSegments64(s, h, LINKEDIT), 32, 56)
  {
    var segs, segs64 := GetSegments(s, h, LINKEDIT), GetSegments64(s, h, LINKEDIT);
    forall i | 0 <= i < |segs|
      ensures c + CmdSize(s, c, h.swapped) <= segs[i] + 28 || segs[i] + 40 <= c
    {
      Segment32Fields(s, h, segs[i]);
      Apart(s, h, c, segs[i]);
    }
    forall i | 0 <= i < |segs64|
      ensures c + CmdSize(s, c, h.swapped) <= segs64[i] + 32 || segs64[i] + 56 <= c
    {
      Segment64Fields(s, h, segs64[i]);
      Apart(s, h, c, segs64[i]);
    }
  }

  /** The stretch leaves every command other than a segment byte for byte
      as it was. */
  lemma OtherCommandsKept(w: seq<byte>, h: Header, end: u32, c: nat)
    requires Valid(w, h) && c in GetLoadCommands(w, h)
    requires Cmd(w, c, h.swapped) != LC_SEGMENT && Cmd(w, c, h.swapped) != LC_SEGMENT_64
    ensures c + 8 <= |w| && c + CmdSize(w, c, h.swapped) <= |w|
    ensures var r := ResizeLinkedit(w, h, end);
      forall k {:trigger r[k]} :: c <= k < c + CmdSize(w, c, h.swapped) ==> r[k] == w[k]
  {
    var sw, segs := h.swapped, GetSegments(w, h, LINKEDIT);
    CommandAway(w, h, c);
    ResizeAll32Keeps(w, h, segs, end);
    var mid := ResizeAll32(w, sw, segs, end);
    var segs64 := GetSegments64(w, h, LINKEDIT);
    forall i | 0 <= i < |segs64|
      ensures segs64[i] + 56 <= |w|
    {
      Segment64Fields(w, h, segs64[i]);
    }
    BothAway(w, mid, ResizeAll64(mid, sw, segs64, end), sw, segs, segs64, end, c, c + CmdSize(w, c, sw));
  }

  /** The 64-bit loop leaves the sizes of a 32-bit segment that lies apart
      from all of its segments as they were. */
  lemma {:induction false} ResizeAll64Other(t: seq<byte>, sw: bool, segs: seq<nat>, end: u32, p: nat)
    requires forall i :: 0 <= i < |segs| ==> segs[i] + 56 <= |t|
    requires p + 40 <= |t| && Clear(p, 40, segs, 56)
    ensures Ends32(ResizeAll64(t, sw, segs, end), p, end, sw) == Ends32(t, p, end, sw)
    decreases |segs|
  {
    if segs != [] {
      var prev, c := segs[..|segs| - 1], segs[|segs| - 1];
      assert forall i :: 0 <= i < |prev| ==> prev[i] == segs[i];
      ResizeAll64Other(t, sw, prev, end, p);
      var m := ResizeAll64(t, sw, prev, end);
      Ends32Frame(m, Resize64(m, sw, c, end), p, end, sw);
    }
  }

  /** The 64-bit loop leaves every 32-bit segment's sizes as they were. */
  lemma KeptThrough64(mid: seq<byte>, h: Header, segs: seq<nat>, end: u32)
    requires WellFormed(mid, h) && segs == GetSegments(mid, h, LINKEDIT)
    ensures var segs64 := GetSegments64(mid, h, LINKEDIT);
      && (forall i :: 0 <= i < |segs64| ==> segs64[i] + 56 <= |mid|)
      && (forall i :: 0 <= i < |segs| ==> segs[i] + 40 <= |mid|)
      && (forall i :: 0 <= i < |segs| ==>
            Ends32(ResizeAll64(mid, h.swapped, segs64, end), segs[i], end, h.swapped) == Ends32(mid, segs[i], end, h.swapped))
  {
    var segs64 := GetSegments64(mid, h, LINKEDIT);
    forall i | 0 <= i < |segs64|
      ensures segs64[i] + 56 <= |mid|
    {
      Segment64Fields(mid, h, segs64[i]);
    }
    forall i | 0 <= i < |segs|
      ensures segs[i] + 40 <= |mid|
      ensures Ends32(ResizeAll64(mid, h.swapped, segs64, end), segs[i], end, h.swapped) == Ends32(mid, segs[i], end, h.swapped)
    {
      Segment32Fields(mid, h, segs[i]);
      SegmentsClear(mid, h, segs[i]);
      ResizeAll64Other(mid, h.swapped, segs64, end, segs[i]);
    }
  }

  /** What holds at every index of a list holds for every member. */
  lemma Listed32(r: seq<byte>, segs: seq<nat>, end: u32, sw: bool)
    requires forall i :: 0 <= i < |segs| ==> segs[i] + 40 <= |r| && Ends32(r, segs[i], end, sw)
    ensures forall p :: p in segs ==> p + 40 <= |r| && Ends32(r, p, end, sw)
  {
    forall p | p in segs
      ensures p + 40 <= |r| && Ends32(r, p, end, sw)
    {
      var i :| 0 <= i < |segs| && segs[i] == p;
    }
  }

  /** The same for 64-bit segments. */
  lemma Listed64(r: seq<byte>, segs: seq<nat>, end: u32, sw: bool)
    requires forall i :: 0 <= i < |segs| ==> segs[i] + 56 <= |r| && Ends64(r, segs[i], end, sw)
    ensures forall p :: p in segs ==> p + 56 <= |r| && Ends64(r, p, end, sw)
  {
    forall p | p in segs
      ensures p + 56 <= |r| && Ends64(r, p, end, sw)
    {
      var i :| 0 <= i < |segs| && segs[i] == p;
    }
  }
}
