/** One Mach-O image (a slice): the header, the load-command walk and the
    lookups built on it (ldid.cpp:410-575).

    A slice is a byte sequence; a `Header` records what the magic number
    decided about it: its byte order and whether it is 64-bit. Every other
    header field is read from the bytes when needed, as `MachHeader` does
    through its `mach_header_` pointer, so an edit of the bytes is seen by
    every later lookup. */
module MachO {
  import opened Bytes
  import opened Wrappers

  const MH_MAGIC: u32 := 0xfeedface
  const MH_CIGAM: u32 := 0xcefaedfe
  const MH_MAGIC_64: u32 := 0xfeedfacf
  const MH_CIGAM_64: u32 := 0xcffaedfe

  const MH_EXECUTE: u32 := 0x2
  const MH_DYLIB: u32 := 0x6
  const MH_BUNDLE: u32 := 0x8

  const LC_SEGMENT: u32 := 0x01
  const LC_SYMTAB: u32 := 0x02
  const LC_ID_DYLIB: u32 := 0x0d
  const LC_SEGMENT_64: u32 := 0x19
  const LC_CODE_SIGNATURE: u32 := 0x1d
  const LC_ENCRYPTION_INFO: u32 := 0x21

  /** sizeof(struct mach_header): the 32-bit header, and where GetPointer
      starts its walk. */
  const MACH_HEADER_SIZE: nat := 28
  /** sizeof(struct segment_command) and sizeof(struct section). */
  const SEGMENT_SIZE: nat := 56
  const SECTION_SIZE: nat := 68
  /** sizeof(struct linkedit_data_command): the LC_CODE_SIGNATURE record. */
  const LINKEDIT_DATA_SIZE: nat := 16

  /** What the magic number decides about a slice. */
  datatype Header = Header(swapped: bool, bits64: bool) {
    /** Load commands follow the header; the 64-bit header has one more
        reserved word. */
    function CommandsStart(): nat
    {
      if bits64 then MACH_HEADER_SIZE + 4 else MACH_HEADER_SIZE
    }
  }

  // ---------------------------------------------------------------------
  // Header fields
  // ---------------------------------------------------------------------

  function GetCPUType(s: seq<byte>, h: Header): u32
    requires |s| >= MACH_HEADER_SIZE
  {
    Get32(s, 4, h.swapped)
  }

  /** GetCPUSubtype keeps only the low byte, dropping the capability bits. */
  function GetCPUSubtype(s: seq<byte>, h: Header): (r: u32)
    requires |s| >= MACH_HEADER_SIZE
    ensures r < 0x100
  {
    Get32(s, 8, h.swapped) % 0x100
  }

  function FileType(s: seq<byte>, h: Header): u32
    requires |s| >= MACH_HEADER_SIZE
  {
    Get32(s, 12, h.swapped)
  }

  function NCmds(s: seq<byte>, h: Header): u32
    requires |s| >= MACH_HEADER_SIZE
  {
    Get32(s, 16, h.swapped)
  }

  function SizeOfCmds(s: seq<byte>, h: Header): u32
    requires |s| >= MACH_HEADER_SIZE
  {
    Get32(s, 20, h.swapped)
  }

  predicate AcceptedFileType(t: u32)
  {
    t == MH_EXECUTE || t == MH_DYLIB || t == MH_BUNDLE
  }

  /** In byte order `swapped` the header starts with a canonical magic. */
  predicate CanonicalMagic(s: seq<byte>, swapped: bool)
    requires |s| >= MACH_HEADER_SIZE
  {
    Get32(s, 0, swapped) == MH_MAGIC || Get32(s, 0, swapped) == MH_MAGIC_64
  }

  /** Reading the magic in the other byte order turns each canonical magic
      into its swapped form and back, and nothing else into a canonical one. */
  lemma MagicOrders(s: seq<byte>)
    requires |s| >= MACH_HEADER_SIZE
    ensures var raw := Get32(s, 0, false);
      && (Get32(s, 0, true) == MH_MAGIC <==> raw == MH_CIGAM)
      && (Get32(s, 0, true) == MH_MAGIC_64 <==> raw == MH_CIGAM_64)
  {
    var raw := Get32(s, 0, false);
    Get32OtherOrder(s, 0, false);
    Swap32Involutive(raw);
    assert Swap32(MH_CIGAM) == MH_MAGIC && Swap32(MH_CIGAM_64) == MH_MAGIC_64;
    assert Swap32(MH_MAGIC) == MH_CIGAM && Swap32(MH_MAGIC_64) == MH_CIGAM_64;
  }

  /** The MachHeader constructor (ldid.cpp:428-460). The magic is first read
      without swapping; a byte-swapped magic (MH_CIGAM, MH_CIGAM_64) marks
      the slice as swapped. The file type is then read in the slice's order.

      The contract says what this decodes: a slice is accepted exactly when,
      in one of the two byte orders, it starts with MH_MAGIC or MH_MAGIC_64
      and names an accepted file type; that byte order is the one chosen,
      and the 64-bit magic makes the slice 64-bit. */
  function ParseHeader(s: seq<byte>): (r: Result<Header>)
    requires |s| >= MACH_HEADER_SIZE
    ensures r.Ok? ==> CanonicalMagic(s, r.value.swapped)
    ensures r.Ok? ==> (r.value.bits64 <==> Get32(s, 0, r.value.swapped) == MH_MAGIC_64)
    ensures r.Ok? ==> AcceptedFileType(FileType(s, r.value))
    ensures r.Ok? <==>
      || (CanonicalMagic(s, false) && AcceptedFileType(Get32(s, 12, false)))
      || (CanonicalMagic(s, true) && AcceptedFileType(Get32(s, 12, true)))
    ensures r == Err(BadMagic) <==> !CanonicalMagic(s, false) && !CanonicalMagic(s, true)
  {
    MagicOrders(s);
    var magic := Get32(s, 0, false);
    if magic != MH_MAGIC && magic != MH_CIGAM && magic != MH_MAGIC_64 && magic != MH_CIGAM_64 then
      Err(BadMagic)
    else
      var h := Header(magic == MH_CIGAM || magic == MH_CIGAM_64, magic == MH_MAGIC_64 || magic == MH_CIGAM_64);
      if AcceptedFileType(FileType(s, h)) then Ok(h) else Err(BadFileType)
  }

  // ---------------------------------------------------------------------
  // Load commands
  // ---------------------------------------------------------------------

  function Cmd(s: seq<byte>, o: nat, swapped: bool): u32
    requires o + 8 <= |s|
  {
    Get32(s, o, swapped)
  }

  function CmdSize(s: seq<byte>, o: nat, swapped: bool): u32
    requires o + 8 <= |s|
  {
    Get32(s, o + 4, swapped)
  }

  /** The 32-bit segment's section count. */
  function NSects(s: seq<byte>, o: nat, swapped: bool): u32
    requires o + SEGMENT_SIZE <= |s|
  {
    Get32(s, o + 48, swapped)
  }

  /** The smallest cmdsize that holds every field ldid reads or writes in a
      command of this kind (the 8-byte load_command header for the rest). */
  function MinCmdSize(kind: u32): (r: nat)
    ensures r >= 8
  {
    if kind == LC_SEGMENT then SEGMENT_SIZE
    else if kind == LC_SEGMENT_64 then 72
    else if kind == LC_SYMTAB then 24
    else if kind == LC_CODE_SIGNATURE then LINKEDIT_DATA_SIZE
    else if kind == LC_ENCRYPTION_INFO then 20
    else if kind == LC_ID_DYLIB then 24
    else 8
  }

  /** A command at `o` is large enough for every field ldid reads or writes
      in a command of its kind, and a segment holds its section table. */
  predicate CommandShaped(s: seq<byte>, o: nat, swapped: bool)
    requires o + 8 <= |s|
  {
    var kind, size := Cmd(s, o, swapped), CmdSize(s, o, swapped);
    && size >= MinCmdSize(kind) && o + size <= |s|
    && (kind == LC_SEGMENT ==> SEGMENT_SIZE + SECTION_SIZE * NSects(s, o, swapped) <= size)
  }

  /** `n` commands, each advancing by its own cmdsize from `o`, every one
      inside `end`, the last one ending exactly at `end`. ldid itself never
      checks any of this; it is what a well-formed image guarantees. */
  predicate Chain(s: seq<byte>, o: nat, n: nat, end: nat, swapped: bool)
    decreases n
  {
    if n == 0 then o == end
    else
      && o + 8 <= end <= |s|
      && CommandShaped(s, o, swapped)
      && o + CmdSize(s, o, swapped) <= end
      && Chain(s, o + CmdSize(s, o, swapped), n - 1, end, swapped)
  }

  /** The commands lie back to back from the end of the header and fill
      exactly `sizeofcmds` bytes, all inside the slice. */
  predicate WellFormed(s: seq<byte>, h: Header)
  {
    && |s| >= MACH_HEADER_SIZE
    && h.CommandsStart() + SizeOfCmds(s, h) <= |s|
    && Chain(s, h.CommandsStart(), NCmds(s, h), h.CommandsStart() + SizeOfCmds(s, h), h.swapped)
  }

  /** A slice that parses to `h` and whose load commands are well formed. */
  predicate Valid(s: seq<byte>, h: Header)
  {
    |s| >= MACH_HEADER_SIZE && ParseHeader(s) == Ok(h) && WellFormed(s, h)
  }

  /** Every listed command can be read and is shaped for its kind. */
  predicate Shaped(s: seq<byte>, cmds: seq<nat>, swapped: bool)
  {
    forall i :: 0 <= i < |cmds| ==> cmds[i] + 8 <= |s| && CommandShaped(s, cmds[i], swapped)
  }

  /** Listed commands occupy disjoint byte ranges, in increasing order. */
  predicate Disjoint(s: seq<byte>, cmds: seq<nat>, swapped: bool)
    requires Shaped(s, cmds, swapped)
  {
    forall i, j :: 0 <= i < j < |cmds| ==> cmds[i] + CmdSize(s, cmds[i], swapped) <= cmds[j]
  }

  /** The loop of GetLoadCommands: `n` steps of `cmdsize` bytes from `o`
      (stopping early only where a chain does not hold). */
  function Walk(s: seq<byte>, o: nat, n: nat, swapped: bool): seq<nat>
    decreases n
  {
    if n == 0 || |s| < o + 8 then [] else [o] + Walk(s, o + CmdSize(s, o, swapped), n - 1, swapped)
  }

  /** The walk visits only readable, well-shaped commands inside the span
      it was given, starting with the first. */
  lemma {:induction false} WalkShaped(s: seq<byte>, o: nat, n: nat, end: nat, swapped: bool)
    requires Chain(s, o, n, end, swapped)
    ensures var r := Walk(s, o, n, swapped);
      && |r| == n
      && (n > 0 ==> r[0] == o && end <= |s|)
      && Shaped(s, r, swapped)
      && forall i :: 0 <= i < n ==> o <= r[i] && r[i] + CmdSize(s, r[i], swapped) <= end
    decreases n
  {
    if n > 0 {
      var next := o + CmdSize(s, o, swapped);
      WalkShaped(s, next, n - 1, end, swapped);
      var r, rest := Walk(s, o, n, swapped), Walk(s, next, n - 1, swapped);
      assert r == [o] + rest;
      assert forall i :: 1 <= i < n ==> r[i] == rest[i - 1];
    }
  }

  /** The walk never revisits bytes: each command ends before the next
      listed one begins. */
  lemma {:induction false} WalkDisjoint(s: seq<byte>, o: nat, n: nat, end: nat, swapped: bool)
    requires Chain(s, o, n, end, swapped)
    ensures var r := Walk(s, o, n, swapped); Shaped(s, r, swapped) && Disjoint(s, r, swapped)
    decreases n
  {
    WalkShaped(s, o, n, end, swapped);
    if n > 0 {
      var next := o + CmdSize(s, o, swapped);
      WalkDisjoint(s, next, n - 1, end, swapped);
      WalkShaped(s, next, n - 1, end, swapped);
      var rest := Walk(s, next, n - 1, swapped);
      assert Walk(s, o, n, swapped) == [o] + rest;
      DisjointCons(s, o, rest, swapped);
    }
  }

  /** A command ending before every command of a disjoint list can be put
      in front of it. */
  lemma DisjointCons(s: seq<byte>, o: nat, rest: seq<nat>, swapped: bool)
    requires Shaped(s, [o] + rest, swapped) && Shaped(s, rest, swapped) && Disjoint(s, rest, swapped)
    requires o + 8 <= |s| && forall i :: 0 <= i < |rest| ==> o + CmdSize(s, o, swapped) <= rest[i]
    ensures Disjoint(s, [o] + rest, swapped)
  {
    var r := [o] + rest;
    forall i, j | 0 <= i < j < |r|
      ensures r[i] + CmdSize(s, r[i], swapped) <= r[j]
    {
      assert r[j] == rest[j - 1];
      if i > 0 {
        assert r[i] == rest[i - 1];
      }
    }
  }

  /** GetLoadCommands (ldid.cpp:482-492): the offsets of the `ncmds`
      commands, found by stepping over each one's `cmdsize`. */
  function GetLoadCommands(s: seq<byte>, h: Header): (r: seq<nat>)
    requires WellFormed(s, h)
    ensures |r| == NCmds(s, h) && Shaped(s, r, h.swapped) && Disjoint(s, r, h.swapped)
    ensures forall i :: 0 <= i < |r| ==>
      h.CommandsStart() <= r[i] && r[i] + CmdSize(s, r[i], h.swapped) <= h.CommandsStart() + SizeOfCmds(s, h)
  {
    var start := h.CommandsStart();
    WalkShaped(s, start, NCmds(s, h), start + SizeOfCmds(s, h), h.swapped);
    WalkDisjoint(s, start, NCmds(s, h), start + SizeOfCmds(s, h), h.swapped);
    Walk(s, start, NCmds(s, h), h.swapped)
  }

  /** The first command of a kind, as an index into `cmds` (the relocator
      stops at the first LC_CODE_SIGNATURE, ldid.cpp:1059-1066). */
  function FindFirst(s: seq<byte>, cmds: seq<nat>, kind: u32, swapped: bool): (r: Option<nat>)
    requires Shaped(s, cmds, swapped)
    ensures r.Some? ==> r.value < |cmds| && Cmd(s, cmds[r.value], swapped) == kind
    ensures r.Some? ==> forall j :: 0 <= j < r.value ==> Cmd(s, cmds[j], swapped) != kind
    ensures r.None? ==> forall j :: 0 <= j < |cmds| ==> Cmd(s, cmds[j], swapped) != kind
    decreases |cmds|
  {
    if cmds == [] then None
    else if Cmd(s, cmds[0], swapped) == kind then Some(0)
    else match FindFirst(s, cmds[1..], kind, swapped)
      case None => None
      case Some(i) => Some(i + 1)
  }

  /** The last command of a kind: the planner and the second pass assign
      their pointer at every match, so the last one wins (ldid.cpp:963-971,
      1129-1149). */
  function FindLast(s: seq<byte>, cmds: seq<nat>, kind: u32, swapped: bool): (r: Option<nat>)
    requires Shaped(s, cmds, swapped)
    ensures r.Some? ==> r.value < |cmds| && Cmd(s, cmds[r.value], swapped) == kind
    ensures r.Some? ==> forall j :: r.value < j < |cmds| ==> Cmd(s, cmds[j], swapped) != kind
    ensures r.None? ==> forall j :: 0 <= j < |cmds| ==> Cmd(s, cmds[j], swapped) != kind
    decreases |cmds|
  {
    if cmds == [] then None
    else
      var last := |cmds| - 1;
      if Cmd(s, cmds[last], swapped) == kind then Some(last)
      else FindLast(s, cmds[..last], kind, swapped)
  }

  /** linkedit_data_command.dataoff and .datasize (LC_CODE_SIGNATURE). */
  function DataOff(s: seq<byte>, o: nat, swapped: bool): u32
    requires o + LINKEDIT_DATA_SIZE <= |s|
  {
    Get32(s, o + 8, swapped)
  }

  function DataSize(s: seq<byte>, o: nat, swapped: bool): u32
    requires o + LINKEDIT_DATA_SIZE <= |s|
  {
    Get32(s, o + 12, swapped)
  }

  /** Where the string table ends: stroff + strsize, summed in 32 bits
      as the two uint32_t fields are. */
  function StringTableEnd(s: seq<byte>, o: nat, swapped: bool): u32
    requires o + 24 <= |s|
  {
    (Get32(s, o + 16, swapped) + Get32(s, o + 20, swapped)) % TWO_32
  }

  /** The last command of a kind in the slice, as a byte offset. */
  function LastCommand(s: seq<byte>, h: Header, kind: u32): (r: Option<nat>)
    requires WellFormed(s, h)
    ensures r.Some? ==> r.value in GetLoadCommands(s, h) && r.value + 8 <= |s|
    ensures r.Some? ==> CommandShaped(s, r.value, h.swapped) && Cmd(s, r.value, h.swapped) == kind
    ensures r.Some? ==> r.value + MinCmdSize(kind) <= |s|
    ensures r.None? <==> forall o :: o in GetLoadCommands(s, h) ==> Cmd(s, o, h.swapped) != kind
  {
    var cmds := GetLoadCommands(s, h);
    match FindLast(s, cmds, kind, h.swapped)
    case None => None
    case Some(i) => Some(cmds[i])
  }

  /** The first command of a kind in the slice, as a byte offset. */
  function FirstCommand(s: seq<byte>, h: Header, kind: u32): (r: Option<nat>)
    requires WellFormed(s, h)
    ensures r.Some? ==> r.value in GetLoadCommands(s, h) && r.value + 8 <= |s|
    ensures r.Some? ==> CommandShaped(s, r.value, h.swapped) && Cmd(s, r.value, h.swapped) == kind
    ensures r.Some? ==> r.value + MinCmdSize(kind) <= |s|
    ensures r.None? <==> forall o :: o in GetLoadCommands(s, h) ==> Cmd(s, o, h.swapped) != kind
  {
    var cmds := GetLoadCommands(s, h);
    match FindFirst(s, cmds, kind, h.swapped)
    case None => None
    case Some(i) => Some(cmds[i])
  }

  // ---------------------------------------------------------------------
  // Segments and sections
  // ---------------------------------------------------------------------

  /** The 16-byte name that a `char[16]` field is compared with by
      strncmp(field, name, 16): a longer name is cut to 16 characters. */
  function NameOf(name: seq<byte>): (r: seq<byte>)
    ensures |r| == 16
  {
    if |name| >= 16 then name[..16] else NameField(name)
  }

  /** strncmp(field, name, 16) == 0 for the 16-byte field at `o`. */
  predicate NameAt(s: seq<byte>, o: nat, name: seq<byte>)
    requires o + 16 <= |s|
  {
    StrnEqFrom(s[o..o + 16], NameOf(name), 0, 16)
  }

  /** For a name shorter than the field and free of NULs, the strncmp match
      is exact: the field holds the name followed by a NUL. */
  lemma NameAtExact(s: seq<byte>, o: nat, name: seq<byte>)
    requires o + 16 <= |s| && |name| < 16
    requires forall k :: 0 <= k < |name| ==> name[k] != 0
    ensures NameAt(s, o, name) <==> s[o..o + |name|] == name && s[o + |name|] == 0
  {
    var field := s[o..o + 16];
    NameMatches(field, name, 0);
    assert field[0..|name|] == s[o..o + |name|];
  }

  /** A segment command of this kind whose segname matches. */
  predicate IsSegmentNamed(s: seq<byte>, o: nat, kind: u32, name: seq<byte>, swapped: bool)
    requires o + 8 <= |s| && CommandShaped(s, o, swapped)
    requires kind == LC_SEGMENT || kind == LC_SEGMENT_64
  {
    Cmd(s, o, swapped) == kind && NameAt(s, o + 8, name)
  }

  /** The filtering loop of GetSegments / GetSegments64: keeps, in order,
      the commands of the kind whose segname matches. */
  function SegmentsIn(s: seq<byte>, cmds: seq<nat>, kind: u32, name: seq<byte>, swapped: bool): (r: seq<nat>)
    requires Shaped(s, cmds, swapped)
    requires kind == LC_SEGMENT || kind == LC_SEGMENT_64
    ensures Shaped(s, r, swapped) && |r| <= |cmds|
    ensures forall o :: o in r <==> o in cmds && IsSegmentNamed(s, o, kind, name, swapped)
    decreases |cmds|
  {
    if cmds == [] then []
    else
      var rest := SegmentsIn(s, cmds[1..], kind, name, swapped);
      if IsSegmentNamed(s, cmds[0], kind, name, swapped) then [cmds[0]] + rest else rest
  }

  /** GetSegments (ldid.cpp:494-507): 32-bit segments with this name. */
  function GetSegments(s: seq<byte>, h: Header, name: seq<byte>): (r: seq<nat>)
    requires WellFormed(s, h)
    ensures AllSegments(s, r, h.swapped)
    ensures forall o :: o in r <==> o in GetLoadCommands(s, h) && IsSegmentNamed(s, o, LC_SEGMENT, name, h.swapped)
  {
    var r := SegmentsIn(s, GetLoadCommands(s, h), LC_SEGMENT, name, h.swapped);
    assert forall i :: 0 <= i < |r| ==> r[i] in r;
    r
  }

  /** GetSegments64 (ldid.cpp:509-520): 64-bit segments with this name. */
  function GetSegments64(s: seq<byte>, h: Header, name: seq<byte>): (r: seq<nat>)
    requires WellFormed(s, h)
    ensures Shaped(s, r, h.swapped)
    ensures forall o :: o in r <==> o in GetLoadCommands(s, h) && IsSegmentNamed(s, o, LC_SEGMENT_64, name, h.swapped)
  {
    SegmentsIn(s, GetLoadCommands(s, h), LC_SEGMENT_64, name, h.swapped)
  }

  /** Where the k-th section record of the segment command at `seg` lies. */
  function SectionAt(seg: nat, k: nat): nat
  {
    seg + SEGMENT_SIZE + SECTION_SIZE * k
  }

  /** Section records are inside their segment command. */
  lemma SectionInside(s: seq<byte>, seg: nat, k: nat, swapped: bool)
    requires seg + 8 <= |s| && CommandShaped(s, seg, swapped) && Cmd(s, seg, swapped) == LC_SEGMENT
    requires k < NSects(s, seg, swapped)
    ensures SectionAt(seg, k) + SECTION_SIZE <= seg + CmdSize(s, seg, swapped) <= |s|
  {
    MulAtLeast(NSects(s, seg, swapped) - k, SECTION_SIZE);
    MulDistrib(NSects(s, seg, swapped), k, SECTION_SIZE);
  }

  /** `q` is one of the section records of the segment command at `seg`. */
  ghost predicate InTable(s: seq<byte>, seg: nat, q: nat, swapped: bool)
    requires seg + 8 <= |s| && CommandShaped(s, seg, swapped) && Cmd(s, seg, swapped) == LC_SEGMENT
  {
    exists j :: 0 <= j < NSects(s, seg, swapped) && q == SectionAt(seg, j)
  }

  /** The matching sections of one segment, from its k-th record on. */
  function SectionsFrom(s: seq<byte>, seg: nat, k: nat, sectname: seq<byte>, swapped: bool): (r: seq<nat>)
    requires seg + 8 <= |s| && CommandShaped(s, seg, swapped) && Cmd(s, seg, swapped) == LC_SEGMENT
    ensures forall q :: q in r ==> InTable(s, seg, q, swapped) && q + SECTION_SIZE <= |s| && NameAt(s, q, sectname)
    ensures forall j :: k <= j < NSects(s, seg, swapped) ==>
      (SectionInside(s, seg, j, swapped);
       NameAt(s, SectionAt(seg, j), sectname) ==> SectionAt(seg, j) in r)
    decreases NSects(s, seg, swapped) - k
  {
    if k >= NSects(s, seg, swapped) then []
    else
      SectionInside(s, seg, k, swapped);
      var q := SectionAt(seg, k);
      var rest := SectionsFrom(s, seg, k + 1, sectname, swapped);
      if NameAt(s, q, sectname) then [q] + rest else rest
  }

  /** Every listed command is a 32-bit segment. */
  predicate AllSegments(s: seq<byte>, segs: seq<nat>, swapped: bool)
  {
    && Shaped(s, segs, swapped)
    && forall i :: 0 <= i < |segs| ==> Cmd(s, segs[i], swapped) == LC_SEGMENT
  }

  /** The section loop of GetSections over a list of segments. */
  function SectionsIn(s: seq<byte>, segs: seq<nat>, sectname: seq<byte>, swapped: bool): (r: seq<nat>)
    requires AllSegments(s, segs, swapped)
    ensures forall q :: q in r ==> q + SECTION_SIZE <= |s| && NameAt(s, q, sectname)
    ensures forall q :: q in r ==> exists i :: 0 <= i < |segs| && InTable(s, segs[i], q, swapped)
    ensures forall i, j :: 0 <= i < |segs| && 0 <= j < NSects(s, segs[i], swapped) ==>
      (SectionInside(s, segs[i], j, swapped);
       NameAt(s, SectionAt(segs[i], j), sectname) ==> SectionAt(segs[i], j) in r)
    decreases |segs|
  {
    if segs == [] then []
    else
      var first := SectionsFrom(s, segs[0], 0, sectname, swapped);
      var rest := SectionsIn(s, segs[1..], sectname, swapped);
      assert forall i :: 1 <= i < |segs| ==> segs[i] == segs[1..][i - 1];
      first + rest
  }

  /** GetSections (ldid.cpp:522-537): the section records named `sectname`
      inside the 32-bit segments named `segname`. */
  function GetSections(s: seq<byte>, h: Header, segname: seq<byte>, sectname: seq<byte>): (r: seq<nat>)
    requires WellFormed(s, h)
    ensures forall q :: q in r ==> q + SECTION_SIZE <= |s| && NameAt(s, q, sectname)
    ensures forall q :: q in r ==>
      var segs := GetSegments(s, h, segname);
      exists i :: 0 <= i < |segs| && InTable(s, segs[i], q, h.swapped)
    ensures forall i, j ::
      var segs := GetSegments(s, h, segname);
      0 <= i < |segs| && 0 <= j < NSects(s, segs[i], h.swapped) ==>
      (SectionInside(s, segs[i], j, h.swapped);
       NameAt(s, SectionAt(segs[i], j), sectname) ==> SectionAt(segs[i], j) in r)
  {
    SectionsIn(s, GetSegments(s, h, segname), sectname, h.swapped)
  }

  // ---------------------------------------------------------------------
  // GetPointer (ldid.cpp:540-568)
  // ---------------------------------------------------------------------

  /** The section record at `q` covers `address`. The end is computed in
      32 bits, as `Swap(section->addr) + Swap(section->size)` is. */
  predicate Covers(s: seq<byte>, q: nat, address: u32, swapped: bool)
    requires q + SECTION_SIZE <= |s|
  {
    var addr, size := Get32(s, q + 32, swapped), Get32(s, q + 36, swapped);
    addr <= address && address < (addr + size) % TWO_32
  }

  /** The file offset of `address` inside the section at `q`:
      address - addr + offset, in 32-bit arithmetic. */
  function Translate(s: seq<byte>, q: nat, address: u32, swapped: bool): u32
    requires q + SECTION_SIZE <= |s|
  {
    var addr, offset := Get32(s, q + 32, swapped), Get32(s, q + 40, swapped);
    ((address - addr) % TWO_32 + offset) % TWO_32
  }

  /** A segment GetPointer searches: a 32-bit segment, named `segname` if
      a name is given. */
  predicate Searched(s: seq<byte>, o: nat, segname: Option<seq<byte>>, swapped: bool)
    requires o + 8 <= |s| && CommandShaped(s, o, swapped)
  {
    Cmd(s, o, swapped) == LC_SEGMENT && (segname.None? || NameAt(s, o + 8, segname.value))
  }

  /** The inner loop: the first section from the k-th on that covers the
      address. */
  function CoveringSection(s: seq<byte>, seg: nat, k: nat, address: u32, swapped: bool): (r: Option<nat>)
    requires seg + 8 <= |s| && CommandShaped(s, seg, swapped) && Cmd(s, seg, swapped) == LC_SEGMENT
    ensures r.Some? ==> exists j :: k <= j < NSects(s, seg, swapped) && r.value == SectionAt(seg, j)
    ensures r.Some? ==> r.value + SECTION_SIZE <= |s| && Covers(s, r.value, address, swapped)
    ensures r.None? ==> forall j :: k <= j < NSects(s, seg, swapped) ==>
      (SectionInside(s, seg, j, swapped);
       !Covers(s, SectionAt(seg, j), address, swapped))
    decreases NSects(s, seg, swapped) - k
  {
    if k >= NSects(s, seg, swapped) then None
    else
      SectionInside(s, seg, k, swapped);
      if Covers(s, SectionAt(seg, k), address, swapped) then Some(SectionAt(seg, k))
      else CoveringSection(s, seg, k + 1, address, swapped)
  }

  /** The outer loop over the commands, returning the covering section. */
  function PointerSection(s: seq<byte>, cmds: seq<nat>, address: u32, segname: Option<seq<byte>>, swapped: bool): (r: Option<nat>)
    requires Shaped(s, cmds, swapped)
    ensures r.Some? ==> r.value + SECTION_SIZE <= |s| && Covers(s, r.value, address, swapped)
    ensures r.Some? ==> exists i, j ::
      && 0 <= i < |cmds| && Searched(s, cmds[i], segname, swapped)
      && 0 <= j < NSects(s, cmds[i], swapped) && r.value == SectionAt(cmds[i], j)
    ensures r.None? ==> forall i, j :: 0 <= i < |cmds| && Searched(s, cmds[i], segname, swapped) && 0 <= j < NSects(s, cmds[i], swapped) ==>
      (SectionInside(s, cmds[i], j, swapped);
       !Covers(s, SectionAt(cmds[i], j), address, swapped))
    decreases |cmds|
  {
    if cmds == [] then None
    else
      var rest := cmds[1..];
      assert forall i :: 1 <= i < |cmds| ==> cmds[i] == rest[i - 1];
      var here := if Searched(s, cmds[0], segname, swapped) then CoveringSection(s, cmds[0], 0, address, swapped) else None;
      if here.Some? then here else PointerSection(s, rest, address, segname, swapped)
  }

  /** No section from the k-th up to the j-th (exclusive) of the segment
      at `seg` covers the address. */
  ghost predicate NoCoverFrom(s: seq<byte>, seg: nat, k: nat, j: nat, address: u32, swapped: bool)
    requires seg + 8 <= |s| && CommandShaped(s, seg, swapped) && Cmd(s, seg, swapped) == LC_SEGMENT
    requires j <= NSects(s, seg, swapped)
  {
    forall j' :: k <= j' < j ==> (SectionInside(s, seg, j', swapped); !Covers(s, SectionAt(seg, j'), address, swapped))
  }

  /** No section of a searched segment among the first i commands covers
      the address. */
  ghost predicate NoCoverBefore(s: seq<byte>, cmds: seq<nat>, i: nat, address: u32, segname: Option<seq<byte>>, swapped: bool)
    requires Shaped(s, cmds, swapped) && i <= |cmds|
  {
    forall i' :: 0 <= i' < i && Searched(s, cmds[i'], segname, swapped) ==>
      NoCoverFrom(s, cmds[i'], 0, NSects(s, cmds[i'], swapped), address, swapped)
  }

  /** `q` is the j-th section of the segment, from the k-th on, and none
      between the k-th and it covers the address. */
  ghost predicate FirstFrom(s: seq<byte>, seg: nat, k: nat, j: nat, q: nat, address: u32, swapped: bool)
    requires seg + 8 <= |s| && CommandShaped(s, seg, swapped) && Cmd(s, seg, swapped) == LC_SEGMENT
  {
    && k <= j < NSects(s, seg, swapped) && q == SectionAt(seg, j)
    && NoCoverFrom(s, seg, k, j, address, swapped)
  }

  /** The inner loop returns the first covering section from the k-th on. */
  lemma {:induction false} CoveringSectionFirst(s: seq<byte>, seg: nat, k: nat, address: u32, swapped: bool)
    requires seg + 8 <= |s| && CommandShaped(s, seg, swapped) && Cmd(s, seg, swapped) == LC_SEGMENT
    ensures var r := CoveringSection(s, seg, k, address, swapped);
      r.Some? ==> exists j :: FirstFrom(s, seg, k, j, r.value, address, swapped)
    decreases NSects(s, seg, swapped) - k
  {
    if k < NSects(s, seg, swapped) {
      SectionInside(s, seg, k, swapped);
      if Covers(s, SectionAt(seg, k), address, swapped) {
        assert FirstFrom(s, seg, k, k, SectionAt(seg, k), address, swapped);
      } else {
        CoveringSectionFirst(s, seg, k + 1, address, swapped);
        var r := CoveringSection(s, seg, k + 1, address, swapped);
        if r.Some? {
          var j :| FirstFrom(s, seg, k + 1, j, r.value, address, swapped);
          assert FirstFrom(s, seg, k, j, r.value, address, swapped);
        }
      }
    }
  }

  /** Nothing covers the address in the first command's sections nor in
      the first i of the rest: nothing does in the first i + 1. */
  lemma NoCoverShift(s: seq<byte>, cmds: seq<nat>, i: nat, address: u32, segname: Option<seq<byte>>, swapped: bool)
    requires Shaped(s, cmds, swapped) && i + 1 <= |cmds| && Shaped(s, cmds[1..], swapped)
    requires Searched(s, cmds[0], segname, swapped) ==> NoCoverFrom(s, cmds[0], 0, NSects(s, cmds[0], swapped), address, swapped)
    requires NoCoverBefore(s, cmds[1..], i, address, segname, swapped)
    ensures NoCoverBefore(s, cmds, i + 1, address, segname, swapped)
  {
    var rest := cmds[1..];
    forall i' | 0 <= i' < i + 1 && Searched(s, cmds[i'], segname, swapped)
      ensures NoCoverFrom(s, cmds[i'], 0, NSects(s, cmds[i'], swapped), address, swapped)
    {
      if i' > 0 {
        assert cmds[i'] == rest[i' - 1];
      }
    }
  }

  /** `q` is the j-th section of the i-th command, a searched segment,
      and no section before it in walk order covers the address. */
  ghost predicate FirstAt(s: seq<byte>, cmds: seq<nat>, i: nat, j: nat, q: nat, address: u32, segname: Option<seq<byte>>, swapped: bool)
    requires Shaped(s, cmds, swapped)
  {
    && i < |cmds| && Searched(s, cmds[i], segname, swapped)
    && j < NSects(s, cmds[i], swapped) && q == SectionAt(cmds[i], j)
    && NoCoverBefore(s, cmds, i, address, segname, swapped)
    && NoCoverFrom(s, cmds[i], 0, j, address, swapped)
  }

  lemma FirstAtShift(s: seq<byte>, cmds: seq<nat>, i: nat, j: nat, q: nat, address: u32, segname: Option<seq<byte>>, swapped: bool)
    requires Shaped(s, cmds, swapped) && cmds != [] && Shaped(s, cmds[1..], swapped)
    requires Searched(s, cmds[0], segname, swapped) ==> NoCoverFrom(s, cmds[0], 0, NSects(s, cmds[0], swapped), address, swapped)
    requires FirstAt(s, cmds[1..], i, j, q, address, segname, swapped)
    ensures FirstAt(s, cmds, i + 1, j, q, address, segname, swapped)
  {
    NoCoverShift(s, cmds, i, address, segname, swapped);
    assert cmds[i + 1] == cmds[1..][i];
  }

  /** The outer loop returns the first covering section in walk order:
      none in an earlier searched command, none earlier in its own. */
  lemma {:induction false} PointerSectionFirst(s: seq<byte>, cmds: seq<nat>, address: u32, segname: Option<seq<byte>>, swapped: bool)
    requires Shaped(s, cmds, swapped)
    ensures var r := PointerSection(s, cmds, address, segname, swapped);
      r.Some? ==> exists i, j :: FirstAt(s, cmds, i, j, r.value, address, segname, swapped)
    decreases |cmds|
  {
    if cmds != [] {
      var rest := cmds[1..];
      assert forall i :: 1 <= i < |cmds| ==> cmds[i] == rest[i - 1];
      var searched := Searched(s, cmds[0], segname, swapped);
      if searched {
        CoveringSectionFirst(s, cmds[0], 0, address, swapped);
      }
      var here := if searched then CoveringSection(s, cmds[0], 0, address, swapped) else None;
      if here.Some? {
        var j :| FirstFrom(s, cmds[0], 0, j, here.value, address, swapped);
        assert FirstAt(s, cmds, 0, j, here.value, address, segname, swapped);
      } else {
        PointerSectionFirst(s, rest, address, segname, swapped);
        var r := PointerSection(s, rest, address, segname, swapped);
        if r.Some? {
          var i, j :| FirstAt(s, rest, i, j, r.value, address, segname, swapped);
          if searched {
            assert NoCoverFrom(s, cmds[0], 0, NSects(s, cmds[0], swapped), address, swapped);
          }
          FirstAtShift(s, cmds, i, j, r.value, address, segname, swapped);
        }
      }
    }
  }

  /** GetPointer: the file offset of a virtual address, or None (the null
      Pointer) when no section of a searched segment covers it. The source
      starts its walk at sizeof(struct mach_header) whatever the header's
      width, so the walk from byte 28 must be well formed. */
  function GetPointer(s: seq<byte>, h: Header, address: u32, segname: Option<seq<byte>>): (r: Option<u32>)
    requires |s| >= MACH_HEADER_SIZE
    requires Chain(s, MACH_HEADER_SIZE, NCmds(s, h), MACH_HEADER_SIZE + SizeOfCmds(s, h), h.swapped)
    ensures r.Some? <==> exists q :: PointerTarget(s, h, q, address, segname)
    ensures r.Some? ==> exists q ::
      && PointerTarget(s, h, q, address, segname) && FirstTarget(s, h, q, address, segname)
      && r.value == Translate(s, q, address, h.swapped)
  {
    WalkShaped(s, MACH_HEADER_SIZE, NCmds(s, h), MACH_HEADER_SIZE + SizeOfCmds(s, h), h.swapped);
    var cmds := Walk(s, MACH_HEADER_SIZE, NCmds(s, h), h.swapped);
    PointerSectionFirst(s, cmds, address, segname, h.swapped);
    match PointerSection(s, cmds, address, segname, h.swapped)
    case None =>
      None
    case Some(q) =>
      assert PointerTarget(s, h, q, address, segname);
      assert FirstTarget(s, h, q, address, segname);
      Some(Translate(s, q, address, h.swapped))
  }

  /** `q` is the first section, in walk order, of a searched segment that
      covers the address: no section of an earlier searched command does,
      and no earlier section of its own. */
  ghost predicate FirstTarget(s: seq<byte>, h: Header, q: nat, address: u32, segname: Option<seq<byte>>)
    requires |s| >= MACH_HEADER_SIZE
    requires Chain(s, MACH_HEADER_SIZE, NCmds(s, h), MACH_HEADER_SIZE + SizeOfCmds(s, h), h.swapped)
  {
    WalkShaped(s, MACH_HEADER_SIZE, NCmds(s, h), MACH_HEADER_SIZE + SizeOfCmds(s, h), h.swapped);
    var cmds := Walk(s, MACH_HEADER_SIZE, NCmds(s, h), h.swapped);
    exists i, j :: FirstAt(s, cmds, i, j, q, address, segname, h.swapped)
  }

  /** `q` is a section of a searched segment in the walk from byte 28 and
      covers the address. */
  ghost predicate PointerTarget(s: seq<byte>, h: Header, q: nat, address: u32, segname: Option<seq<byte>>)
    requires |s| >= MACH_HEADER_SIZE
    requires Chain(s, MACH_HEADER_SIZE, NCmds(s, h), MACH_HEADER_SIZE + SizeOfCmds(s, h), h.swapped)
  {
    WalkShaped(s, MACH_HEADER_SIZE, NCmds(s, h), MACH_HEADER_SIZE + SizeOfCmds(s, h), h.swapped);
    var cmds := Walk(s, MACH_HEADER_SIZE, NCmds(s, h), h.swapped);
    && q + SECTION_SIZE <= |s|
    && Covers(s, q, address, h.swapped)
    && exists i, j :: 0 <= i < |cmds| && Searched(s, cmds[i], segname, h.swapped) &&
         0 <= j < NSects(s, cmds[i], h.swapped) && q == SectionAt(cmds[i], j)
  }
}
