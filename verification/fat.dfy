/** The container: a fat file's architecture table, or one implicit slice
    covering the whole file (FatHeader, ldid.cpp:593-641). */
module Fat {
  import opened Bytes
  import opened Wrappers
  import MachO

  const FAT_MAGIC: u32 := 0xcafebabe
  const FAT_CIGAM: u32 := 0xbebafeca
  /** sizeof(struct fat_header) and sizeof(struct fat_arch). */
  const FAT_HEADER_SIZE: nat := 8
  const FAT_ARCH_SIZE: nat := 20

  /** One slice: where its bytes lie in the file and, in a fat file, where
      its fat_arch record is (the FatMachHeader's `fat_arch_`). */
  datatype Slice = Slice(offset: nat, size: nat, arch: Option<nat>)

  /** The split of a file into slices; `swapped` is the FatHeader's own
      byte order, used for every field of the fat table. */
  datatype Container = Container(fat: bool, swapped: bool, slices: seq<Slice>)

  /** The fat magic read without swapping decides the table's byte order:
      FAT_CIGAM (the usual big-endian table on this host) sets `swapped`. */
  function FatOrder(s: seq<byte>): (r: Option<bool>)
    requires |s| >= 4
    ensures r.Some? <==> Get32(s, 0, false) == FAT_MAGIC || Get32(s, 0, false) == FAT_CIGAM
    ensures r.Some? ==> Get32(s, 0, r.value) == FAT_MAGIC
  {
    Get32OtherOrder(s, 0, false);
    assert Swap32(FAT_CIGAM) == FAT_MAGIC;
    var raw := Get32(s, 0, false);
    if raw == FAT_CIGAM then Some(true)
    else if raw == FAT_MAGIC then Some(false)
    else None
  }

  /** A table whose magic reads FAT_MAGIC big-endian is a swapped one. */
  lemma BigEndianOrder(s: seq<byte>)
    requires |s| >= 4 && Get32(s, 0, true) == FAT_MAGIC
    ensures FatOrder(s) == Some(true)
  {
    Get32OtherOrder(s, 0, true);
    assert Swap32(FAT_MAGIC) == FAT_CIGAM;
  }

  function NFatArch(s: seq<byte>, swapped: bool): u32
    requires |s| >= FAT_HEADER_SIZE
  {
    Get32(s, 4, swapped)
  }

  /** Where the i-th fat_arch record starts. */
  function ArchRecord(i: nat): nat
  {
    FAT_HEADER_SIZE + FAT_ARCH_SIZE * i
  }

  lemma ArchRecordInside(i: nat, n: nat)
    requires i < n
    ensures ArchRecord(i) + FAT_ARCH_SIZE <= ArchRecord(n)
  {
    MulAtLeast(n - i, FAT_ARCH_SIZE);
    MulDistrib(n, i, FAT_ARCH_SIZE);
  }

  /** The i-th record's cputype, cpusubtype, offset, size and align. */
  function ArchField(s: seq<byte>, i: nat, field: nat, swapped: bool): u32
    requires field < 5 && ArchRecord(i) + FAT_ARCH_SIZE <= |s|
  {
    Get32(s, ArchRecord(i) + 4 * field, swapped)
  }

  /** The slice the i-th record describes. */
  function ArchSlice(s: seq<byte>, i: nat, swapped: bool): Slice
    requires ArchRecord(i) + FAT_ARCH_SIZE <= |s|
  {
    Slice(ArchField(s, i, 2, swapped), ArchField(s, i, 3, swapped), Some(ArchRecord(i)))
  }

  /** The arch loop of the FatHeader constructor, from record i on. */
  function ArchSlices(s: seq<byte>, i: nat, n: nat, swapped: bool): (r: seq<Slice>)
    requires i <= n && ArchRecord(n) <= |s|
    ensures |r| == n - i
    ensures forall k :: 0 <= k < n - i ==>
      (ArchRecordInside(i + k, n);
       r[k] == ArchSlice(s, i + k, swapped))
    decreases n - i
  {
    if i == n then []
    else
      ArchRecordInside(i, n);
      [ArchSlice(s, i, swapped)] + ArchSlices(s, i + 1, n, swapped)
  }

  /** The file is long enough for what the FatHeader constructor reads:
      the magic, and in a fat file the whole arch table. */
  predicate TableFits(s: seq<byte>)
  {
    && |s| >= FAT_HEADER_SIZE
    && (FatOrder(s).Some? ==> ArchRecord(NFatArch(s, FatOrder(s).value)) <= |s|)
  }

  /** The FatHeader constructor: a fat file yields one slice per arch
      record, in table order; any other file is one slice covering it all. */
  function GetSlices(s: seq<byte>): (r: Container)
    requires TableFits(s)
    ensures r.fat <==> FatOrder(s).Some?
    ensures !r.fat ==> !r.swapped && r.slices == [Slice(0, |s|, None)]
    ensures r.fat ==> Get32(s, 0, r.swapped) == FAT_MAGIC && |r.slices| == NFatArch(s, r.swapped)
    ensures r.fat ==> forall i :: 0 <= i < |r.slices| ==>
      (ArchRecordInside(i, |r.slices|);
       r.slices[i] == ArchSlice(s, i, r.swapped))
  {
    match FatOrder(s)
    case None => Container(false, false, [Slice(0, |s|, None)])
    case Some(swapped) =>
      var n := NFatArch(s, swapped);
      var slices := ArchSlices(s, 0, n, swapped);
      Container(true, swapped, slices)
  }

  /** Every slice lies inside the file and is long enough for a Mach-O
      header. ldid checks neither. */
  predicate SlicesFit(s: seq<byte>, c: Container)
  {
    forall i :: 0 <= i < |c.slices| ==>
      c.slices[i].offset + c.slices[i].size <= |s| && c.slices[i].size >= MachO.MACH_HEADER_SIZE
  }

  function SliceBytes(s: seq<byte>, sl: Slice): (r: seq<byte>)
    requires sl.offset + sl.size <= |s|
    ensures |r| == sl.size
  {
    s[sl.offset..sl.offset + sl.size]
  }

  /** Each slice's MachHeader constructor, in order: the first slice that
      is not an accepted Mach-O image aborts the file. */
  function SliceHeaders(s: seq<byte>, slices: seq<Slice>): (r: Result<seq<MachO.Header>>)
    requires forall i :: 0 <= i < |slices| ==>
      slices[i].offset + slices[i].size <= |s| && slices[i].size >= MachO.MACH_HEADER_SIZE
    ensures r.Ok? ==> |r.value| == |slices|
    ensures r.Ok? <==> forall i :: 0 <= i < |slices| ==> MachO.ParseHeader(SliceBytes(s, slices[i])).Ok?
    ensures r.Ok? ==> forall i :: 0 <= i < |slices| ==> MachO.ParseHeader(SliceBytes(s, slices[i])) == Ok(r.value[i])
    decreases |slices|
  {
    if slices == [] then Ok([])
    else
      match MachO.ParseHeader(SliceBytes(s, slices[0]))
      case Err(e) => Err(e)
      case Ok(h) =>
        match SliceHeaders(s, slices[1..])
        case Err(e) => Err(e)
        case Ok(rest) =>
          assert forall i :: 1 <= i < |slices| ==> slices[i] == slices[1..][i - 1];
          Ok([h] + rest)
  }

  /** A thin file is exactly one Mach-O image, so its container and its
      slice decode agree with decoding the whole file. */
  lemma ThinIsWholeFile(s: seq<byte>)
    requires TableFits(s) && FatOrder(s).None? && |s| >= MachO.MACH_HEADER_SIZE
    ensures var c := GetSlices(s);
      && SlicesFit(s, c)
      && SliceHeaders(s, c.slices) == (match MachO.ParseHeader(s) case Ok(h) => Ok([h]) case Err(e) => Err(e))
  {
    var c := GetSlices(s);
    assert SliceBytes(s, c.slices[0]) == s;
    assert c.slices[1..] == [];
    assert SliceHeaders(s, c.slices[1..]) == Ok([]);
    if MachO.ParseHeader(s).Ok? {
      assert [MachO.ParseHeader(s).value] + [] == [MachO.ParseHeader(s).value];
    }
  }
}
