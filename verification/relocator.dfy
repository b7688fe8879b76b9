/** The second pass of signing or stripping (ldid.cpp:1022-1105): the
    output is sized by the layout and zero-filled, the fat header and one
    fat_arch record per slice are written big-endian, and every slice is
    copied into its room and edited there. The edits of a room are the
    SliceEdits functions applied to the room's bytes. */
module Relocator {
  import opened Bytes
  import opened MachO
  import Fat
  import opened Planner
  import Buffer
  import opened SliceEdits
  import opened Wrappers
  import Generator

  /** One slice as the second pass sees it: the input slice's bytes, its
      header, and the plan the first pass made for it. */
  datatype Job = Job(slice: seq<byte>, h: Header, plan: Plan)

  /** What the edits of a slice rely on: the slice decodes, its load
      commands lie below the code limit (so memcpy copies all of them),
      its fields fit in 32 bits, and when a signature command has to be
      appended there are 16 bytes for it (ldid does not check this). */
  predicate Editable(j: Job, sign: bool)
  {
    && Valid(j.slice, j.h)
    && CommandsEnd(j.slice, j.h) <= j.plan.limit <= |j.slice|
    && j.plan.alloc % 16 == 0
    && Footprint(j.plan) < TWO_32 && j.plan.align < TWO_32
    && (sign ==> CommandsEnd(j.slice, j.h) + LINKEDIT_DATA_SIZE <= Footprint(j.plan))
  }

  /** A slice is ready when it is editable (ReadyIs). Ready counts down
      from a count whose end a proof does not see, so a proof about many
      slices does not decode every one of them. */
  predicate Ready(j: Job, sign: bool)
  {
    ReadyAfter(j, sign, |j.slice| + 1)
  }

  predicate ReadyAfter(j: Job, sign: bool, steps: nat)
    decreases steps
  {
    if steps == 0 then Editable(j, sign) else ReadyAfter(j, sign, steps - 1)
  }

  lemma {:induction false} ReadyAfterIs(j: Job, sign: bool, steps: nat)
    ensures ReadyAfter(j, sign, steps) == Editable(j, sign)
    decreases steps
  {
    if steps > 0 {
      ReadyAfterIs(j, sign, steps - 1);
    }
  }

  lemma ReadyIs(j: Job, sign: bool)
    ensures Ready(j, sign) == Editable(j, sign)
    ensures Ready(j, sign) ==> Listable(j)
  {
    ReadyAfterIs(j, sign, |j.slice| + 1);
  }

  /** The bytes a slice's room holds once the relocator is done with it:
      the first `limit` bytes of the slice, zeros up to the padded limit
      plus the reserved size, then -r, -S and the __LINKEDIT stretch with
      dataoff = the padded limit and datasize = the reserved size
      (RoomIs). */
  function Room(j: Job, strip: bool, sign: bool): (r: seq<byte>)
    requires Ready(j, sign)
    ensures |r| == Footprint(j.plan)
  {
    Edited(j, strip, sign, |j.slice| + 1)
  }

  /** The same edits after a countdown of `steps`: every count gives the
      same bytes (EditedIs). Room starts the countdown at a count whose end
      a proof does not see, so the edits stay folded until RoomIs unfolds
      them. */
  function Edited(j: Job, strip: bool, sign: bool, steps: nat): (r: seq<byte>)
    requires Ready(j, sign)
    ensures |r| == Footprint(j.plan)
    decreases steps
  {
    if steps == 0 then
      ReadyIs(j, sign);
      var len := Footprint(j.plan);
      CopiedSpec(j.slice, j.h, j.plan.limit, len);
      EditSlice(Copied(j.slice, j.plan.limit, len), j.h, strip, sign, Padded(j.plan), j.plan.alloc)
    else
      Edited(j, strip, sign, steps - 1)
  }

  lemma {:induction false} EditedIs(j: Job, strip: bool, sign: bool, steps: nat)
    requires Ready(j, sign)
    ensures forall k :: 0 <= k <= steps ==> Edited(j, strip, sign, steps) == Edited(j, strip, sign, k)
    decreases steps
  {
    if steps > 0 {
      EditedIs(j, strip, sign, steps - 1);
    }
  }

  /** What a room holds: the slice's edits applied to its copy. */
  lemma RoomIs(j: Job, strip: bool, sign: bool)
    requires Ready(j, sign)
    ensures var len := Footprint(j.plan);
      (ReadyIs(j, sign);
       CopiedSpec(j.slice, j.h, j.plan.limit, len);
       Room(j, strip, sign) == EditSlice(Copied(j.slice, j.plan.limit, len), j.h, strip, sign, Padded(j.plan), j.plan.alloc))
  {
    EditedIs(j, strip, sign, |j.slice| + 1);
    assert Room(j, strip, sign) == Edited(j, strip, sign, 0);
  }

  // ---------------------------------------------------------------------
  // The fat table (ldid.cpp:1031-1039, 1047-1054)
  // ---------------------------------------------------------------------

  /** fat_header: FAT_MAGIC and the slice count, big-endian. */
  function FatHeaderBytes(nfat: u32): (r: seq<byte>)
    ensures |r| == Fat.FAT_HEADER_SIZE
    ensures Get32(r, 0, true) == Fat.FAT_MAGIC && Get32(r, 4, true) == nfat
  {
    var magic, count := Encode32(Fat.FAT_MAGIC, true), Encode32(nfat, true);
    var r := magic + count;
    Get32Frame(r, magic, 0, 0, true);
    Get32Frame(r, count, 4, 0, true);
    r
  }

  /** A fat_arch record: cputype, cpusubtype, offset, size and align,
      big-endian. */
  function ArchBytes(cputype: u32, cpusubtype: u32, offset: u32, size: u32, align: u32): (r: seq<byte>)
    ensures |r| == Fat.FAT_ARCH_SIZE
    ensures Get32(r, 0, true) == cputype && Get32(r, 4, true) == cpusubtype
    ensures Get32(r, 8, true) == offset && Get32(r, 12, true) == size && Get32(r, 16, true) == align
  {
    var e0, e1, e2 := Encode32(cputype, true), Encode32(cpusubtype, true), Encode32(offset, true);
    var e3, e4 := Encode32(size, true), Encode32(align, true);
    var r := e0 + e1 + e2 + e3 + e4;
    Get32Frame(r, e0, 0, 0, true);
    Get32Frame(r, e1, 4, 0, true);
    Get32Frame(r, e2, 8, 0, true);
    Get32Frame(r, e3, 12, 0, true);
    Get32Frame(r, e4, 16, 0, true);
    r
  }

  /** What a fat record needs of a slice: a header to read the CPU type
      from, and a size and alignment that fit fat_arch's fields. */
  predicate Listable(j: Job)
  {
    |j.slice| >= MACH_HEADER_SIZE && Footprint(j.plan) < TWO_32 && j.plan.align < TWO_32
  }

  /** The record of a slice placed at `offset`: its header's cputype and
      cpusubtype in the slice's own byte order, re-stored big-endian, and
      the room's offset, size and alignment. */
  function Record(j: Job, offset: u32): (r: seq<byte>)
    requires Listable(j)
    ensures |r| == Fat.FAT_ARCH_SIZE
    ensures Get32(r, 0, true) == GetCPUType(j.slice, j.h) && Get32(r, 4, true) == Get32(j.slice, 8, j.h.swapped)
    ensures Get32(r, 8, true) == offset && Get32(r, 12, true) == Footprint(j.plan) && Get32(r, 16, true) == j.plan.align
  {
    ArchBytes(GetCPUType(j.slice, j.h), Get32(j.slice, 8, j.h.swapped), offset, Footprint(j.plan), j.plan.align)
  }

  /** ldid.cpp:1048-1049 store Swap(source->cputype): the raw field,
      loaded as the host reads it, not in the slice's byte order. */
  function CPUTypeAsWritten(s: seq<byte>): u32
    requires |s| >= MACH_HEADER_SIZE
  {
    Get32(s, 4, false)
  }

  /** For a byte-swapped slice the record as written holds the cputype
      byte-reversed: a big-endian PowerPC slice (cputype 18) is listed
      as cputype 0x12000000. */
  lemma CPUTypeAsWrittenReversed(s: seq<byte>, h: Header)
    requires |s| >= MACH_HEADER_SIZE && h.swapped
    ensures CPUTypeAsWritten(s) == Swap32(GetCPUType(s, h))
    ensures GetCPUType(s, h) == 18 ==> CPUTypeAsWritten(s) == 0x1200_0000
  {
    Get32OtherOrder(s, 4, true);
    assert Swap32(18) == 0x1200_0000;
  }

  // ---------------------------------------------------------------------
  // The output file
  // ---------------------------------------------------------------------

  function Plans(jobs: seq<Job>): (r: seq<Plan>)
    ensures |r| == |jobs| && forall i :: 0 <= i < |jobs| ==> r[i] == jobs[i].plan
  {
    seq(|jobs|, i requires 0 <= i < |jobs| => jobs[i].plan)
  }

  /** Where the first slice may start: after the fat table, or at 0. */
  function Start(fat: bool, jobs: seq<Job>): nat
  {
    TableEnd(fat, |jobs|)
  }

  /** The size the output file is truncated to (the final running offset). */
  function Total(fat: bool, jobs: seq<Job>): nat
  {
    LayoutEnd(Start(fat, jobs), Plans(jobs))
  }

  function Places(fat: bool, jobs: seq<Job>): (r: seq<nat>)
    ensures |r| == |jobs|
  {
    Offsets(Start(fat, jobs), Plans(jobs))
  }

  /** What the pass needs: every slice is ready, a thin file has one
      slice, and every offset and size fits the 32-bit fields of
      CodesignAllocation and fat_arch. */
  predicate Prepared(fat: bool, jobs: seq<Job>, sign: bool)
  {
    && (forall i :: 0 <= i < |jobs| ==> Ready(jobs[i], sign))
    && (fat || |jobs| == 1)
    && |jobs| < TWO_32
    && Total(fat, jobs) < TWO_32
  }

  /** What the layout and the fat table need of prepared slices. */
  lemma PreparedPlans(fat: bool, jobs: seq<Job>, sign: bool)
    requires Prepared(fat, jobs, sign)
    ensures Reserved16(Plans(jobs))
    ensures forall i :: 0 <= i < |jobs| ==> Listable(jobs[i])
  {
    forall i | 0 <= i < |jobs|
      ensures jobs[i].plan.alloc % 16 == 0 && Listable(jobs[i])
    {
      ReadyIs(jobs[i], sign);
    }
  }

  /** The layout facts the pass relies on, for prepared jobs: rooms are
      apart and inside the output, after the fat table. */
  lemma Placed(fat: bool, jobs: seq<Job>, sign: bool)
    requires Prepared(fat, jobs, sign)
    ensures var offsets, total := Places(fat, jobs), Total(fat, jobs);
      && Start(fat, jobs) <= total
      && (forall i :: 0 <= i < |jobs| ==> Start(fat, jobs) <= offsets[i] && offsets[i] + Footprint(jobs[i].plan) <= total)
      && (forall i, k :: 0 <= i < k < |jobs| ==> offsets[i] + Footprint(jobs[i].plan) <= offsets[k])
  {
    var plans := Plans(jobs);
    var start := Start(fat, jobs);
    PreparedPlans(fat, jobs, sign);
    LayoutSound(start, plans);
    LayoutEndGrows(start, plans);
    forall i, k | 0 <= i < k < |jobs|
      ensures Places(fat, jobs)[i] + Footprint(jobs[i].plan) <= Places(fat, jobs)[k]
    {
      RoomsApart(start, plans, i, k);
    }
  }

  /** Consecutive rooms are apart, so any two are. */
  lemma {:induction false} RoomsApart(start: nat, plans: seq<Plan>, i: nat, k: nat)
    requires Reserved16(plans) && i < k < |plans|
    ensures Offsets(start, plans)[i] + Footprint(plans[i]) <= Offsets(start, plans)[k]
    decreases k - i
  {
    var offsets := Offsets(start, plans);
    LayoutSound(start, plans);
    if i + 1 < k {
      RoomsApart(start, plans, i + 1, k);
      assert offsets[i + 1] <= offsets[i + 1] + Footprint(plans[i + 1]);
    }
  }

  // ---------------------------------------------------------------------
  // Writing the output, for any header, records and rooms
  // ---------------------------------------------------------------------

  /** Where the pieces go: the fat header at 0 and record i at
      ArchRecord(i) in a fat file; room i at `at[i]`, after the table, in
      order, apart and inside the `total` bytes. */
  predicate Laid(fat: bool, total: nat, header: seq<byte>, at: seq<nat>, records: seq<seq<byte>>, rooms: seq<seq<byte>>)
  {
    && |at| == |rooms| == |records|
    && TableEnd(fat, |rooms|) <= total
    && (fat ==> |header| == Fat.FAT_HEADER_SIZE && forall i :: 0 <= i < |records| ==> |records[i]| == Fat.FAT_ARCH_SIZE)
    && (forall i :: 0 <= i < |rooms| ==> TableEnd(fat, |rooms|) <= at[i] && at[i] + |rooms[i]| <= total)
    && (forall i, k :: 0 <= i < k < |rooms| ==> at[i] + |rooms[i]| <= at[k])
  }

  /** The output after the memset, the fat header and the first `n`
      slices: each slice's fat record, then its room. */
  function Written(fat: bool, total: nat, header: seq<byte>, at: seq<nat>, records: seq<seq<byte>>, rooms: seq<seq<byte>>, n: nat): (r: seq<byte>)
    requires Laid(fat, total, header, at, records, rooms) && n <= |rooms|
    ensures |r| == total
    decreases n
  {
    if n == 0 then
      if fat then Splice(Zeros(total), 0, header) else Zeros(total)
    else
      var i := n - 1;
      var prev := Written(fat, total, header, at, records, rooms, i);
      var tabled := if fat then (Fat.ArchRecordInside(i, |rooms|); Splice(prev, Fat.ArchRecord(i), records[i])) else prev;
      Splice(tabled, at[i], rooms[i])
  }

  /** A byte past the fat table that no room written so far covers is
      still zero from the memset. */
  lemma {:induction false} WrittenZero(fat: bool, total: nat, header: seq<byte>, at: seq<nat>, records: seq<seq<byte>>, rooms: seq<seq<byte>>, n: nat, k: nat)
    requires Laid(fat, total, header, at, records, rooms) && n <= |rooms|
    requires TableEnd(fat, |rooms|) <= k < total
    requires forall i :: 0 <= i < n ==> !(at[i] <= k < at[i] + |rooms[i]|)
    ensures Written(fat, total, header, at, records, rooms, n)[k] == 0
    decreases n
  {
    if n > 0 {
      WrittenZero(fat, total, header, at, records, rooms, n - 1, k);
      Fat.ArchRecordInside(n - 1, |rooms|);
    }
  }

  /** Written, one step unfolded. */
  lemma WrittenStep(fat: bool, total: nat, header: seq<byte>, at: seq<nat>, records: seq<seq<byte>>, rooms: seq<seq<byte>>, n: nat)
    requires Laid(fat, total, header, at, records, rooms) && 0 < n <= |rooms|
    ensures fat ==> Fat.ArchRecord(n - 1) + Fat.FAT_ARCH_SIZE <= total
    ensures var prev := Written(fat, total, header, at, records, rooms, n - 1);
      var tabled := if fat then Splice(prev, Fat.ArchRecord(n - 1), records[n - 1]) else prev;
      Written(fat, total, header, at, records, rooms, n) == Splice(tabled, at[n - 1], rooms[n - 1])
  {
    Fat.ArchRecordInside(n - 1, |rooms|);
  }

  /** One step of the writer: a record (in a fat file) and a room,
      both apart from the range [lo, hi). */
  lemma StepApart(fat: bool, prev: seq<byte>, o: nat, record: seq<byte>, p: nat, room: seq<byte>, lo: nat, hi: nat)
    requires p + |room| <= |prev| && lo <= hi <= |prev|
    requires fat ==> o + |record| <= |prev| && (hi <= o || o + |record| <= lo)
    requires hi <= p || p + |room| <= lo
    ensures var tabled := if fat then Splice(prev, o, record) else prev;
      Splice(tabled, p, room)[lo..hi] == prev[lo..hi]
  {
    var tabled := if fat then Splice(prev, o, record) else prev;
    if fat {
      SpliceApart(prev, o, record, lo, hi);
    }
    SpliceApart(tabled, p, room, lo, hi);
  }

  /** Once written, a room keeps its bytes: later records lie in the fat
      table and later rooms after it. */
  lemma {:induction false} WrittenRoom(fat: bool, total: nat, header: seq<byte>, at: seq<nat>, records: seq<seq<byte>>, rooms: seq<seq<byte>>, n: nat, i: nat)
    requires Laid(fat, total, header, at, records, rooms) && i < n <= |rooms|
    ensures Written(fat, total, header, at, records, rooms, n)[at[i]..at[i] + |rooms[i]|] == rooms[i]
    decreases n
  {
    WrittenStep(fat, total, header, at, records, rooms, n);
    var prev := Written(fat, total, header, at, records, rooms, n - 1);
    Fat.ArchRecordInside(n - 1, |rooms|);
    var o := Fat.ArchRecord(n - 1);
    if i == n - 1 {
      var tabled := if fat then Splice(prev, o, records[n - 1]) else prev;
      SplicePiece(tabled, at[i], rooms[i]);
    } else {
      WrittenRoom(fat, total, header, at, records, rooms, n - 1, i);
      assert fat ==> o + Fat.FAT_ARCH_SIZE <= Fat.ArchRecord(|rooms|) == TableEnd(fat, |rooms|) <= at[i];
      assert at[i] + |rooms[i]| <= at[n - 1];
      StepApart(fat, prev, o, records[n - 1], at[n - 1], rooms[n - 1], at[i], at[i] + |rooms[i]|);
    }
  }

  /** In a fat file the header stays in place... */
  lemma {:induction false} WrittenHeader(fat: bool, total: nat, header: seq<byte>, at: seq<nat>, records: seq<seq<byte>>, rooms: seq<seq<byte>>, n: nat)
    requires Laid(fat, total, header, at, records, rooms) && n <= |rooms| && fat
    ensures Written(fat, total, header, at, records, rooms, n)[..Fat.FAT_HEADER_SIZE] == header
    decreases n
  {
    if n == 0 {
      SplicePiece(Zeros(total), 0, header);
      assert Zeros(total)[0..|header|] == Zeros(total)[..|header|];
    } else {
      var prev := Written(fat, total, header, at, records, rooms, n - 1);
      WrittenHeader(fat, total, header, at, records, rooms, n - 1);
      Fat.ArchRecordInside(n - 1, |rooms|);
      var o := Fat.ArchRecord(n - 1);
      var tabled := Splice(prev, o, records[n - 1]);
      SpliceApart(prev, o, records[n - 1], 0, Fat.FAT_HEADER_SIZE);
      SpliceApart(tabled, at[n - 1], rooms[n - 1], 0, Fat.FAT_HEADER_SIZE);
    }
  }

  /** ...and so does every record once written. */
  lemma {:induction false} WrittenRecord(fat: bool, total: nat, header: seq<byte>, at: seq<nat>, records: seq<seq<byte>>, rooms: seq<seq<byte>>, n: nat, i: nat)
    requires Laid(fat, total, header, at, records, rooms) && i < n <= |rooms| && fat
    ensures (Fat.ArchRecordInside(i, |rooms|);
      Written(fat, total, header, at, records, rooms, n)[Fat.ArchRecord(i)..Fat.ArchRecord(i) + Fat.FAT_ARCH_SIZE] == records[i])
    decreases n
  {
    var prev := Written(fat, total, header, at, records, rooms, n - 1);
    Fat.ArchRecordInside(n - 1, |rooms|);
    Fat.ArchRecordInside(i, |rooms|);
    var o := Fat.ArchRecord(n - 1);
    var tabled := Splice(prev, o, records[n - 1]);
    var p := Fat.ArchRecord(i);
    if i == n - 1 {
      SplicePiece(prev, o, records[n - 1]);
    } else {
      WrittenRecord(fat, total, header, at, records, rooms, n - 1, i);
      Fat.ArchRecordInside(i, n - 1);
      SpliceApart(prev, o, records[n - 1], p, p + Fat.FAT_ARCH_SIZE);
    }
    SpliceApart(tabled, at[n - 1], rooms[n - 1], p, p + Fat.FAT_ARCH_SIZE);
  }

  // ---------------------------------------------------------------------
  // The output of ldid's second pass
  // ---------------------------------------------------------------------

  /** The fat records, record i for job i placed at `at[i]`. */
  function Records(jobs: seq<Job>, at: seq<nat>): (r: seq<seq<byte>>)
    requires |at| == |jobs|
    requires forall i :: 0 <= i < |jobs| ==> Listable(jobs[i]) && at[i] < TWO_32
    ensures |r| == |jobs|
    ensures forall i :: 0 <= i < |jobs| ==> r[i] == Record(jobs[i], at[i])
  {
    seq(|jobs|, i requires 0 <= i < |jobs| => Record(jobs[i], at[i]))
  }

  /** The records of a prepared file, at the planned offsets. */
  function Table(fat: bool, jobs: seq<Job>, sign: bool): (r: seq<seq<byte>>)
    requires Prepared(fat, jobs, sign)
    ensures |r| == |jobs|
    ensures forall i :: 0 <= i < |jobs| ==> |r[i]| == Fat.FAT_ARCH_SIZE
  {
    Placed(fat, jobs, sign);
    PreparedPlans(fat, jobs, sign);
    Records(jobs, Places(fat, jobs))
  }

  /** The edited rooms, room i for job i. */
  function Rooms(jobs: seq<Job>, strip: bool, sign: bool): (r: seq<seq<byte>>)
    requires forall i :: 0 <= i < |jobs| ==> Ready(jobs[i], sign)
    ensures |r| == |jobs|
    ensures forall i :: 0 <= i < |jobs| ==> r[i] == Room(jobs[i], strip, sign)
  {
    seq(|jobs|, i requires 0 <= i < |jobs| => Room(jobs[i], strip, sign))
  }

  /** The layout puts pieces sized by the plans where Laid wants them. */
  lemma LaidPlans(fat: bool, plans: seq<Plan>, header: seq<byte>, records: seq<seq<byte>>, rooms: seq<seq<byte>>)
    requires Reserved16(plans)
    requires |records| == |rooms| == |plans|
    requires fat ==> |header| == Fat.FAT_HEADER_SIZE && forall i :: 0 <= i < |records| ==> |records[i]| == Fat.FAT_ARCH_SIZE
    requires forall i :: 0 <= i < |rooms| ==> |rooms[i]| == Footprint(plans[i])
    ensures var start := TableEnd(fat, |plans|);
      Laid(fat, LayoutEnd(start, plans), header, Offsets(start, plans), records, rooms)
  {
    var start := TableEnd(fat, |plans|);
    LayoutSound(start, plans);
    LayoutEndGrows(start, plans);
    forall i, k | 0 <= i < k < |plans|
      ensures Offsets(start, plans)[i] + |rooms[i]| <= Offsets(start, plans)[k]
    {
      RoomsApart(start, plans, i, k);
    }
  }

  lemma LaidOut(fat: bool, jobs: seq<Job>, strip: bool, sign: bool)
    requires Prepared(fat, jobs, sign)
    ensures Laid(fat, Total(fat, jobs), FatHeaderBytes(|jobs|), Places(fat, jobs), Table(fat, jobs, sign), Rooms(jobs, strip, sign))
  {
    var plans, rooms := Plans(jobs), Rooms(jobs, strip, sign);
    PreparedPlans(fat, jobs, sign);
    forall i | 0 <= i < |jobs|
      ensures |rooms[i]| == Footprint(plans[i])
    {
    }
    LaidPlans(fat, plans, FatHeaderBytes(|jobs|), Table(fat, jobs, sign), rooms);
  }

  /** The output file: its size is the layout's final offset; in a fat
      file the header and the records come first; each slice's room holds
      its edited copy. */
  function Output(fat: bool, jobs: seq<Job>, strip: bool, sign: bool): (r: seq<byte>)
    requires Prepared(fat, jobs, sign)
    ensures |r| == Total(fat, jobs)
  {
    LaidOut(fat, jobs, strip, sign);
    Written(fat, Total(fat, jobs), FatHeaderBytes(|jobs|), Places(fat, jobs), Table(fat, jobs, sign), Rooms(jobs, strip, sign), |jobs|)
  }

  /** Before slice n is written its room is still zero from the memset. */
  lemma WrittenFree(fat: bool, total: nat, header: seq<byte>, at: seq<nat>, records: seq<seq<byte>>, rooms: seq<seq<byte>>, n: nat)
    requires Laid(fat, total, header, at, records, rooms) && n < |rooms|
    ensures forall k :: at[n] <= k < at[n] + |rooms[n]| ==> Written(fat, total, header, at, records, rooms, n)[k] == 0
  {
    forall k | at[n] <= k < at[n] + |rooms[n]|
      ensures Written(fat, total, header, at, records, rooms, n)[k] == 0
    {
      WrittenZero(fat, total, header, at, records, rooms, n, k);
    }
  }

  // ---------------------------------------------------------------------
  // The pass on an output buffer
  // ---------------------------------------------------------------------

  /** memcpy of `limit` bytes of `s` into a zeroed room of `len` bytes
      at `base`: the room then holds the copy Copied describes. */
  method CopyIn(out: array<byte>, base: nat, s: seq<byte>, limit: nat, len: nat)
    requires limit <= |s| && limit <= len && base + len <= out.Length
    requires forall k :: base <= k < base + len ==> out[k] == 0
    modifies out
    ensures out[..] == Splice(old(out[..]), base, s[..limit])
    ensures out[base..base + len] == Copied(s, limit, len)
  {
    Buffer.Write(out, base, s[..limit]);
    assert out[base..base + len] == Copied(s, limit, len);
  }

  /** memcpy of the slice's first `limit` bytes into its zeroed room at
      `base`, then the room's edits. */
  method RelocateSlice(out: array<byte>, base: nat, j: Job, strip: bool, sign: bool)
    requires Ready(j, sign) && base + Footprint(j.plan) <= out.Length
    requires forall k :: base <= k < base + Footprint(j.plan) ==> out[k] == 0
    modifies out
    ensures out[..] == Splice(old(out[..]), base, Room(j, strip, sign))
  {
    ReadyIs(j, sign);
    var len := Footprint(j.plan);
    var prefix := j.slice[..j.plan.limit];
    CopyIn(out, base, j.slice, j.plan.limit, len);
    var w := out[base..base + len];
    CopiedSpec(j.slice, j.h, j.plan.limit, len);
    var room := EditSlice(w, j.h, strip, sign, Padded(j.plan), j.plan.alloc);
    RoomIs(j, strip, sign);
    Buffer.Write(out, base, room);
    SpliceOver(old(out[..]), base, prefix, room);
  }

  /** One turn of the slice loop: slice n's fat record (in a fat file)
      and its room. */
  method RelocateNext(out: array<byte>, fat: bool, total: nat, ghost header: seq<byte>, at: seq<nat>, jobs: seq<Job>,
                      ghost records: seq<seq<byte>>, ghost rooms: seq<seq<byte>>, n: nat, strip: bool, sign: bool)
    requires Laid(fat, total, header, at, records, rooms) && |jobs| == |rooms| && n < |rooms|
    requires Assigned(fat, jobs, at, records, rooms, strip, sign)
    requires out[..] == Written(fat, total, header, at, records, rooms, n)
    modifies out
    ensures out[..] == Written(fat, total, header, at, records, rooms, n + 1)
  {
    AssignedAt(fat, jobs, at, records, rooms, strip, sign, n);
    var j := jobs[n];
    WrittenStep(fat, total, header, at, records, rooms, n + 1);
    WrittenFree(fat, total, header, at, records, rooms, n);
    if fat {
      Buffer.Write(out, Fat.ArchRecord(n), Record(j, at[n]));
    }
    RelocateSlice(out, at[n], j, strip, sign);
  }

  /** The zero-filled output (ldid.cpp:1029), with the fat header in a fat
      file (ldid.cpp:1031-1035). */
  method Cleared(fat: bool, total: nat, header: seq<byte>, ghost at: seq<nat>, ghost records: seq<seq<byte>>, ghost rooms: seq<seq<byte>>)
      returns (out: array<byte>)
    requires Laid(fat, total, header, at, records, rooms)
    ensures fresh(out) && out[..] == Written(fat, total, header, at, records, rooms, 0)
  {
    out := new byte[total](_ => 0);
    assert out[..] == Zeros(total);
    if fat {
      Buffer.Write(out, 0, header);
    }
  }

  /** What the slice loop needs of slice i: it is ready, and its record
      and room are the ones that job i produces. */
  predicate Assigned(fat: bool, jobs: seq<Job>, at: seq<nat>, records: seq<seq<byte>>, rooms: seq<seq<byte>>, strip: bool, sign: bool)
    requires |at| == |records| == |rooms| == |jobs|
  {
    forall i :: 0 <= i < |jobs| ==>
      && Ready(jobs[i], sign) && Listable(jobs[i]) && at[i] < TWO_32
      && (fat ==> records[i] == Record(jobs[i], at[i]))
      && rooms[i] == Room(jobs[i], strip, sign)
  }

  lemma AssignedAt(fat: bool, jobs: seq<Job>, at: seq<nat>, records: seq<seq<byte>>, rooms: seq<seq<byte>>, strip: bool, sign: bool, n: nat)
    requires |at| == |records| == |rooms| == |jobs| && n < |jobs|
    requires Assigned(fat, jobs, at, records, rooms, strip, sign)
    ensures Ready(jobs[n], sign) && Listable(jobs[n]) && at[n] < TWO_32
    ensures fat ==> records[n] == Record(jobs[n], at[n])
    ensures rooms[n] == Room(jobs[n], strip, sign)
  {
  }

  /** The slice loop (ldid.cpp:1044-1105), for slices whose records and
      rooms are the given pieces. */
  method RelocateAll(out: array<byte>, fat: bool, total: nat, ghost header: seq<byte>, at: seq<nat>, jobs: seq<Job>,
                     ghost records: seq<seq<byte>>, ghost rooms: seq<seq<byte>>, strip: bool, sign: bool)
    requires Laid(fat, total, header, at, records, rooms) && |jobs| == |rooms|
    requires Assigned(fat, jobs, at, records, rooms, strip, sign)
    requires out[..] == Written(fat, total, header, at, records, rooms, 0)
    modifies out
    ensures out[..] == Written(fat, total, header, at, records, rooms, |jobs|)
  {
    var i := 0;
    while i < |jobs|
      invariant 0 <= i <= |jobs| && out.Length == total
      invariant out[..] == Written(fat, total, header, at, records, rooms, i)
    {
      RelocateNext(out, fat, total, header, at, jobs, records, rooms, i, strip, sign);
      i := i + 1;
    }
  }

  /** The pieces of a prepared file are laid out and assigned to its
      slices, and the output is what writing them gives. */
  lemma Relocatable(fat: bool, jobs: seq<Job>, strip: bool, sign: bool)
    requires Prepared(fat, jobs, sign)
    ensures var total, header, at, records, rooms := Total(fat, jobs), FatHeaderBytes(|jobs|), Places(fat, jobs), Table(fat, jobs, sign), Rooms(jobs, strip, sign);
      && Laid(fat, total, header, at, records, rooms)
      && Assigned(fat, jobs, at, records, rooms, strip, sign)
      && Output(fat, jobs, strip, sign) == Written(fat, total, header, at, records, rooms, |jobs|)
  {
    LaidOut(fat, jobs, strip, sign);
    AssignedOut(fat, jobs, strip, sign);
  }

  lemma AssignedOut(fat: bool, jobs: seq<Job>, strip: bool, sign: bool)
    requires Prepared(fat, jobs, sign)
    ensures Assigned(fat, jobs, Places(fat, jobs), Table(fat, jobs, sign), Rooms(jobs, strip, sign), strip, sign)
  {
    Placed(fat, jobs, sign);
    PreparedPlans(fat, jobs, sign);
  }

  // ---------------------------------------------------------------------
  // Reading the written fat table back (FatHeader, ldid.cpp:602-624)
  // ---------------------------------------------------------------------

  /** Slice i lies inside `o` and its bytes are room i. */
  predicate Hold(o: seq<byte>, slices: seq<Fat.Slice>, rooms: seq<seq<byte>>)
  {
    && |slices| == |rooms|
    && forall i :: 0 <= i < |slices| ==>
      slices[i].offset + slices[i].size <= |o| && Fat.SliceBytes(o, slices[i]) == rooms[i]
  }

  /** The slices a fat table lists when record i gives `at[i]` and the
      size of room i. */
  function Listing(at: seq<nat>, rooms: seq<seq<byte>>): (r: seq<Fat.Slice>)
    requires |at| == |rooms|
    ensures |r| == |at|
    ensures forall i :: 0 <= i < |at| ==> r[i] == Fat.Slice(at[i], |rooms[i]|, Some(Fat.ArchRecord(i)))
  {
    seq(|at|, i requires 0 <= i < |at| => Fat.Slice(at[i], |rooms[i]|, Some(Fat.ArchRecord(i))))
  }

  /** A file that starts with the fat header written for n slices is a
      fat file in big-endian order with n records. */
  lemma HeaderReads(o: seq<byte>, n: u32)
    requires Fat.FAT_HEADER_SIZE <= |o| && o[..Fat.FAT_HEADER_SIZE] == FatHeaderBytes(n)
    ensures Fat.FatOrder(o) == Some(true) && Fat.NFatArch(o, true) == n
  {
    var header := FatHeaderBytes(n);
    Get32Within(o, 0, header, 0, true);
    Get32Within(o, 0, header, 4, true);
    Fat.BigEndianOrder(o);
  }

  /** The slice a record lists is its offset and size fields. */
  lemma RecordReads(o: seq<byte>, i: nat, record: seq<byte>)
    requires |record| == Fat.FAT_ARCH_SIZE && Fat.ArchRecord(i) + Fat.FAT_ARCH_SIZE <= |o|
    requires o[Fat.ArchRecord(i)..Fat.ArchRecord(i) + Fat.FAT_ARCH_SIZE] == record
    ensures Fat.ArchSlice(o, i, true) == Fat.Slice(Get32(record, 8, true), Get32(record, 12, true), Some(Fat.ArchRecord(i)))
  {
    Get32Within(o, Fat.ArchRecord(i), record, 8, true);
    Get32Within(o, Fat.ArchRecord(i), record, 12, true);
  }

  /** ...and when it holds record i at ArchRecord(i), the FatHeader
      constructor lists one slice per record, in order. */
  lemma TableReads(o: seq<byte>, at: seq<nat>, records: seq<seq<byte>>, rooms: seq<seq<byte>>)
    requires |at| == |records| == |rooms| < TWO_32 && Fat.ArchRecord(|records|) <= |o|
    requires o[..Fat.FAT_HEADER_SIZE] == FatHeaderBytes(|records|)
    requires forall i :: 0 <= i < |records| ==>
      && |records[i]| == Fat.FAT_ARCH_SIZE
      && Fat.ArchRecord(i) + Fat.FAT_ARCH_SIZE <= |o|
      && o[Fat.ArchRecord(i)..Fat.ArchRecord(i) + Fat.FAT_ARCH_SIZE] == records[i]
      && Get32(records[i], 8, true) == at[i] && Get32(records[i], 12, true) == |rooms[i]|
    ensures Fat.TableFits(o)
    ensures Fat.GetSlices(o) == Fat.Container(true, true, Listing(at, rooms))
  {
    HeaderReads(o, |records|);
    var c := Fat.GetSlices(o);
    assert |c.slices| == |records|;
    forall i | 0 <= i < |records|
      ensures c.slices[i] == Listing(at, rooms)[i]
    {
      RecordReads(o, i, records[i]);
    }
    assert c.slices == Listing(at, rooms);
  }

  /** The written output reads back as the table it was given. */
  lemma WrittenTable(total: nat, at: seq<nat>, records: seq<seq<byte>>, rooms: seq<seq<byte>>)
    requires |rooms| < TWO_32 && Laid(true, total, FatHeaderBytes(|rooms|), at, records, rooms)
    requires forall i :: 0 <= i < |rooms| ==> Get32(records[i], 8, true) == at[i] && Get32(records[i], 12, true) == |rooms[i]|
    ensures var o := Written(true, total, FatHeaderBytes(|rooms|), at, records, rooms, |rooms|);
      && Fat.TableFits(o)
      && Fat.GetSlices(o) == Fat.Container(true, true, Listing(at, rooms))
      && Hold(o, Listing(at, rooms), rooms)
  {
    var header := FatHeaderBytes(|rooms|);
    var o := Written(true, total, header, at, records, rooms, |rooms|);
    WrittenHeader(true, total, header, at, records, rooms, |rooms|);
    forall i | 0 <= i < |rooms|
      ensures Fat.ArchRecord(i) + Fat.FAT_ARCH_SIZE <= |o|
      ensures o[Fat.ArchRecord(i)..Fat.ArchRecord(i) + Fat.FAT_ARCH_SIZE] == records[i]
      ensures at[i] + |rooms[i]| <= |o| && o[at[i]..at[i] + |rooms[i]|] == rooms[i]
    {
      WrittenRecord(true, total, header, at, records, rooms, |rooms|, i);
      WrittenRoom(true, total, header, at, records, rooms, |rooms|, i);
    }
    if |rooms| > 0 {
      Fat.ArchRecordInside(|rooms| - 1, |rooms|);
    }
    TableReads(o, at, records, rooms);
    HoldListing(o, at, rooms);
  }

  lemma HoldListing(o: seq<byte>, at: seq<nat>, rooms: seq<seq<byte>>)
    requires |at| == |rooms|
    requires forall i :: 0 <= i < |rooms| ==> at[i] + |rooms[i]| <= |o| && o[at[i]..at[i] + |rooms[i]|] == rooms[i]
    ensures Hold(o, Listing(at, rooms), rooms)
  {
  }

  /** The second pass: a zero-filled output of the layout's size, the fat
      header, and for each slice its fat record and its edited room. */
  method Relocate(fat: bool, jobs: seq<Job>, strip: bool, sign: bool) returns (out: array<byte>)
    requires Prepared(fat, jobs, sign)
    ensures fresh(out) && out[..] == Output(fat, jobs, strip, sign)
  {
    var offsets, total := Layout(TableEnd(fat, |jobs|), Plans(jobs));
    Relocatable(fat, jobs, strip, sign);
    ghost var header, records, rooms := FatHeaderBytes(|jobs|), Table(fat, jobs, sign), Rooms(jobs, strip, sign);
    out := Cleared(fat, total, FatHeaderBytes(|jobs|), offsets, records, rooms);
    RelocateAll(out, fat, total, header, offsets, jobs, records, rooms, strip, sign);
  }

  /** Record i of assigned slices holds room i's offset and size. */
  lemma AssignedFields(fat: bool, jobs: seq<Job>, at: seq<nat>, records: seq<seq<byte>>, rooms: seq<seq<byte>>, strip: bool, sign: bool)
    requires |at| == |records| == |rooms| == |jobs| && fat
    requires Assigned(fat, jobs, at, records, rooms, strip, sign)
    ensures forall i :: 0 <= i < |rooms| ==> Get32(records[i], 8, true) == at[i] && Get32(records[i], 12, true) == |rooms[i]|
  {
  }

  /** The round trip of the second pass for a fat file: the FatHeader
      constructor, run on the output, finds one slice per input slice, in
      order, at its planned offset with its footprint as size, and the
      slice's bytes are its edited room. */
  lemma RelocatedTable(jobs: seq<Job>, strip: bool, sign: bool)
    requires Prepared(true, jobs, sign)
    ensures var o, at, rooms := Output(true, jobs, strip, sign), Places(true, jobs), Rooms(jobs, strip, sign);
      && Fat.TableFits(o)
      && Fat.GetSlices(o) == Fat.Container(true, true, Listing(at, rooms))
      && Hold(o, Listing(at, rooms), rooms)
  {
    Relocatable(true, jobs, strip, sign);
    var total, at, records, rooms := Total(true, jobs), Places(true, jobs), Table(true, jobs, sign), Rooms(jobs, strip, sign);
    AssignedFields(true, jobs, at, records, rooms, strip, sign);
    WrittenTable(total, at, records, rooms);
  }

  /** A signed room lists a signature command pointing at the reserved
      bytes after the padded limit, which run to the room's end. */
  lemma RoomSignature(j: Job, strip: bool)
    requires Ready(j, true)
    ensures Padded(j.plan) + j.plan.alloc == |Room(j, strip, true)|
    ensures exists c :: PointsAt(Room(j, strip, true), j.h, c, Padded(j.plan), j.plan.alloc)
  {
    ReadyIs(j, true);
    RoomIs(j, strip, true);
    CopyPoints(j.slice, j.h, j.plan.limit, Footprint(j.plan), strip, Padded(j.plan), j.plan.alloc);
  }

  /** A slice planned for signing comes out of the second pass with a
      signature command pointing at its reserved room, from the padded
      limit to the room's end, and that room holds the signature the third
      pass's -S generator writes there for the same identifier and
      entitlements. */
  lemma RoomSignable(j: Job, strip: bool, name: seq<byte>, entitlements: Option<seq<byte>>)
    requires Ready(j, true) && Valid(j.slice, j.h)
    requires PlanSlice(j.slice, j.h, j.plan.align, |name|, Generator.EntitlementsSize(entitlements), false) == Ok(j.plan)
    requires Padded(j.plan) + CodeSign.PAGE_SIZE - 1 < TWO_32
    ensures Padded(j.plan) + j.plan.alloc == |Room(j, strip, true)|
    ensures exists c :: PointsAt(Room(j, strip, true), j.h, c, Padded(j.plan), j.plan.alloc)
    ensures Generator.Layout(Padded(j.plan), name, entitlements).end <= j.plan.alloc
  {
    RoomSignature(j, strip);
    Generator.SignFitsReserve(j.plan.limit, Padded(j.plan), name, entitlements);
  }
}
