/** The first pass of signing or stripping (ldid.cpp:949-1019): for every
    slice, how many of its bytes are kept and hashed (the code limit), how
    much room the signature gets, and where the slice goes in the output. */
module Planner {
  import opened Bytes
  import opened Wrappers
  import opened MachO
  import opened CodeSign

  /** What the planner decides for one slice (the CodesignAllocation
      without its header): bytes kept, bytes reserved for the signature,
      and the slice's alignment as a power of two. */
  datatype Plan = Plan(limit: nat, alloc: nat, align: nat)

  /** Where the code limit starts: an existing signature's dataoff, or the
      whole slice. */
  function StartLimit(s: seq<byte>, h: Header): nat
    requires WellFormed(s, h)
  {
    match LastCommand(s, h, LC_CODE_SIGNATURE)
    case None => |s|
    case Some(o) => DataOff(s, o, h.swapped)
  }

  /** The code limit (ldid.cpp:960-986). An existing LC_CODE_SIGNATURE
      must not point past the slice. An LC_SYMTAB's string table must end
      at most 16 bytes below that start and not after it; its end then
      becomes the limit, so that the whole string table is hashed. */
  function CodeLimit(s: seq<byte>, h: Header): (r: Result<nat>)
    requires WellFormed(s, h)
    ensures r.Ok? ==> r.value <= |s|
    ensures r == Err(SignatureBeyondSlice) <==> StartLimit(s, h) > |s|
    ensures r.Ok? && LastCommand(s, h, LC_SYMTAB).None? ==> r.value == StartLimit(s, h)
    ensures r.Ok? && LastCommand(s, h, LC_SYMTAB).Some? ==>
      && r.value == StringTableEnd(s, LastCommand(s, h, LC_SYMTAB).value, h.swapped)
      && StartLimit(s, h) - 16 <= r.value <= StartLimit(s, h)
    ensures r == Err(SymtabMismatch) <==>
      && StartLimit(s, h) <= |s|
      && LastCommand(s, h, LC_SYMTAB).Some?
      && var end := StringTableEnd(s, LastCommand(s, h, LC_SYMTAB).value, h.swapped);
         !(end <= StartLimit(s, h) && StartLimit(s, h) >= 16 && end >= StartLimit(s, h) - 16)
  {
    var size := StartLimit(s, h);
    if size > |s| then Err(SignatureBeyondSlice)
    else match LastCommand(s, h, LC_SYMTAB)
      case None => Ok(size)
      case Some(o) =>
        var end := StringTableEnd(s, o, h.swapped);
        // `size - 0x10` is computed in size_t: below 16 it wraps to a huge
        // value and the second check fails
        if end <= size && size >= 16 && end >= size - 16 then Ok(end) else Err(SymtabMismatch)
  }

  /** The room reserved for the signature (ldid.cpp:988-1011), summed in
      the order the source adds it up: none when stripping; otherwise the
      SuperBlob, one index entry per blob, the CodeDirectory with the
      identifier and its NUL, the 12-byte Requirements, the optional
      Entitlements blob, and 20 bytes for every special and page slot,
      rounded up to 16. */
  function ReservedSize(limit: nat, nameLength: nat, entitlements: Option<nat>, strip: bool): (r: nat)
    ensures strip ==> r == 0
    ensures !strip ==> r % 16 == 0
    ensures !strip ==> SignatureLength(nameLength, entitlements, Pages(limit)) <= r < SignatureLength(nameLength, entitlements, Pages(limit)) + 16
  {
    if strip then 0
    else
      var alloc := SUPER_BLOB_SIZE
        + BLOB_INDEX_SIZE + CODE_DIRECTORY_SIZE + nameLength + 1
        + BLOB_INDEX_SIZE + REQUIREMENTS_SIZE
        + (if entitlements.Some? then BLOB_INDEX_SIZE + BLOB_SIZE + entitlements.value else 0);
      var special := SpecialSlots(entitlements.Some?);
      Align(alloc + (special + Pages(limit)) * HASH_SIZE, 16)
  }

  /** The reserved room always holds the signature the generator writes
      for the slice: the generator hashes Align(limit, 16) bytes, which is
      the same number of pages as the limit the room was sized for. */
  lemma ReservedHoldsSignature(limit: nat, nameLength: nat, entitlements: Option<nat>)
    ensures SignatureLength(nameLength, entitlements, Pages(Align(limit, 16)))
      <= ReservedSize(limit, nameLength, entitlements, false)
  {
    PagesOfAligned(limit);
  }

  /** One slice's plan: the planner's loop body up to the push of the
      CodesignAllocation. The alignment is the fat record's align field,
      0 for a thin file. */
  function PlanSlice(s: seq<byte>, h: Header, align: nat, nameLength: nat, entitlements: Option<nat>, strip: bool): (r: Result<Plan>)
    requires WellFormed(s, h)
    ensures r.Ok? <==> CodeLimit(s, h).Ok?
    ensures r.Ok? ==> r.value.limit == CodeLimit(s, h).value && r.value.align == align
    ensures r.Ok? ==> r.value.alloc == ReservedSize(r.value.limit, nameLength, entitlements, strip)
  {
    match CodeLimit(s, h)
    case Err(e) => Err(e)
    case Ok(limit) => Ok(Plan(limit, ReservedSize(limit, nameLength, entitlements, strip), align))
  }

  // ---------------------------------------------------------------------
  // Layout (ldid.cpp:955-957, 1013-1019)
  // ---------------------------------------------------------------------

  function Pow2(n: nat): (r: nat)
    ensures r >= 1
  {
    if n == 0 then 1 else 2 * Pow2(n - 1)
  }

  lemma {:induction false} Pow2Add(a: nat, b: nat)
    ensures Pow2(a + b) == Pow2(a) * Pow2(b)
    decreases b
  {
    if b > 0 {
      Pow2Add(a, b - 1);
      assert Pow2(a + b) == 2 * Pow2(a + b - 1);
      assert Pow2(a) * Pow2(b) == Pow2(a) * (2 * Pow2(b - 1)) == 2 * (Pow2(a) * Pow2(b - 1));
    }
  }

  lemma Pow2Divides(a: nat, b: nat)
    requires a <= b
    ensures Pow2(b) % Pow2(a) == 0
  {
    Pow2Add(b - a, a);
    var q, m := Pow2(b - a), Pow2(a);
    assert b - a + a == b;
    DivModSplit(q, 0, m);
    assert Pow2(b) == q * m + 0;
  }

  /** Where the fat header and arch table end: the output's first free
      byte. */
  function TableEnd(fat: bool, nfat: nat): nat
  {
    if fat then 8 + 20 * nfat else 0
  }

  /** Where a slice's reserved room begins: the limit, rounded up to 16
      when a signature follows it (the relocator's `align`,
      ldid.cpp:1043-1045). */
  function Padded(p: Plan): nat
  {
    if p.alloc != 0 then Align(p.limit, 16) else p.limit
  }

  /** The bytes a slice occupies in the output, which is also the size its
      fat record gets: the padded limit, then the reserved room. */
  function Footprint(p: Plan): nat
  {
    Padded(p) + p.alloc
  }

  /** The alignment a slice's start gets: at least 16 bytes and at least
      its own 2^align. */
  function SliceAlignment(align: nat): (r: nat)
    ensures r % 16 == 0 && r % Pow2(align) == 0 && r > 0
  {
    if align < 4 then
      Pow2Divides(align, 4);
      assert Pow2(4) == 16;
      16
    else
      Pow2Divides(4, align);
      assert Pow2(4) == 16;
      Pow2(align)
  }

  /** Where a slice starts, given the running offset. */
  function Place(offset: nat, p: Plan): nat
  {
    Align(offset, SliceAlignment(p.align))
  }

  /** The running offset after a slice: past its limit and reserved room,
      rounded up to 16. */
  function Advance(offset: nat, p: Plan): nat
  {
    Align(Place(offset, p) + p.limit + p.alloc, 16)
  }

  /** The running offset after all the plans, which is the output size. */
  function LayoutEnd(start: nat, plans: seq<Plan>): nat
    decreases |plans|
  {
    if plans == [] then start
    else Advance(LayoutEnd(start, plans[..|plans| - 1]), plans[|plans| - 1])
  }

  /** Where each slice starts. */
  function Offsets(start: nat, plans: seq<Plan>): (r: seq<nat>)
    ensures |r| == |plans|
    decreases |plans|
  {
    if plans == [] then []
    else
      var init := plans[..|plans| - 1];
      Offsets(start, init) + [Place(LayoutEnd(start, init), plans[|plans| - 1])]
  }

  /** The layout loop: a running offset, aligned for each slice, advanced
      past it and re-aligned to 16. */
  method Layout(start: nat, plans: seq<Plan>) returns (offsets: seq<nat>, total: nat)
    ensures offsets == Offsets(start, plans) && total == LayoutEnd(start, plans)
  {
    var offset := start;
    offsets := [];
    var i := 0;
    while i < |plans|
      invariant 0 <= i <= |plans|
      invariant offsets == Offsets(start, plans[..i]) && offset == LayoutEnd(start, plans[..i])
    {
      var p := plans[i];
      assert plans[..i + 1][..i] == plans[..i];
      offset := Align(offset, SliceAlignment(p.align));
      offsets := offsets + [offset];
      offset := offset + p.limit + p.alloc;
      offset := Align(offset, 16);
      i := i + 1;
    }
    assert plans[..i] == plans;
    total := offset;
  }

  /** Signing reserves whole 16-byte units. */
  predicate Reserved16(plans: seq<Plan>)
  {
    forall i :: 0 <= i < |plans| ==> plans[i].alloc % 16 == 0
  }

  /** A slice placed at a 16-aligned start ends before the running offset
      that follows it. */
  lemma FootprintFits(offset: nat, p: Plan)
    requires p.alloc % 16 == 0
    ensures Place(offset, p) + Footprint(p) <= Advance(offset, p)
  {
    var at := Place(offset, p);
    var unit := SliceAlignment(p.align);
    assert at % unit == 0 && unit % 16 == 0;
    MultipleOfMultiple(at, unit, 16);
    var next := Advance(offset, p);
    assert next == Align(at + p.limit + p.alloc, 16);
    if p.alloc != 0 {
      var base := at + p.alloc;
      MultipleSum(at, p.alloc, 16);
      AlignShift(base, p.limit, 16);
      assert at + p.limit + p.alloc == base + p.limit;
    }
  }

  /** The layout keeps slices apart and inside the output: every slice
      starts on its alignment and on 16 bytes, after the fat table and
      after the previous slice's footprint, and the last one ends within
      the output size. */
  lemma LayoutSound(start: nat, plans: seq<Plan>)
    requires Reserved16(plans)
    ensures var offsets := Offsets(start, plans);
      && (forall i :: 0 <= i < |plans| ==> offsets[i] % 16 == 0 && offsets[i] % Pow2(plans[i].align) == 0)
      && (forall i :: 0 <= i < |plans| ==> start <= offsets[i])
      && (forall i :: 0 <= i < |plans| - 1 ==> offsets[i] + Footprint(plans[i]) <= offsets[i + 1])
      && (forall i :: 0 <= i < |plans| ==> offsets[i] + Footprint(plans[i]) <= LayoutEnd(start, plans))
  {
    LayoutAligned(start, plans);
    LayoutInside(start, plans);
    LayoutOrdered(start, plans);
  }

  /** Every slice's footprint ends within the output size. */
  lemma {:induction false} LayoutInside(start: nat, plans: seq<Plan>)
    requires Reserved16(plans)
    ensures var offsets := Offsets(start, plans);
      forall i :: 0 <= i < |plans| ==> offsets[i] + Footprint(plans[i]) <= LayoutEnd(start, plans)
    decreases |plans|
  {
    if plans != [] {
      var n := |plans| - 1;
      var init, last := plans[..n], plans[n];
      assert Reserved16(init) by {
        assert forall i :: 0 <= i < n ==> init[i] == plans[i];
      }
      LayoutInside(start, init);
      var before := LayoutEnd(start, init);
      var offsets, prior := Offsets(start, plans), Offsets(start, init);
      assert offsets == prior + [Place(before, last)];
      FootprintFits(before, last);
      AdvanceGrows(before, last);
      forall i | 0 <= i < n
        ensures offsets[i] + Footprint(plans[i]) <= LayoutEnd(start, plans)
      {
        assert offsets[i] == prior[i] && plans[i] == init[i];
      }
    }
  }

  /** Each slice's footprint ends before the next slice starts. */
  lemma {:induction false} LayoutOrdered(start: nat, plans: seq<Plan>)
    requires Reserved16(plans)
    ensures var offsets := Offsets(start, plans);
      forall i :: 0 <= i < |plans| - 1 ==> offsets[i] + Footprint(plans[i]) <= offsets[i + 1]
    decreases |plans|
  {
    if plans != [] {
      var n := |plans| - 1;
      var init, last := plans[..n], plans[n];
      assert Reserved16(init) by {
        assert forall i :: 0 <= i < n ==> init[i] == plans[i];
      }
      LayoutOrdered(start, init);
      LayoutInside(start, init);
      var before := LayoutEnd(start, init);
      var offsets, prior := Offsets(start, plans), Offsets(start, init);
      assert offsets == prior + [Place(before, last)];
      AdvanceGrows(before, last);
      forall i | 0 <= i < n
        ensures offsets[i] + Footprint(plans[i]) <= offsets[i + 1]
      {
        assert offsets[i] == prior[i] && plans[i] == init[i];
        if i + 1 < n {
          assert offsets[i + 1] == prior[i + 1];
        }
      }
    }
  }

  /** Every slice starts on its alignment and on 16 bytes, after the fat
      table. */
  lemma {:induction false} LayoutAligned(start: nat, plans: seq<Plan>)
    ensures var offsets := Offsets(start, plans);
      forall i :: 0 <= i < |plans| ==>
        offsets[i] % 16 == 0 && offsets[i] % Pow2(plans[i].align) == 0 && start <= offsets[i]
    decreases |plans|
  {
    if plans != [] {
      var n := |plans| - 1;
      var init, last := plans[..n], plans[n];
      LayoutAligned(start, init);
      var before := LayoutEnd(start, init);
      var offsets, prior := Offsets(start, plans), Offsets(start, init);
      assert offsets == prior + [Place(before, last)];
      var at := Place(before, last);
      MultipleOfMultiple(at, SliceAlignment(last.align), 16);
      MultipleOfMultiple(at, SliceAlignment(last.align), Pow2(last.align));
      LayoutEndGrows(start, init);
      AdvanceGrows(before, last);
      forall i | 0 <= i < n
        ensures offsets[i] % 16 == 0 && offsets[i] % Pow2(plans[i].align) == 0 && start <= offsets[i]
      {
        assert offsets[i] == prior[i] && plans[i] == init[i];
      }
    }
  }

  lemma AdvanceGrows(offset: nat, p: Plan)
    ensures offset <= Place(offset, p) <= Advance(offset, p)
  {}

  lemma {:induction false} LayoutEndGrows(start: nat, plans: seq<Plan>)
    ensures start <= LayoutEnd(start, plans)
    decreases |plans|
  {
    if plans != [] {
      LayoutEndGrows(start, plans[..|plans| - 1]);
      AdvanceGrows(LayoutEnd(start, plans[..|plans| - 1]), plans[|plans| - 1]);
    }
  }

  // ---------------------------------------------------------------------
  // The slice start as the source computes it
  // ---------------------------------------------------------------------

  /** ldid.cpp:1014 aligns the running offset to 2^align only. */
  function PlaceAsWritten(offset: nat, p: Plan): nat
  {
    Align(offset, Pow2(p.align))
  }

  function AdvanceAsWritten(offset: nat, p: Plan): nat
  {
    Align(PlaceAsWritten(offset, p) + p.limit + p.alloc, 16)
  }

  /** With one fat record the table ends at byte 28, and a first slice
      with align 0 starts there, which is not a multiple of 16. Signing a
      slice whose limit is 1 to 4 bytes past a multiple of 16 reserves a
      multiple of 16, so the slice's fat size Align(limit, 16) + alloc
      runs 12 bytes past the output size Align(28 + limit + alloc, 16).
      The corrected start (16-aligned) keeps the slice inside. */
  lemma FirstSliceOverrun(q: nat, m: nat, nameLength: nat, entitlements: Option<nat>)
    requires 1 <= m <= 4
    ensures var p := Plan(16 * q + m, ReservedSize(16 * q + m, nameLength, entitlements, false), 0);
      var start := TableEnd(true, 1);
      && PlaceAsWritten(start, p) == 28
      && PlaceAsWritten(start, p) + Footprint(p) == AdvanceAsWritten(start, p) + 12
      && Place(start, p) == 32
      && Place(start, p) + Footprint(p) <= Advance(start, p)
  {
    assert (16 * q) % 16 == 0;
    FirstSliceOverrunOf(16 * q, m, ReservedSize(16 * q + m, nameLength, entitlements, false));
  }

  lemma FirstSliceOverrunOf(base: nat, m: nat, r: nat)
    requires base % 16 == 0 && 1 <= m <= 4 && r % 16 == 0 && r > 0
    ensures var p := Plan(base + m, r, 0);
      && PlaceAsWritten(28, p) == 28
      && PlaceAsWritten(28, p) + Footprint(p) == AdvanceAsWritten(28, p) + 12
      && Place(28, p) == 32
      && Place(28, p) + Footprint(p) <= Advance(28, p)
  {
    var p := Plan(base + m, r, 0);
    assert Pow2(0) == 1;
    AlignOfMultiple(28, 1);
    AlignShift(base, m, 16);
    assert Align(m, 16) == 16;
    var padded := base + 16;
    assert Padded(p) == padded;
    MultipleSum(padded, r, 16);
    AlignShift(padded + r, 12 + m, 16);
    assert Align(12 + m, 16) == 16;
    assert 28 + (base + m) + r == padded + r + (12 + m);
    assert Align(28, 16) == 32;
    FootprintFits(28, p);
  }
}
