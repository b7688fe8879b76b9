/** The embedded code-signature format ldid writes (ldid.cpp:675-713): the
    blob magics, slot numbers and record sizes, and how many bytes a
    signature takes. */
module CodeSign {
  import opened Bytes
  import opened Wrappers

  const CSMAGIC_CODEDIRECTORY: u32 := 0xfade0c02
  const CSMAGIC_EMBEDDED_SIGNATURE: u32 := 0xfade0cc0
  const CSMAGIC_ENTITLEMENTS: u32 := 0xfade7171

  const CSSLOT_CODEDIRECTORY: u32 := 0
  const CSSLOT_REQUIREMENTS: u32 := 2
  const CSSLOT_ENTITLEMENTS: u32 := 5

  /** sizeof(struct SuperBlob), BlobIndex, CodeDirectory and Blob. */
  const SUPER_BLOB_SIZE: nat := 12
  const BLOB_INDEX_SIZE: nat := 8
  const CODE_DIRECTORY_SIZE: nat := 44
  const BLOB_SIZE: nat := 8

  /** A SHA-1 digest and the page it covers. */
  const HASH_SIZE: nat := 20
  const PAGE_SIZE: nat := 0x1000

  /** The CodeDirectory version ldid writes. */
  const CD_VERSION: u32 := 0x00020001

  /** The fixed, empty Requirements blob: magic 0xfade0c01, length 12,
      count 0. */
  const REQUIREMENTS: seq<byte> := [0xfa, 0xde, 0x0c, 0x01, 0x00, 0x00, 0x00, 0x0c, 0x00, 0x00, 0x00, 0x00]
  const REQUIREMENTS_SIZE: nat := 12

  type Digest = d: seq<byte> | |d| == HASH_SIZE witness Zeros(HASH_SIZE)

  /** The highest special slot: the Requirements slot, or the Entitlements
      slot when entitlements are embedded. */
  function SpecialSlots(hasEntitlements: bool): u32
  {
    if hasEntitlements then CSSLOT_ENTITLEMENTS else CSSLOT_REQUIREMENTS
  }

  /** How many blobs the SuperBlob indexes. */
  function BlobCount(hasEntitlements: bool): nat
  {
    if hasEntitlements then 3 else 2
  }

  /** ceil(limit / 4096), as the planner computes it in size_t. */
  function Pages(limit: nat): nat
  {
    (limit + PAGE_SIZE - 1) / PAGE_SIZE
  }

  /** Rounding a length up to 16 bytes never changes its page count,
      because a page is a whole number of 16-byte units. */
  lemma PagesOfAligned(limit: nat)
    ensures Pages(Align(limit, 16)) == Pages(limit)
  {
    var a := Align(limit, 16);
    var p := Pages(limit);
    var m := p * PAGE_SIZE;
    DivModJoin(limit + PAGE_SIZE - 1, PAGE_SIZE);
    assert limit <= m < limit + PAGE_SIZE;
    assert m % 16 == 0 by {
      DivModSplit(p, 0, PAGE_SIZE);
      MultipleOfMultiple(m, PAGE_SIZE, 16);
    }
    AlignLeast(limit, 16, m);
    assert a <= m;
    if limit == 0 {
      AlignOfMultiple(0, 16);
    } else {
      var lo := a + PAGE_SIZE - 1 - m;
      assert 0 <= lo < PAGE_SIZE;
      DivModSplit(p, lo, PAGE_SIZE);
      assert a + PAGE_SIZE - 1 == p * PAGE_SIZE + lo;
    }
  }

  /** The bytes the generator writes for a signature: SuperBlob header and
      index, CodeDirectory and identifier, the hash slots, Requirements and
      the optional Entitlements blob. */
  function SignatureLength(nameLength: nat, entitlements: Option<nat>, pages: nat): nat
  {
    var count := BlobCount(entitlements.Some?);
    var special := SpecialSlots(entitlements.Some?);
    SUPER_BLOB_SIZE + BLOB_INDEX_SIZE * count
      + CODE_DIRECTORY_SIZE + nameLength + 1
      + HASH_SIZE * (special + pages)
      + REQUIREMENTS_SIZE
      + (if entitlements.Some? then BLOB_SIZE + entitlements.value else 0)
  }
}
