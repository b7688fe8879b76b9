/** The two parts of the third pass that read an embedded signature back
    through its SuperBlob index (ldid.cpp:1157-1197): -e writes out the
    entitlements and -s recomputes the code hashes in place. Both find the
    signature at the dataoff of the LC_CODE_SIGNATURE the load-command
    scan found, in the slice's byte order, and read the SuperBlob's own
    fields big-endian, as the global Swap does. */
module SuperBlob {
  import opened Bytes
  import opened Wrappers
  import opened CodeSign
  import opened MachO
  import Generator
  import Buffer

  // ---------------------------------------------------------------------
  // The SuperBlob index
  // ---------------------------------------------------------------------

  /** super->count. */
  function Count(s: seq<byte>, data: nat): u32
    requires data + SUPER_BLOB_SIZE <= |s|
  {
    Get32(s, data + 8, true)
  }

  /** Where the index ends: the 12-byte header and `count` 8-byte
      {type, offset} entries. */
  function TableEnd(s: seq<byte>, data: nat): nat
    requires data + SUPER_BLOB_SIZE <= |s|
  {
    data + SUPER_BLOB_SIZE + BLOB_INDEX_SIZE * Count(s, data)
  }

  predicate TableFits(s: seq<byte>, data: nat)
  {
    data + SUPER_BLOB_SIZE <= |s| && TableEnd(s, data) <= |s|
  }

  /** super->index[index].type and .offset. */
  function IndexType(s: seq<byte>, data: nat, index: nat): u32
    requires TableFits(s, data) && index < Count(s, data)
  {
    Get32(s, data + SUPER_BLOB_SIZE + BLOB_INDEX_SIZE * index, true)
  }

  function IndexOffset(s: seq<byte>, data: nat, index: nat): u32
    requires TableFits(s, data) && index < Count(s, data)
  {
    Get32(s, data + SUPER_BLOB_SIZE + BLOB_INDEX_SIZE * index + 4, true)
  }

  /** Two slices that agree on the index read the same index. */
  lemma TableFrame(s: seq<byte>, t: seq<byte>, data: nat)
    requires TableFits(s, data) && |t| == |s| && t[..TableEnd(s, data)] == s[..TableEnd(s, data)]
    ensures Count(t, data) == Count(s, data) && TableFits(t, data) && TableEnd(t, data) == TableEnd(s, data)
    ensures forall index :: 0 <= index < Count(s, data) ==>
      IndexType(t, data, index) == IndexType(s, data, index) && IndexOffset(t, data, index) == IndexOffset(s, data, index)
  {
    var e := TableEnd(s, data);
    assert forall k :: 0 <= k < e ==> t[k] == t[..e][k] == s[..e][k] == s[k];
    Get32Frame(t, s, data + 8, data + 8, true);
    forall index | 0 <= index < Count(s, data)
      ensures IndexType(t, data, index) == IndexType(s, data, index) && IndexOffset(t, data, index) == IndexOffset(s, data, index)
    {
      var o := data + SUPER_BLOB_SIZE + BLOB_INDEX_SIZE * index;
      Get32Frame(t, s, o, o, true);
      Get32Frame(t, s, o + 4, o + 4, true);
    }
  }

  // ---------------------------------------------------------------------
  // -e: the entitlements (ldid.cpp:1157-1172)
  // ---------------------------------------------------------------------

  /** The blob entry `index` names lies in the slice and its length field
      covers at least the blob's 8-byte header: `length - sizeof(Blob)`
      is a size_t, so a shorter length would ask fwrite for nearly 2^64
      bytes. */
  predicate PayloadFits(s: seq<byte>, data: nat, index: nat)
    requires TableFits(s, data) && index < Count(s, data)
  {
    var at := data + IndexOffset(s, data, index);
    at + BLOB_SIZE <= |s| && BLOB_SIZE <= Get32(s, at + 4, true) && at + Get32(s, at + 4, true) <= |s|
  }

  /** Every entitlements blob the index names can be written out. */
  predicate Extractable(s: seq<byte>, data: nat)
  {
    && TableFits(s, data)
    && forall index :: 0 <= index < Count(s, data) && IndexType(s, data, index) == CSSLOT_ENTITLEMENTS ==>
      PayloadFits(s, data, index)
  }

  /** The bytes after the blob's header, up to its length. */
  function Payload(s: seq<byte>, data: nat, index: nat): (r: seq<byte>)
    requires TableFits(s, data) && index < Count(s, data) && PayloadFits(s, data, index)
    ensures BLOB_SIZE + |r| == Get32(s, data + IndexOffset(s, data, index) + 4, true)
  {
    var at := data + IndexOffset(s, data, index);
    s[at + BLOB_SIZE .. at + Get32(s, at + 4, true)]
  }

  /** What -e writes for the first k index entries: the payload of every
      entitlements blob among them, in index order. */
  function Extracted(s: seq<byte>, data: nat, k: nat): seq<byte>
    requires Extractable(s, data) && k <= Count(s, data)
  {
    if k == 0 then []
    else Extracted(s, data, k - 1) + (if IndexType(s, data, k - 1) == CSSLOT_ENTITLEMENTS then Payload(s, data, k - 1) else [])
  }

  /** One more index entry: its payload when it is an entitlements blob. */
  lemma ExtractedNext(s: seq<byte>, data: nat, k: nat)
    requires Extractable(s, data) && k < Count(s, data)
    ensures IndexType(s, data, k) == CSSLOT_ENTITLEMENTS ==> PayloadFits(s, data, k) && Extracted(s, data, k + 1) == Extracted(s, data, k) + Payload(s, data, k)
    ensures IndexType(s, data, k) != CSSLOT_ENTITLEMENTS ==> Extracted(s, data, k + 1) == Extracted(s, data, k)
  {
    if IndexType(s, data, k) != CSSLOT_ENTITLEMENTS {
      assert Extracted(s, data, k) + [] == Extracted(s, data, k);
    }
  }

  /** An entitlements entry's blob header lies in the slice... */
  lemma EntryFits(s: seq<byte>, data: nat, index: nat, begin: nat)
    requires Extractable(s, data) && index < Count(s, data) && IndexType(s, data, index) == CSSLOT_ENTITLEMENTS
    requires begin == data + IndexOffset(s, data, index)
    ensures begin + BLOB_SIZE <= |s| && PayloadFits(s, data, index)
  {}

  /** ...and its payload is the run the loop writes out. */
  lemma EntryPayload(s: seq<byte>, data: nat, index: nat, begin: nat, length: nat)
    requires Extractable(s, data) && index < Count(s, data) && IndexType(s, data, index) == CSSLOT_ENTITLEMENTS
    requires begin == data + IndexOffset(s, data, index) && begin + BLOB_SIZE <= |s| && length == Get32(s, begin + 4, true)
    ensures BLOB_SIZE <= length && begin + length <= |s| && Payload(s, data, index) == s[begin + BLOB_SIZE .. begin + length]
  {
    EntryFits(s, data, index, begin);
  }

  /** One pass of the -e loop: an entitlements entry's payload is
      appended to what was written; any other entry is skipped. */
  method ExtractEntry(s: seq<byte>, data: nat, index: nat, out: seq<byte>) returns (out': seq<byte>)
    requires Extractable(s, data) && index < Count(s, data) && out == Extracted(s, data, index)
    ensures out' == Extracted(s, data, index + 1)
  {
    out' := out;
    if Get32(s, data + SUPER_BLOB_SIZE + BLOB_INDEX_SIZE * index, true) == CSSLOT_ENTITLEMENTS {
      var begin := data + Get32(s, data + SUPER_BLOB_SIZE + BLOB_INDEX_SIZE * index + 4, true);
      EntryFits(s, data, index, begin);
      var length := Get32(s, begin + 4, true);
      EntryPayload(s, data, index, begin, length);
      out' := out + s[begin + BLOB_SIZE .. begin + length];
    }
    ExtractedNext(s, data, index);
  }

  /** -e: the entitlements of the signature the scan found, as the bytes
      written to standard output; a slice without an LC_CODE_SIGNATURE
      fails. The pass only reads the slice, so it works on a copy of its
      bytes. */
  method ExtractEntitlements(a: array<byte>, swapped: bool, signature: Option<nat>) returns (r: Result<seq<byte>>)
    requires signature.Some? ==> signature.value + LINKEDIT_DATA_SIZE <= a.Length
    requires signature.Some? ==> Extractable(a[..], DataOff(a[..], signature.value, swapped))
    ensures r.Err? <==> signature.None?
    ensures r.Err? ==> r.error == MissingSignature
    ensures r.Ok? ==> var data := DataOff(a[..], signature.value, swapped);
      r.value == Extracted(a[..], data, Count(a[..], data))
  {
    if signature.None? {
      return Err(MissingSignature);
    }
    var s := a[..];
    var data: nat := Get32(s, signature.value + 8, swapped);
    var out := [];
    var index := 0;
    while index != Get32(s, data + 8, true)
      invariant index <= Count(s, data) && out == Extracted(s, data, index)
      decreases Count(s, data) - index
    {
      out := ExtractEntry(s, data, index, out);
      index := index + 1;
    }
    r := Ok(out);
  }

  // ---------------------------------------------------------------------
  // A slice the generator signed
  // ---------------------------------------------------------------------

  /** `t` holds at `data` the signature the generator computes for the
      code of `top`, and the same code below it. */
  ghost predicate Signed(t: seq<byte>, top: seq<byte>, data: u32, name: seq<byte>, entitlements: Option<seq<byte>>, sha1: Generator.Sha1)
  {
    && Generator.Signable(data, name, entitlements) && data <= |top|
    && var sig := Generator.Signature(top, data, name, entitlements, sha1);
    && data + |sig| <= |t| && t[..data] == top[..data] && t[data .. data + |sig|] == sig
  }

  /** What -S leaves in the slice is signed. */
  lemma SignLeavesSigned(top: seq<byte>, data: u32, name: seq<byte>, entitlements: Option<seq<byte>>, sha1: Generator.Sha1, rest: nat)
    requires Generator.Signable(data, name, entitlements) && data <= |top|
    requires data + |Generator.Signature(top, data, name, entitlements, sha1)| + rest <= |top|
    ensures var sig := Generator.Signature(top, data, name, entitlements, sha1);
      Signed(Splice(top, data, sig + Zeros(rest)), top, data, name, entitlements, sha1)
  {
    var sig := Generator.Signature(top, data, name, entitlements, sha1);
    var t := Splice(top, data, sig + Zeros(rest));
    SpliceBefore(top, data, sig + Zeros(rest));
    SplicePiece(top, data, sig + Zeros(rest));
    assert t[data .. data + |sig|] == t[data .. data + |sig| + rest][.. |sig|];
  }

  /** The header and index of a blob laid out as the generator lays it
      out, read in place at `data`. */
  lemma IndexedTable(t: seq<byte>, data: nat, u: seq<byte>, p: Generator.Placement, entitlements: Option<seq<byte>>)
    requires Generator.Indexed(u, p, entitlements) && data + |u| <= |t| && t[data .. data + |u|] == u
    ensures TableFits(t, data) && Count(t, data) == p.count && TableEnd(t, data) == data + p.directory
  {
    var vs := Generator.SuperBlobWords(p, entitlements.Some?);
    Generator.WordsRead(u, vs, 2);
    Get32Within(t, data, u, 8, true);
  }

  lemma IndexedEntry(t: seq<byte>, data: nat, u: seq<byte>, p: Generator.Placement, entitlements: Option<seq<byte>>, index: nat)
    requires Generator.Indexed(u, p, entitlements) && data + |u| <= |t| && t[data .. data + |u|] == u
    requires TableFits(t, data) && Count(t, data) == p.count && index < p.count
    ensures IndexType(t, data, index) == Generator.EntryType(index)
    ensures IndexOffset(t, data, index) == Generator.EntryOffset(p, index)
  {
    Generator.IndexReads(u, p, entitlements, index);
    Get32Within(t, data, u, SUPER_BLOB_SIZE + BLOB_INDEX_SIZE * index, true);
    Get32Within(t, data, u, SUPER_BLOB_SIZE + BLOB_INDEX_SIZE * index + 4, true);
  }

  /** A blob inside the window whose length field covers it, named by
      index entry `index`: its payload is what follows its header. */
  lemma WindowPayload(t: seq<byte>, data: nat, u: seq<byte>, index: nat, off: nat, blob: seq<byte>)
    requires data + |u| <= |t| && t[data .. data + |u|] == u
    requires TableFits(t, data) && index < Count(t, data) && IndexOffset(t, data, index) == off
    requires BLOB_SIZE <= |blob| && off + |blob| <= |u| && u[off .. off + |blob|] == blob && Get32(blob, 4, true) == |blob|
    ensures PayloadFits(t, data, index) && Payload(t, data, index) == blob[BLOB_SIZE ..]
  {
    WindowRun(t, data, u, off, |blob|, blob);
    BlobPayload(t, data + off, blob);
  }

  /** A blob in place whose length field covers it. */
  lemma BlobPayload(t: seq<byte>, at: nat, blob: seq<byte>)
    requires BLOB_SIZE <= |blob| && at + |blob| <= |t| && t[at .. at + |blob|] == blob && Get32(blob, 4, true) == |blob|
    ensures Get32(t, at + 4, true) == |blob| && t[at + BLOB_SIZE .. at + |blob|] == blob[BLOB_SIZE ..]
  {
    Get32Within(t, at, blob, 4, true);
    SliceWithin(t, at, blob, BLOB_SIZE, |blob|);
  }

  /** Extraction from such a blob gives back its entitlements. */
  lemma IndexedExtract(t: seq<byte>, data: nat, u: seq<byte>, p: Generator.Placement, entitlements: Option<seq<byte>>)
    requires Generator.Indexed(u, p, entitlements) && data + |u| <= |t| && t[data .. data + |u|] == u
    ensures Extractable(t, data)
    ensures Extracted(t, data, Count(t, data)) == if entitlements.Some? then entitlements.value else []
  {
    IndexedTable(t, data, u, p, entitlements);
    IndexedEntry(t, data, u, p, entitlements, 0);
    IndexedEntry(t, data, u, p, entitlements, 1);
    if entitlements.Some? {
      IndexedEntitlements(t, data, u, p, entitlements);
    }
    ExtractedOf(t, data, entitlements);
  }

  /** The Entitlements entry of such a blob, read in place. */
  lemma IndexedEntitlements(t: seq<byte>, data: nat, u: seq<byte>, p: Generator.Placement, entitlements: Option<seq<byte>>)
    requires Generator.Indexed(u, p, entitlements) && data + |u| <= |t| && t[data .. data + |u|] == u
    requires TableFits(t, data) && Count(t, data) == p.count && entitlements.Some?
    ensures IndexType(t, data, 2) == CSSLOT_ENTITLEMENTS
    ensures PayloadFits(t, data, 2) && Payload(t, data, 2) == entitlements.value
  {
    IndexedEntry(t, data, u, p, entitlements, 2);
    var blob := Generator.EntitlementsBlob(entitlements);
    Generator.BlobReads(u, p, entitlements, 2);
    Get32Within(u, p.entitlements, blob, 4, true);
    WindowPayload(t, data, u, 2, p.entitlements, blob);
    assert blob[BLOB_SIZE ..] == entitlements.value;
  }

  /** Extraction from an index of the generator's shape: the
      CodeDirectory, the Requirements and, when there are entitlements,
      an Entitlements blob holding them. */
  lemma ExtractedOf(t: seq<byte>, data: nat, entitlements: Option<seq<byte>>)
    requires TableFits(t, data) && Count(t, data) == BlobCount(entitlements.Some?)
    requires IndexType(t, data, 0) == CSSLOT_CODEDIRECTORY && IndexType(t, data, 1) == CSSLOT_REQUIREMENTS
    requires entitlements.Some? ==> IndexType(t, data, 2) == CSSLOT_ENTITLEMENTS
    requires entitlements.Some? ==> PayloadFits(t, data, 2) && Payload(t, data, 2) == entitlements.value
    ensures Extractable(t, data)
    ensures Extracted(t, data, Count(t, data)) == if entitlements.Some? then entitlements.value else []
  {
    assert Extractable(t, data);
    ExtractedNext(t, data, 0);
    ExtractedNext(t, data, 1);
    if entitlements.Some? {
      ExtractedNext(t, data, 2);
      assert Extracted(t, data, 3) == [] + entitlements.value;
    }
  }

  /** -e on a slice the generator signed writes out the entitlements it
      was signed with, and nothing when it was signed without. */
  lemma ExtractSigned(t: seq<byte>, top: seq<byte>, data: u32, name: seq<byte>, entitlements: Option<seq<byte>>, sha1: Generator.Sha1)
    requires Signed(t, top, data, name, entitlements, sha1)
    ensures Extractable(t, data)
    ensures Extracted(t, data, Count(t, data)) == if entitlements.Some? then entitlements.value else []
  {
    Generator.SignatureIndexed(top, data, name, entitlements, sha1);
    IndexedExtract(t, data, Generator.Signature(top, data, name, entitlements, sha1), Generator.Layout(data, name, entitlements), entitlements);
  }

  // ---------------------------------------------------------------------
  // -s: recomputing the code hashes (ldid.cpp:1174-1197)
  // ---------------------------------------------------------------------

  /** The CodeDirectory header up to nCodeSlots, the last field -s reads. */
  const DIRECTORY_READ: nat := 32

  /** The CodeDirectory entry `index` names. */
  function Directory(s: seq<byte>, data: nat, index: nat): nat
    requires TableFits(s, data) && index < Count(s, data)
  {
    data + IndexOffset(s, data, index)
  }

  /** directory->hashOffset and directory->nCodeSlots. */
  function HashOffset(s: seq<byte>, d: nat): u32
    requires d + DIRECTORY_READ <= |s|
  {
    Get32(s, d + 16, true)
  }

  function CodeSlotCount(s: seq<byte>, d: nat): u32
    requires d + DIRECTORY_READ <= |s|
  {
    Get32(s, d + 28, true)
  }

  /** The CodeDirectory entry `index` names lies in the slice, its code
      hashes lie after the index and inside the slice, and the pages they
      cover lie below them. */
  predicate DirectoryFits(s: seq<byte>, data: u32, index: nat)
    requires TableFits(s, data) && index < Count(s, data)
  {
    var d := Directory(s, data, index);
    && d + DIRECTORY_READ <= |s|
    && var at, pages := d + HashOffset(s, d), CodeSlotCount(s, d);
    && TableEnd(s, data) <= at && Generator.PagesBelow(at, data, pages) && at + HASH_SIZE * pages <= |s|
  }

  /** Pass `index` of the -s loop stays inside the slice. */
  predicate StepFits(s: seq<byte>, data: u32, index: nat)
  {
    && TableFits(s, data) && index < Count(s, data)
    && (IndexType(s, data, index) == CSSLOT_CODEDIRECTORY ==> DirectoryFits(s, data, index))
  }

  /** Pass `index`: a CodeDirectory entry gets the hashes of the pages
      below `data`, the last one ending at `data`; any other entry is
      skipped. */
  function RehashStep(s: seq<byte>, data: u32, sha1: Generator.Sha1, index: nat): (r: seq<byte>)
    requires StepFits(s, data, index)
    ensures |r| == |s|
  {
    if IndexType(s, data, index) != CSSLOT_CODEDIRECTORY then s
    else
      var d := Directory(s, data, index);
      var pages := CodeSlotCount(s, d);
      Splice(s, d + HashOffset(s, d), Generator.PageHashes(s, data, pages, sha1, pages))
  }

  /** The first k passes stay inside the slice, each on what the passes
      before it left. */
  predicate Rehashable(s: seq<byte>, data: u32, sha1: Generator.Sha1, k: nat)
    decreases k, 0
  {
    k == 0 || (Rehashable(s, data, sha1, k - 1) && StepFits(Rehashed(s, data, sha1, k - 1), data, k - 1))
  }

  /** The slice after the first k passes. */
  function Rehashed(s: seq<byte>, data: u32, sha1: Generator.Sha1, k: nat): (r: seq<byte>)
    requires Rehashable(s, data, sha1, k)
    decreases k, 1
  {
    if k == 0 then s else RehashStep(Rehashed(s, data, sha1, k - 1), data, sha1, k - 1)
  }

  lemma {:induction false} RehashablePrefix(s: seq<byte>, data: u32, sha1: Generator.Sha1, k: nat, j: nat)
    requires Rehashable(s, data, sha1, k) && j <= k
    ensures Rehashable(s, data, sha1, j)
    decreases k
  {
    if j < k {
      RehashablePrefix(s, data, sha1, k - 1, j);
    }
  }

  /** No pass writes into the index, so every pass reads the index the
      slice started with. */
  lemma {:induction false} RehashedKeepsTable(s: seq<byte>, data: u32, sha1: Generator.Sha1, k: nat)
    requires TableFits(s, data) && Rehashable(s, data, sha1, k)
    ensures var r := Rehashed(s, data, sha1, k);
      |r| == |s| && r[..TableEnd(s, data)] == s[..TableEnd(s, data)]
  {
    if k > 0 {
      RehashedKeepsTable(s, data, sha1, k - 1);
      var acc := Rehashed(s, data, sha1, k - 1);
      TableFrame(s, acc, data);
      if IndexType(acc, data, k - 1) == CSSLOT_CODEDIRECTORY {
        var d := Directory(acc, data, k - 1);
        var pages := CodeSlotCount(acc, d);
        var e := TableEnd(s, data);
        SpliceApart(acc, d + HashOffset(acc, d), Generator.PageHashes(acc, data, pages, sha1, pages), 0, e);
        assert Rehashed(s, data, sha1, k)[..e] == Rehashed(s, data, sha1, k)[0..e];
      }
    }
  }

  /** The state of the -s loop before pass `index`. */
  ghost predicate Rehashing(s: seq<byte>, data: u32, sha1: Generator.Sha1, t: seq<byte>, index: nat)
  {
    && TableFits(s, data) && index <= Count(s, data) && Rehashable(s, data, sha1, Count(s, data))
    && Rehashable(s, data, sha1, index) && t == Rehashed(s, data, sha1, index)
    && TableFits(t, data) && Count(t, data) == Count(s, data)
  }

  /** The loop state says where the next pass reads and what it leaves. */
  lemma RehashingStep(s: seq<byte>, data: u32, sha1: Generator.Sha1, t: seq<byte>, index: nat)
    requires Rehashing(s, data, sha1, t, index) && index < Count(s, data)
    ensures StepFits(t, data, index)
    ensures Rehashing(s, data, sha1, RehashStep(t, data, sha1, index), index + 1)
  {
    RehashablePrefix(s, data, sha1, Count(s, data), index + 1);
    RehashedKeepsTable(s, data, sha1, index + 1);
    TableFrame(s, Rehashed(s, data, sha1, index + 1), data);
  }

  /** Where pass `index` finds its CodeDirectory, ... */
  lemma EntryDirectory(s: seq<byte>, data: u32, index: nat, d: nat)
    requires StepFits(s, data, index) && IndexType(s, data, index) == CSSLOT_CODEDIRECTORY
    requires d == data + Get32(s, data + SUPER_BLOB_SIZE + BLOB_INDEX_SIZE * index + 4, true)
    ensures d == Directory(s, data, index) && d + DIRECTORY_READ <= |s|
  {
  }

  /** ... that its hashes lie in the slice, ... */
  lemma EntryHashesFit(s: seq<byte>, data: u32, index: nat, d: nat, at: nat, pages: u32)
    requires StepFits(s, data, index) && IndexType(s, data, index) == CSSLOT_CODEDIRECTORY
    requires d == Directory(s, data, index) && d + DIRECTORY_READ <= |s|
    requires at == d + HashOffset(s, d) && pages == CodeSlotCount(s, d)
    ensures Generator.PagesBelow(at, data, pages) && at + HASH_SIZE * pages <= |s|
    ensures Generator.PagesBelow(|s|, data, pages)
  {
  }

  /** ... and that the pass writes the hashes of the pages there. */
  lemma RehashStepAt(s: seq<byte>, data: u32, sha1: Generator.Sha1, index: nat, d: nat)
    requires StepFits(s, data, index) && IndexType(s, data, index) == CSSLOT_CODEDIRECTORY
    requires d == Directory(s, data, index) && d + DIRECTORY_READ <= |s|
    ensures Generator.PagesBelow(|s|, data, CodeSlotCount(s, d))
    ensures RehashStep(s, data, sha1, index) == Splice(s, d + HashOffset(s, d), Generator.PageHashes(s, data, CodeSlotCount(s, d), sha1, CodeSlotCount(s, d)))
  {
  }

  lemma SpliceHashesAt(s: seq<byte>, data: u32, sha1: Generator.Sha1, at: nat, pages: u32, at': nat, pages': u32)
    requires Generator.PagesBelow(|s|, data, pages) && at + HASH_SIZE * pages <= |s|
    requires at == at' && pages == pages'
    ensures Splice(s, at, Generator.PageHashes(s, data, pages, sha1, pages)) == Splice(s, at', Generator.PageHashes(s, data, pages', sha1, pages'))
  {
  }

  /** What the pass leaves, named by the values it reads. */
  lemma EntryPass(s: seq<byte>, data: u32, sha1: Generator.Sha1, index: nat, d: nat, at: nat, pages: u32, t: seq<byte>)
    requires StepFits(s, data, index) && IndexType(s, data, index) == CSSLOT_CODEDIRECTORY
    requires d == Directory(s, data, index) && d + DIRECTORY_READ <= |s|
    requires at == d + HashOffset(s, d) && pages == CodeSlotCount(s, d)
    requires Generator.PagesBelow(|s|, data, pages) && at + HASH_SIZE * pages <= |s|
    requires t == Splice(s, at, Generator.PageHashes(s, data, pages, sha1, pages))
    ensures t == RehashStep(s, data, sha1, index)
  {
    RehashStepAt(s, data, sha1, index, d);
    SpliceHashesAt(s, data, sha1, at, pages, d + HashOffset(s, d), CodeSlotCount(s, d));
  }

  /** One pass of the -s loop: the hashes of a CodeDirectory entry are
      recomputed in place. */
  method RehashEntry(a: array<byte>, data: u32, sha1: Generator.Sha1, index: nat)
    requires StepFits(a[..], data, index)
    modifies a
    ensures a[..] == RehashStep(old(a[..]), data, sha1, index)
  {
    ghost var s := a[..];
    if Buffer.Load32(a, data + SUPER_BLOB_SIZE + BLOB_INDEX_SIZE * index, true) == CSSLOT_CODEDIRECTORY {
      var d: nat := data + Buffer.Load32(a, data + SUPER_BLOB_SIZE + BLOB_INDEX_SIZE * index + 4, true);
      EntryDirectory(s, data, index, d);
      var at := d + Buffer.Load32(a, d + 16, true);
      var pages := Buffer.Load32(a, d + 28, true);
      EntryHashesFit(s, data, index, d, at, pages);
      Generator.HashPages(a, at, data, pages, sha1);
      EntryPass(s, data, sha1, index, d, at, pages, a[..]);
    }
  }

  /** The -s loop over the index: every CodeDirectory entry, in index
      order. */
  method RehashDirectories(a: array<byte>, data: u32, sha1: Generator.Sha1)
    requires TableFits(a[..], data) && Rehashable(a[..], data, sha1, Count(a[..], data))
    modifies a
    ensures a[..] == Rehashed(old(a[..]), data, sha1, Count(old(a[..]), data))
  {
    ghost var s := a[..];
    var index := 0;
    while index != Buffer.Load32(a, data + 8, true)
      invariant Rehashing(s, data, sha1, a[..], index)
      decreases Count(s, data) - index
    {
      RehashingStep(s, data, sha1, a[..], index);
      RehashEntry(a, data, sha1, index);
      index := index + 1;
    }
  }

  /** -s: the code hashes of the signature the scan found, recomputed from
      the code below its dataoff; a slice without an LC_CODE_SIGNATURE
      fails and is left as it was. */
  method Rehash(a: array<byte>, swapped: bool, signature: Option<nat>, sha1: Generator.Sha1) returns (r: Result<()>)
    requires signature.Some? ==> signature.value + LINKEDIT_DATA_SIZE <= a.Length
    requires signature.Some? ==> var data := DataOff(a[..], signature.value, swapped);
      TableFits(a[..], data) && Rehashable(a[..], data, sha1, Count(a[..], data))
    modifies a
    ensures r.Err? <==> signature.None?
    ensures r.Err? ==> r.error == MissingSignature && a[..] == old(a[..])
    ensures r.Ok? ==> var data := DataOff(old(a[..]), signature.value, swapped);
      a[..] == Rehashed(old(a[..]), data, sha1, Count(old(a[..]), data))
  {
    if signature.None? {
      return Err(MissingSignature);
    }
    var data := Buffer.Load32(a, signature.value + 8, swapped);
    RehashDirectories(a, data, sha1);
    r := Ok(());
  }

  /** A pass over an index of the generator's shape: only the first entry
      is a CodeDirectory, and when the hashes it names already hold the
      hashes of the pages, no pass changes anything. */
  lemma RehashedOf(t: seq<byte>, data: u32, sha1: Generator.Sha1, entitled: bool, d: nat, at: nat, pages: u32)
    requires TableFits(t, data) && Count(t, data) == BlobCount(entitled)
    requires IndexType(t, data, 0) == CSSLOT_CODEDIRECTORY && IndexType(t, data, 1) == CSSLOT_REQUIREMENTS
    requires entitled ==> IndexType(t, data, 2) == CSSLOT_ENTITLEMENTS
    requires StepFits(t, data, 0) && d == Directory(t, data, 0) && d + DIRECTORY_READ <= |t|
    requires at == d + HashOffset(t, d) && pages == CodeSlotCount(t, d)
    requires Generator.PagesBelow(|t|, data, pages) && at + HASH_SIZE * pages <= |t|
    requires t[at .. at + HASH_SIZE * pages] == Generator.PageHashes(t, data, pages, sha1, pages)
    ensures Rehashable(t, data, sha1, Count(t, data)) && Rehashed(t, data, sha1, Count(t, data)) == t
  {
    DirectoryPassSame(t, data, sha1, d, at, pages);
    assert Rehashable(t, data, sha1, 1) && Rehashed(t, data, sha1, 1) == t;
    assert StepFits(t, data, 1);
    assert Rehashable(t, data, sha1, 2) && Rehashed(t, data, sha1, 2) == t;
    if entitled {
      assert StepFits(t, data, 2);
      assert Rehashable(t, data, sha1, 3) && Rehashed(t, data, sha1, 3) == t;
    }
  }

  /** The CodeDirectory entry of a window holding the generator's blob,
      read in place. */
  lemma WindowDirectory(t: seq<byte>, data: u32, u: seq<byte>, off: nat, hashes: nat, pages: u32)
    requires data + |u| <= |t| && t[data .. data + |u|] == u
    requires TableFits(t, data) && 0 < Count(t, data) && IndexOffset(t, data, 0) == off
    requires IndexType(t, data, 0) == CSSLOT_CODEDIRECTORY && TableEnd(t, data) <= data + hashes
    requires off + DIRECTORY_READ <= |u| && off <= hashes
    requires Get32(u, off + 16, true) == hashes - off && Get32(u, off + 28, true) == pages
    requires Generator.PagesBelow(data, data, pages) && hashes + HASH_SIZE * pages <= |u|
    ensures Directory(t, data, 0) == data + off && data + off + DIRECTORY_READ <= |t|
    ensures HashOffset(t, data + off) == hashes - off && CodeSlotCount(t, data + off) == pages
    ensures StepFits(t, data, 0)
    ensures data + hashes == data + off + HashOffset(t, data + off)
    ensures data + hashes + HASH_SIZE * pages <= |t| && Generator.PagesBelow(|t|, data, pages)
  {
    Get32Within(t, data, u, off + 16, true);
    Get32Within(t, data, u, off + 28, true);
  }

  /** A run of a window, read in place. */
  lemma WindowRun(t: seq<byte>, base: nat, u: seq<byte>, i: nat, n: nat, x: seq<byte>)
    requires base + |u| <= |t| && t[base .. base + |u|] == u && i + n <= |u| && u[i .. i + n] == x
    ensures t[base + i .. base + i + n] == x
  {
    SliceWithin(t, base, u, i, i + n);
  }

  /** A CodeDirectory pass whose hashes are already in place changes
      nothing. */
  lemma DirectoryPassSame(t: seq<byte>, data: u32, sha1: Generator.Sha1, d: nat, at: nat, pages: u32)
    requires StepFits(t, data, 0) && IndexType(t, data, 0) == CSSLOT_CODEDIRECTORY
    requires d == Directory(t, data, 0) && d + DIRECTORY_READ <= |t|
    requires at == d + HashOffset(t, d) && pages == CodeSlotCount(t, d)
    requires Generator.PagesBelow(|t|, data, pages) && at + HASH_SIZE * pages <= |t|
    requires t[at .. at + HASH_SIZE * pages] == Generator.PageHashes(t, data, pages, sha1, pages)
    ensures RehashStep(t, data, sha1, 0) == t
  {
    SpliceInPlace(t, at, HASH_SIZE * pages, Generator.PageHashes(t, data, pages, sha1, pages));
    EntryPass(t, data, sha1, 0, d, at, pages, t);
  }

  /** Splicing in what is already there changes nothing. */
  lemma SpliceInPlace(s: seq<byte>, o: nat, n: nat, x: seq<byte>)
    requires o + n <= |s| && |x| == n && s[o .. o + n] == x
    ensures Splice(s, o, x) == s
  {
    SpliceSame(s, o, n);
  }

  /** Where the CodeDirectory pass over such a window finds the directory
      and its hashes, and what those hashes hold. */
  lemma IndexedDirectory(t: seq<byte>, data: u32, u: seq<byte>, p: Generator.Placement, sha1: Generator.Sha1, pages: u32)
    requires data + |u| <= |t| && t[data .. data + |u|] == u && p.directory <= p.hashes
    requires TableFits(t, data) && 0 < Count(t, data) && TableEnd(t, data) == data + p.directory
    requires IndexType(t, data, 0) == CSSLOT_CODEDIRECTORY && IndexOffset(t, data, 0) == p.directory
    requires p.directory + DIRECTORY_READ <= |u|
    requires Get32(u, p.directory + 16, true) == p.hashes - p.directory && Get32(u, p.directory + 28, true) == pages
    requires Generator.PagesBelow(data, data, pages) && p.hashes + HASH_SIZE * pages <= |u|
    requires u[p.hashes .. p.hashes + HASH_SIZE * pages] == Generator.PageHashes(t, data, pages, sha1, pages)
    ensures StepFits(t, data, 0)
    ensures Directory(t, data, 0) == data + p.directory && data + p.directory + DIRECTORY_READ <= |t|
    ensures data + p.hashes == data + p.directory + HashOffset(t, data + p.directory)
    ensures pages == CodeSlotCount(t, data + p.directory)
    ensures Generator.PagesBelow(|t|, data, pages) && data + p.hashes + HASH_SIZE * pages <= |t|
    ensures t[data + p.hashes .. data + p.hashes + HASH_SIZE * pages] == Generator.PageHashes(t, data, pages, sha1, pages)
  {
    WindowDirectory(t, data, u, p.directory, p.hashes, pages);
    WindowRun(t, data, u, p.hashes, HASH_SIZE * pages, Generator.PageHashes(t, data, pages, sha1, pages));
  }

  /** The -s loop over a window holding the generator's blob whose code
      hashes already are the hashes of the pages below `data` changes
      nothing. */
  lemma IndexedRehash(t: seq<byte>, data: u32, u: seq<byte>, p: Generator.Placement, entitlements: Option<seq<byte>>, sha1: Generator.Sha1, pages: u32)
    requires Generator.Indexed(u, p, entitlements) && data + |u| <= |t| && t[data .. data + |u|] == u
    requires p.directory + DIRECTORY_READ <= |u|
    requires Get32(u, p.directory + 16, true) == p.hashes - p.directory && Get32(u, p.directory + 28, true) == pages
    requires Generator.PagesBelow(data, data, pages) && p.hashes + HASH_SIZE * pages <= |u|
    requires u[p.hashes .. p.hashes + HASH_SIZE * pages] == Generator.PageHashes(t, data, pages, sha1, pages)
    ensures TableFits(t, data) && Rehashable(t, data, sha1, Count(t, data))
    ensures Rehashed(t, data, sha1, Count(t, data)) == t
  {
    IndexedTable(t, data, u, p, entitlements);
    IndexedEntry(t, data, u, p, entitlements, 0);
    IndexedDirectory(t, data, u, p, sha1, pages);
    IndexedEntry(t, data, u, p, entitlements, 1);
    if entitlements.Some? {
      IndexedEntry(t, data, u, p, entitlements, 2);
    }
    RehashedOf(t, data, sha1, entitlements.Some?, data + p.directory, data + p.hashes, pages);
  }

  /** -s on a slice the generator signed changes nothing: every code hash
      already is the hash of its page. */
  lemma RehashSigned(t: seq<byte>, top: seq<byte>, data: u32, name: seq<byte>, entitlements: Option<seq<byte>>, sha1: Generator.Sha1)
    requires Signed(t, top, data, name, entitlements, sha1)
    ensures TableFits(t, data) && Rehashable(t, data, sha1, Count(t, data))
    ensures Rehashed(t, data, sha1, Count(t, data)) == t
  {
    var u, p := Generator.Signature(top, data, name, entitlements, sha1), Generator.Layout(data, name, entitlements);
    var pages := Generator.CodeSlots(data);
    Generator.SignatureIndexed(top, data, name, entitlements, sha1);
    Generator.SignatureDirectory(top, data, name, entitlements, sha1);
    Generator.HashesWindow(top, data, name, entitlements, sha1);
    if pages == 0 {
      Generator.NoPagesBelow(data);
    } else {
      Generator.PageSpan(data, 0);
    }
    Generator.PageHashesFrame(top, t, data, data, pages, sha1, pages);
    IndexedRehash(t, data, u, p, entitlements, sha1, pages);
  }
}
