/** The -S signature generator (ldid.cpp:1199-1295): the embedded
    SuperBlob with its CodeDirectory, hash slots, Requirements and optional
    Entitlements blob, written into the region the slice's
    LC_CODE_SIGNATURE reserves; and the page-hash loop it shares with -s.

    Every field of the signature goes through the global Swap, so it is
    big-endian on disk whatever the slice's own byte order. SHA-1 is a
    parameter; the only fact used about it is that a digest is 20 bytes. */
module Generator {
  import opened Bytes
  import opened Wrappers
  import opened CodeSign
  import Planner
  import Buffer

  /** SHA1(data, length, md) as a function of the bytes it reads. */
  type Sha1 = seq<byte> -> Digest

  // ---------------------------------------------------------------------
  // Page hashes (ldid.cpp:1243-1250, 1188-1195)
  // ---------------------------------------------------------------------

  /** `pages` for a code limit: (data + 0x1000 - 1) / 0x1000 in 32-bit
      arithmetic, so the sum wraps for a limit within a page of 2^32. */
  function CodeSlots(data: u32): (r: u32)
    ensures data + PAGE_SIZE - 1 < TWO_32 ==> r == Pages(data)
    ensures TWO_32 <= data + PAGE_SIZE - 1 ==> r == 0
  {
    if data + PAGE_SIZE - 1 < TWO_32 then Pages(data) else (data + PAGE_SIZE - 1 - TWO_32) / PAGE_SIZE
  }

  /** The length of the last page, ((data - 1) % 0x1000) + 1, with
      data - 1 taken in 32 bits. */
  function LastPageLength(data: u32): nat
  {
    (if data == 0 then TWO_32 - 1 else data - 1) % PAGE_SIZE + 1
  }

  /** Page i of `pages` is a whole page unless it is the last. */
  function PageLength(data: u32, pages: nat, i: nat): nat
  {
    if i + 1 < pages then PAGE_SIZE else LastPageLength(data)
  }

  /** Every page the loop reads lies below `bound`. */
  predicate PagesBelow(bound: nat, data: u32, pages: nat)
  {
    pages == 0 || PAGE_SIZE * (pages - 1) + LastPageLength(data) <= bound
  }

  function Page(top: seq<byte>, data: u32, pages: nat, i: nat): seq<byte>
    requires i < pages && PagesBelow(|top|, data, pages)
  {
    top[PAGE_SIZE * i .. PAGE_SIZE * i + PageLength(data, pages, i)]
  }

  /** The first n of the `pages` code hashes, 20 bytes each. */
  function PageHashes(top: seq<byte>, data: u32, pages: nat, sha1: Sha1, n: nat): (r: seq<byte>)
    requires n <= pages && PagesBelow(|top|, data, pages)
    ensures |r| == HASH_SIZE * n
  {
    if n == 0 then [] else PageHashes(top, data, pages, sha1, n - 1) + sha1(Page(top, data, pages, n - 1))
  }

  /** Hash i is the SHA-1 of page i. */
  lemma {:induction false} HashOfPage(top: seq<byte>, data: u32, pages: nat, sha1: Sha1, n: nat, i: nat)
    requires i < n <= pages && PagesBelow(|top|, data, pages)
    ensures PageHashes(top, data, pages, sha1, n)[HASH_SIZE * i .. HASH_SIZE * (i + 1)] == sha1(Page(top, data, pages, i))
  {
    var r := PageHashes(top, data, pages, sha1, n);
    var prev := PageHashes(top, data, pages, sha1, n - 1);
    if i + 1 < n {
      HashOfPage(top, data, pages, sha1, n - 1, i);
      assert r[HASH_SIZE * i .. HASH_SIZE * (i + 1)] == prev[HASH_SIZE * i .. HASH_SIZE * (i + 1)];
    }
  }

  /** The hashes depend only on the bytes below the pages' end. */
  lemma {:induction false} PageHashesFrame(s: seq<byte>, t: seq<byte>, bound: nat, data: u32, pages: nat, sha1: Sha1, n: nat)
    requires n <= pages && PagesBelow(bound, data, pages)
    requires bound <= |s| && bound <= |t| && s[..bound] == t[..bound]
    ensures PageHashes(s, data, pages, sha1, n) == PageHashes(t, data, pages, sha1, n)
  {
    if n > 0 {
      PageHashesFrame(s, t, bound, data, pages, sha1, n - 1);
      var lo := PAGE_SIZE * (n - 1);
      var hi := lo + PageLength(data, pages, n - 1);
      assert s[lo..hi] == s[..bound][lo..hi] == t[..bound][lo..hi] == t[lo..hi];
    }
  }

  /** With the page count the generator computes, the pages tile the code
      exactly: hash i covers bytes [4096 i, min(4096 (i + 1), data)) and
      nothing at or past the code limit is hashed. */
  lemma {:induction false} PageSpan(data: u32, i: nat)
    requires i < CodeSlots(data)
    ensures PagesBelow(data, data, CodeSlots(data))
    ensures PAGE_SIZE * i + PageLength(data, CodeSlots(data), i)
         == if PAGE_SIZE * (i + 1) <= data then PAGE_SIZE * (i + 1) else data
  {
    var pages := CodeSlots(data);
    var q, r := (data - 1) / PAGE_SIZE, (data - 1) % PAGE_SIZE;
    DivModJoin(data - 1, PAGE_SIZE);
    DivModSplit(q + 1, r, PAGE_SIZE);
    assert data + PAGE_SIZE - 1 == (q + 1) * PAGE_SIZE + r;
    assert pages == q + 1;
  }

  /** The limit of 0 hashes nothing; so does a limit whose page count
      wraps. */
  lemma {:induction false} NoPagesBelow(data: u32)
    requires CodeSlots(data) == 0
    ensures PagesBelow(data, data, 0)
  {}

  /** How many whole pages `if (pages != 1) for (i = 0; i != pages - 1;
      ++i)` hashes as written: pages - 1 is taken in 32 bits. */
  function FullPagesAsWritten(pages: u32): nat
  {
    if pages != 1 then Wrap32(pages - 1) else 0
  }

  /** The intended count: every page but the last, and none when there
      are none. */
  function FullPages(pages: u32): nat
  {
    if pages > 1 then pages - 1 else 0
  }

  /** With nCodeSlots == 0 the loop as written runs 2^32 - 1 times and the
      pages it reads end 2^32 - 1 pages in, past any slice a 32-bit
      offset can address; the intended loop reads nothing. */
  lemma {:induction false} EmptyDirectoryOverrun(length: nat)
    requires length < TWO_32
    ensures FullPagesAsWritten(0) == TWO_32 - 1
    ensures PAGE_SIZE * FullPagesAsWritten(0) > length
    ensures FullPages(0) == 0
  {
    assert Wrap32(-1) == TWO_32 - 1;
  }

  /** Everywhere else the two loops agree. */
  lemma {:induction false} FullPagesAgree(pages: u32)
    requires pages != 0
    ensures FullPagesAsWritten(pages) == FullPages(pages) == pages - 1
  {}

  /** The page-hash loop on a slice held in `a`: hash i of the `pages`
      pages goes to `at + 20 i`. The pages lie below `at`, so no hash is
      read back as part of a page. The loop guard is the intended one
      (FullPages), not the 32-bit one. */
  method HashPages(a: array<byte>, at: nat, data: u32, pages: u32, sha1: Sha1)
    requires PagesBelow(at, data, pages) && at + HASH_SIZE * pages <= a.Length
    modifies a
    ensures a[..] == Splice(old(a[..]), at, PageHashes(old(a[..]), data, pages, sha1, pages))
  {
    ghost var top := a[..];
    var i := 0;
    while i < FullPages(pages)
      invariant i <= FullPages(pages)
      invariant a[..] == Splice(top, at, PageHashes(top, data, pages, sha1, i))
    {
      HashPage(a, top, at, data, pages, sha1, i, PAGE_SIZE);
      i := i + 1;
    }
    if pages != 0 {
      HashPage(a, top, at, data, pages, sha1, i, LastPageLength(data));
    }
  }

  /** One pass: sha1(hashes[i], top + 0x1000 * i, length). */
  method HashPage(a: array<byte>, ghost top: seq<byte>, at: nat, data: u32, pages: u32, sha1: Sha1, i: nat, length: nat)
    requires PagesBelow(at, data, pages) && at + HASH_SIZE * pages <= a.Length == |top|
    requires i < pages && length == PageLength(data, pages, i)
    requires a[..] == Splice(top, at, PageHashes(top, data, pages, sha1, i))
    modifies a
    ensures a[..] == Splice(top, at, PageHashes(top, data, pages, sha1, i + 1))
  {
    ghost var done := PageHashes(top, data, pages, sha1, i);
    var page := a[PAGE_SIZE * i .. PAGE_SIZE * i + length];
    SpliceApart(top, at, done, PAGE_SIZE * i, PAGE_SIZE * i + length);
    assert page == Page(top, data, pages, i);
    Buffer.Write(a, at + HASH_SIZE * i, sha1(page));
    SpliceConcat(top, at, done, sha1(page));
  }

  // ---------------------------------------------------------------------
  // The blob (ldid.cpp:1208-1275)
  // ---------------------------------------------------------------------

  /** Where each part of the signature goes, as offsets into the blob:
      the generator's running `offset`. */
  datatype Placement = Placement(
    count: nat,        // blobs in the SuperBlob index
    special: nat,      // special slots
    directory: nat,    // the CodeDirectory
    ident: nat,        // the identifier string
    slots: nat,        // the special slot hashes
    hashes: nat,       // the code hashes
    requirements: nat, // the Requirements blob
    entitlements: nat, // the Entitlements blob, if any
    end: nat)          // the bytes used

  function Placing(nameLength: nat, entitlements: Option<nat>, pages: nat): Placement
  {
    var count := BlobCount(entitlements.Some?);
    var special := SpecialSlots(entitlements.Some?);
    var directory := SUPER_BLOB_SIZE + count * BLOB_INDEX_SIZE;
    var ident := directory + CODE_DIRECTORY_SIZE;
    var slots := ident + nameLength + 1;
    var hashes := slots + HASH_SIZE * special;
    var requirements := hashes + HASH_SIZE * pages;
    var following := requirements + REQUIREMENTS_SIZE;
    var end := if entitlements.Some? then following + BLOB_SIZE + entitlements.value else following;
    Placement(count, special, directory, ident, slots, hashes, requirements, following, end)
  }

  /** The generator's running offset ends where the planner's count of
      signature bytes says it does. */
  lemma {:induction false} PlacingLength(nameLength: nat, entitlements: Option<nat>, pages: nat)
    ensures Placing(nameLength, entitlements, pages).end == SignatureLength(nameLength, entitlements, pages)
  {}

  function EntitlementsSize(entitlements: Option<seq<byte>>): Option<nat>
  {
    if entitlements.Some? then Some(|entitlements.value|) else None
  }

  function Layout(data: u32, name: seq<byte>, entitlements: Option<seq<byte>>): Placement
  {
    Placing(|name|, EntitlementsSize(entitlements), CodeSlots(data))
  }

  /** A request whose offsets fit ldid's 32-bit `offset`. */
  predicate Signable(data: u32, name: seq<byte>, entitlements: Option<seq<byte>>)
  {
    Layout(data, name, entitlements).end < TWO_32
  }

  /** A 32-bit field as the global Swap stores it: big-endian. */
  function Word(v: u32): (r: seq<byte>)
    ensures |r| == 4
  {
    BEBytes32(v)
  }

  function Words(vs: seq<u32>): (r: seq<byte>)
    ensures |r| == 4 * |vs|
  {
    if vs == [] then [] else Word(vs[0]) + Words(vs[1..])
  }

  /** Word i of a run of words is four bytes from 4 i. */
  lemma {:induction false} WordsField(vs: seq<u32>, i: nat)
    requires i < |vs|
    ensures Words(vs)[4 * i .. 4 * i + 4] == Word(vs[i])
  {
    if i > 0 {
      WordsField(vs[1..], i - 1);
      assert Words(vs)[4 * i .. 4 * i + 4] == Words(vs[1..])[4 * (i - 1) .. 4 * (i - 1) + 4];
    }
  }

  /** A field read back from where Word(v) was written is v. */
  lemma {:induction false} WordRead(s: seq<byte>, o: nat, v: u32)
    requires o + 4 <= |s| && s[o .. o + 4] == Word(v)
    ensures Get32(s, o, true) == v
  {
    Encode32IsWord(v);
    Get32Within(s, o, Word(v), 0, true);
  }

  /** Word is Encode32 in big-endian order. */
  lemma {:induction false} Encode32IsWord(v: u32)
    ensures Word(v) == Encode32(v, true)
  {}

  /** SuperBlob magic, length and count, then the index of BlobIndex
      {type, offset} pairs: the CodeDirectory, the Requirements and, with
      entitlements, the Entitlements. */
  function SuperBlobWords(p: Placement, entitled: bool): seq<u32>
    requires p.end < TWO_32 && p.count <= 3 && p.directory <= p.requirements <= p.entitlements <= p.end
  {
    [CSMAGIC_EMBEDDED_SIGNATURE, p.end, p.count,
     CSSLOT_CODEDIRECTORY, p.directory, CSSLOT_REQUIREMENTS, p.requirements]
    + (if entitled then [CSSLOT_ENTITLEMENTS, p.entitlements] else [])
  }

  /** The CodeDirectory's 32-bit fields up to codeLimit, offsets taken
      from the directory's start. */
  function DirectoryWords(p: Placement, data: u32, pages: u32): seq<u32>
    requires p.end < TWO_32 && p.directory <= p.ident <= p.hashes <= p.requirements <= p.end && p.special < TWO_32
  {
    [CSMAGIC_CODEDIRECTORY, p.requirements - p.directory, CD_VERSION, 0,
     p.hashes - p.directory, p.ident - p.directory, p.special, pages, data]
  }

  /** hashSize 20, hashType 1 (SHA-1), spare1 0, pageSize 12 (2^12);
      the zero spare2 word follows. */
  const HASH_PARAMETERS: seq<byte> := [0x14, 0x01, 0x00, 0x0c]

  /** Everything before the special slots: SuperBlob header and index,
      CodeDirectory, and the NUL-terminated identifier. */
  function Head(data: u32, name: seq<byte>, entitlements: Option<seq<byte>>): (r: seq<byte>)
    requires Signable(data, name, entitlements)
    ensures |r| == Layout(data, name, entitlements).slots
  {
    var p := Layout(data, name, entitlements);
    Words(SuperBlobWords(p, entitlements.Some?))
    + Words(DirectoryWords(p, data, CodeSlots(data))) + HASH_PARAMETERS + Zeros(4)
    + name + [0]
  }

  /** The Entitlements blob: magic, length, then the entitlements. */
  function EntitlementsBlob(entitlements: Option<seq<byte>>): (r: seq<byte>)
    requires entitlements.Some? ==> BLOB_SIZE + |entitlements.value| < TWO_32
    ensures |r| == if entitlements.Some? then BLOB_SIZE + |entitlements.value| else 0
  {
    if entitlements.None? then []
    else Words([CSMAGIC_ENTITLEMENTS, BLOB_SIZE + |entitlements.value|]) + entitlements.value
  }

  /** The blob before the special-slot loop: its slots are still zero. */
  function Unhashed(top: seq<byte>, data: u32, name: seq<byte>, entitlements: Option<seq<byte>>, sha1: Sha1): (r: seq<byte>)
    requires Signable(data, name, entitlements) && data <= |top|
    ensures |r| == Layout(data, name, entitlements).end
  {
    UnhashedAfter(top, data, name, entitlements, sha1, |top| + 1)
  }

  /** The same blob after a countdown of `steps`: every count gives the
      same bytes (UnhashedAfterIs). Unhashed starts the countdown at a
      count whose end a proof does not see, so the blob stays folded until
      UnhashedIs unfolds it. */
  function UnhashedAfter(top: seq<byte>, data: u32, name: seq<byte>, entitlements: Option<seq<byte>>, sha1: Sha1, steps: nat): (r: seq<byte>)
    requires Signable(data, name, entitlements) && data <= |top|
    ensures |r| == Layout(data, name, entitlements).end
    decreases steps
  {
    if steps == 0 then
      var p := Layout(data, name, entitlements);
      var pages := CodeSlots(data);
      CodeSlotsBelow(data);
      var blob := EntitlementsBlob(entitlements);
      assert p.hashes == p.slots + HASH_SIZE * p.special;
      assert p.end == p.hashes + HASH_SIZE * pages + REQUIREMENTS_SIZE + |blob|;
      Head(data, name, entitlements) + Zeros(HASH_SIZE * p.special)
      + PageHashes(top, data, pages, sha1, pages)
      + REQUIREMENTS + blob
    else
      UnhashedAfter(top, data, name, entitlements, sha1, steps - 1)
  }

  lemma {:induction false} UnhashedAfterIs(top: seq<byte>, data: u32, name: seq<byte>, entitlements: Option<seq<byte>>, sha1: Sha1, steps: nat)
    requires Signable(data, name, entitlements) && data <= |top|
    ensures forall k :: 0 <= k <= steps ==> UnhashedAfter(top, data, name, entitlements, sha1, steps) == UnhashedAfter(top, data, name, entitlements, sha1, k)
    decreases steps
  {
    if steps > 0 {
      UnhashedAfterIs(top, data, name, entitlements, sha1, steps - 1);
    }
  }

  /** The blob's parts in order: head, zeroed special slots, code hashes,
      Requirements, Entitlements. */
  lemma {:induction false} UnhashedIs(top: seq<byte>, data: u32, name: seq<byte>, entitlements: Option<seq<byte>>, sha1: Sha1)
    requires Signable(data, name, entitlements) && data <= |top|
    ensures PagesBelow(|top|, data, CodeSlots(data))
    ensures Unhashed(top, data, name, entitlements, sha1)
         == Head(data, name, entitlements) + Zeros(HASH_SIZE * Layout(data, name, entitlements).special)
            + PageHashes(top, data, CodeSlots(data), sha1, CodeSlots(data))
            + REQUIREMENTS + EntitlementsBlob(entitlements)
  {
    CodeSlotsBelow(data);
    UnhashedAfterIs(top, data, name, entitlements, sha1, |top| + 1);
    assert Unhashed(top, data, name, entitlements, sha1) == UnhashedAfter(top, data, name, entitlements, sha1, 0);
  }

  /** The generator never hashes past the code limit. */
  lemma {:induction false} CodeSlotsBelow(data: u32)
    ensures PagesBelow(data, data, CodeSlots(data))
  {
    if CodeSlots(data) > 0 {
      PageSpan(data, 0);
    }
  }

  /** Where each part of the unfilled blob lies. */
  lemma {:induction false} UnhashedParts(top: seq<byte>, data: u32, name: seq<byte>, entitlements: Option<seq<byte>>, sha1: Sha1)
    requires Signable(data, name, entitlements) && data <= |top|
    ensures var u, p := Unhashed(top, data, name, entitlements, sha1), Layout(data, name, entitlements);
      && PagesBelow(|top|, data, CodeSlots(data))
      && u[..p.directory] == Words(SuperBlobWords(p, entitlements.Some?))
      && u[p.directory .. p.ident] == Words(DirectoryWords(p, data, CodeSlots(data))) + HASH_PARAMETERS + Zeros(4)
      && u[p.ident .. p.slots] == name + [0]
      && u[p.slots .. p.hashes] == Zeros(HASH_SIZE * p.special)
      && u[p.hashes .. p.requirements] == PageHashes(top, data, CodeSlots(data), sha1, CodeSlots(data))
      && u[p.requirements .. p.entitlements] == REQUIREMENTS
      && u[p.entitlements ..] == EntitlementsBlob(entitlements)
  {
    var u, p := Unhashed(top, data, name, entitlements, sha1), Layout(data, name, entitlements);
    UnhashedIs(top, data, name, entitlements, sha1);
    var pages := CodeSlots(data);
    var head := Head(data, name, entitlements);
    var z, h := Zeros(HASH_SIZE * p.special), PageHashes(top, data, pages, sha1, pages);
    var e := EntitlementsBlob(entitlements);
    Cut5(u, head, z, h, REQUIREMENTS, e, p.slots, p.hashes, p.requirements, p.entitlements);
    HeadParts(data, name, entitlements);
    Within(u, head, p.directory, p.ident);
  }

  lemma {:induction false} HeadParts(data: u32, name: seq<byte>, entitlements: Option<seq<byte>>)
    requires Signable(data, name, entitlements)
    ensures var head, p := Head(data, name, entitlements), Layout(data, name, entitlements);
      && head[..p.directory] == Words(SuperBlobWords(p, entitlements.Some?))
      && head[p.directory .. p.ident] == Words(DirectoryWords(p, data, CodeSlots(data))) + HASH_PARAMETERS + Zeros(4)
      && head[p.ident ..] == name + [0]
  {
    var p := Layout(data, name, entitlements);
    var w1 := Words(SuperBlobWords(p, entitlements.Some?));
    var w2 := Words(DirectoryWords(p, data, CodeSlots(data))) + HASH_PARAMETERS + Zeros(4);
    assert |w1| == p.directory by {
      if entitlements.Some? {} else {}
    }
    Cut4(Head(data, name, entitlements), w1, w2, name, p.directory, p.ident);
  }

  lemma {:induction false} Within(u: seq<byte>, head: seq<byte>, i: nat, j: nat)
    requires i <= j <= |head| <= |u| && u[..|head|] == head
    ensures u[..i] == head[..i] && u[i..j] == head[i..j] && u[j..|head|] == head[j..]
  {
    var n := |head|;
    assert forall k :: i <= k < j ==> u[k] == head[k];
    assert u[j..n] == u[..n][j..];
  }

  lemma {:induction false} Cut4(x: seq<byte>, a: seq<byte>, b: seq<byte>, c: seq<byte>, i: nat, j: nat)
    requires x == a + b + c + [0] && i == |a| && j == |a| + |b|
    ensures x[..i] == a && x[i..j] == b && x[j..] == c + [0]
  {}

  lemma {:induction false} Cut5(x: seq<byte>, a: seq<byte>, b: seq<byte>, c: seq<byte>, d: seq<byte>, e: seq<byte>, i: nat, j: nat, k: nat, l: nat)
    requires x == a + b + c + d + e
    requires i == |a| && j == i + |b| && k == j + |c| && l == k + |d|
    ensures x[..i] == a && x[i..j] == b && x[j..k] == c && x[k..l] == d && x[l..] == e
  {}

  /** A field inside a window of `u` that holds `w`, where `w` has Word(v)
      at `f`, reads back as v. */
  lemma {:induction false} WindowWord(u: seq<byte>, base: nat, w: seq<byte>, f: nat, v: u32)
    requires base + |w| <= |u| && u[base .. base + |w|] == w
    requires f + 4 <= |w| && w[f .. f + 4] == Word(v)
    ensures Get32(u, base + f, true) == v
  {
    Get32Within(u, base, w, f, true);
    WordRead(w, f, v);
  }

  // ---------------------------------------------------------------------
  // The special-slot loop (ldid.cpp:1277-1284)
  // ---------------------------------------------------------------------

  /** The type and offset the generator gives index entry `index`. */
  function EntryType(index: nat): u32
  {
    if index == 0 then CSSLOT_CODEDIRECTORY else if index == 1 then CSSLOT_REQUIREMENTS else CSSLOT_ENTITLEMENTS
  }

  function EntryOffset(p: Placement, index: nat): nat
  {
    if index == 0 then p.directory else if index == 1 then p.requirements else p.entitlements
  }

  /** The blob entry `index` > 0 names: the Requirements or the
      Entitlements. */
  function EntryBlob(entitlements: Option<seq<byte>>, index: nat): seq<byte>
    requires entitlements.Some? ==> BLOB_SIZE + |entitlements.value| < TWO_32
  {
    if index == 1 then REQUIREMENTS else EntitlementsBlob(entitlements)
  }

  /** The placement and the parts of a blob the special-slot loop reads:
      the SuperBlob index, the Requirements and the Entitlements. */
  predicate Indexed(u: seq<byte>, p: Placement, entitlements: Option<seq<byte>>)
  {
    && p.end == |u| < TWO_32 && p.count == BlobCount(entitlements.Some?)
    && p.special == SpecialSlots(entitlements.Some?)
    && (entitlements.Some? ==> BLOB_SIZE + |entitlements.value| < TWO_32)
    && p.directory == SUPER_BLOB_SIZE + BLOB_INDEX_SIZE * p.count
    && p.directory <= p.slots && p.slots + HASH_SIZE * p.special == p.hashes <= p.requirements
    && p.requirements + REQUIREMENTS_SIZE == p.entitlements <= p.end
    && u[..p.directory] == Words(SuperBlobWords(p, entitlements.Some?))
    && u[p.requirements .. p.entitlements] == REQUIREMENTS
    && u[p.entitlements ..] == EntitlementsBlob(entitlements)
  }

  lemma {:induction false} UnhashedIndexed(top: seq<byte>, data: u32, name: seq<byte>, entitlements: Option<seq<byte>>, sha1: Sha1)
    requires Signable(data, name, entitlements) && data <= |top|
    ensures Indexed(Unhashed(top, data, name, entitlements, sha1), Layout(data, name, entitlements), entitlements)
  {
    UnhashedParts(top, data, name, entitlements, sha1);
  }

  /** What the loop reads back from the index for entry `index`. */
  lemma {:induction false} IndexReads(u: seq<byte>, p: Placement, entitlements: Option<seq<byte>>, index: nat)
    requires Indexed(u, p, entitlements) && index < p.count
    ensures Get32(u, SUPER_BLOB_SIZE + BLOB_INDEX_SIZE * index, true) == EntryType(index)
    ensures Get32(u, SUPER_BLOB_SIZE + BLOB_INDEX_SIZE * index + 4, true) == EntryOffset(p, index)
  {
    var vs := SuperBlobWords(p, entitlements.Some?);
    assert 4 * |vs| == p.directory;
    assert vs[3 + 2 * index] == EntryType(index) && vs[4 + 2 * index] == EntryOffset(p, index);
    WordsRead(u, vs, 3 + 2 * index);
    WordsRead(u, vs, 4 + 2 * index);
  }

  /** The blob entry `index` > 0 names, read back through its length
      field, which covers the whole blob. */
  lemma {:induction false} BlobReads(u: seq<byte>, p: Placement, entitlements: Option<seq<byte>>, index: nat)
    requires Indexed(u, p, entitlements) && 0 < index < p.count
    ensures var off, blob := EntryOffset(p, index), EntryBlob(entitlements, index);
      && BLOB_SIZE <= |blob| && off + |blob| <= |u|
      && u[off .. off + |blob|] == blob
      && Get32(u, off + 4, true) == |blob|
  {
    if index == 1 {
      RequirementsLength();
      BlobRead(u, p.requirements, REQUIREMENTS);
    } else {
      EntitlementsLength(entitlements);
      BlobRead(u, p.entitlements, EntitlementsBlob(entitlements));
    }
  }

  /** Word i of a run of words at the start of `u` reads back. */
  lemma {:induction false} WordsRead(u: seq<byte>, vs: seq<u32>, i: nat)
    requires i < |vs| && 4 * |vs| <= |u| && u[..4 * |vs|] == Words(vs)
    ensures Get32(u, 4 * i, true) == vs[i]
  {
    WordsField(vs, i);
    WindowWord(u, 0, Words(vs), 4 * i, vs[i]);
  }

  /** A blob whose length field covers it, read back through that field. */
  lemma {:induction false} BlobRead(u: seq<byte>, off: nat, blob: seq<byte>)
    requires BLOB_SIZE <= |blob| && off + |blob| <= |u|
    requires Get32(blob, 4, true) == |blob|
    requires u[off..] == blob || u[off .. off + |blob|] == blob
    ensures u[off .. off + |blob|] == blob && Get32(u, off + 4, true) == |blob|
  {
    assert u[off .. off + |blob|] == blob;
    Get32Within(u, off, blob, 4, true);
  }

  lemma {:induction false} RequirementsLength()
    ensures Get32(REQUIREMENTS, 4, true) == |REQUIREMENTS|
  {}

  lemma {:induction false} EntitlementsLength(entitlements: Option<seq<byte>>)
    requires entitlements.Some? && BLOB_SIZE + |entitlements.value| < TWO_32
    ensures var blob := EntitlementsBlob(entitlements);
      Get32(blob, 4, true) == |blob|
  {
    var blob := EntitlementsBlob(entitlements);
    WordsField([CSMAGIC_ENTITLEMENTS, |blob|], 1);
    WindowWord(blob, 0, Words([CSMAGIC_ENTITLEMENTS, |blob|]), 4, |blob|);
  }


  /** One pass of the special-slot loop over entry `index`: when the
      entry's type t is a special slot (0 < t <= special), the whole blob
      it names, magic and length included, is hashed into slot -t, t slots
      below the code hashes. */
  function SlotStep(p: Placement, entitlements: Option<seq<byte>>, sha1: Sha1, acc: seq<byte>, index: nat): (r: seq<byte>)
    requires p.slots + HASH_SIZE * p.special == p.hashes <= |acc| && index < p.count
    requires entitlements.Some? ==> BLOB_SIZE + |entitlements.value| < TWO_32
    ensures |r| == |acc|
  {
    var kind := EntryType(index);
    if kind != 0 && kind <= p.special then
      Splice(acc, p.hashes - HASH_SIZE * kind, sha1(EntryBlob(entitlements, index)))
    else acc
  }

  /** The blob after the first k passes. */
  function Slotted(u: seq<byte>, p: Placement, entitlements: Option<seq<byte>>, sha1: Sha1, k: nat): (r: seq<byte>)
    requires p.slots + HASH_SIZE * p.special == p.hashes <= |u| && k <= p.count
    requires entitlements.Some? ==> BLOB_SIZE + |entitlements.value| < TWO_32
    ensures |r| == |u|
  {
    if k == 0 then u else SlotStep(p, entitlements, sha1, Slotted(u, p, entitlements, sha1, k - 1), k - 1)
  }

  /** The loop writes only inside the special slots. */
  lemma {:induction false} SlottedKeeps(u: seq<byte>, p: Placement, entitlements: Option<seq<byte>>, sha1: Sha1, k: nat)
    requires p.slots + HASH_SIZE * p.special == p.hashes <= |u| && k <= p.count
    requires entitlements.Some? ==> BLOB_SIZE + |entitlements.value| < TWO_32
    ensures forall j :: 0 <= j < |u| && (j < p.slots || p.hashes <= j) ==> Slotted(u, p, entitlements, sha1, k)[j] == u[j]
  {
    if k > 0 {
      SlottedKeeps(u, p, entitlements, sha1, k - 1);
    }
  }

  /** ...so what it reads stays as it was. */
  lemma {:induction false} SlottedIndexed(u: seq<byte>, p: Placement, entitlements: Option<seq<byte>>, sha1: Sha1, k: nat)
    requires Indexed(u, p, entitlements) && k <= p.count
    ensures Indexed(Slotted(u, p, entitlements, sha1, k), p, entitlements)
  {
    var w := Slotted(u, p, entitlements, sha1, k);
    SlottedKeeps(u, p, entitlements, sha1, k);
    assert w[..p.directory] == u[..p.directory];
    assert w[p.requirements .. p.entitlements] == u[p.requirements .. p.entitlements];
    assert w[p.entitlements ..] == u[p.entitlements ..];
  }

  /** The signature the generator writes: the blob once the special-slot
      loop has run over every index entry. */
  function Signature(top: seq<byte>, data: u32, name: seq<byte>, entitlements: Option<seq<byte>>, sha1: Sha1): (r: seq<byte>)
    requires Signable(data, name, entitlements) && data <= |top|
    ensures |r| == Layout(data, name, entitlements).end
  {
    var p := Layout(data, name, entitlements);
    Slotted(Unhashed(top, data, name, entitlements, sha1), p, entitlements, sha1, p.count)
  }

  /** The special-slot loop on the blob at `data` in `a`: each entry's
      type, offset and blob length are read back from the buffer. */
  method HashSpecialSlots(a: array<byte>, data: nat, p: Placement, entitlements: Option<seq<byte>>, sha1: Sha1,
                          ghost top: seq<byte>, ghost u: seq<byte>)
    requires Indexed(u, p, entitlements) && data + p.end <= a.Length == |top|
    requires a[..] == Splice(top, data, u)
    modifies a
    ensures a[..] == Splice(top, data, Slotted(u, p, entitlements, sha1, p.count))
  {
    var index := 0;
    while index < p.count
      invariant index <= p.count
      invariant a[..] == Splice(top, data, Slotted(u, p, entitlements, sha1, index))
    {
      PassPrepared(a, top, data, u, p, entitlements, sha1, index);
      PassStep(top, data, Slotted(u, p, entitlements, sha1, index), p, entitlements, sha1, index);
      SlotPass(a, data, p, sha1, index, EntryType(index), EntryOffset(p, index), EntryBlob(entitlements, index));
      index := index + 1;
    }
  }

  /** The buffer after one pass over an entry of type `kind` naming `blob`. */
  function Passed(s: seq<byte>, data: nat, p: Placement, kind: u32, blob: seq<byte>, sha1: Sha1): (r: seq<byte>)
    requires p.slots + HASH_SIZE * p.special == p.hashes && data + p.hashes <= |s|
    ensures |r| == |s|
  {
    if kind != 0 && kind <= p.special then Splice(s, data + (p.hashes - HASH_SIZE * kind), sha1(blob)) else s
  }

  /** Before pass `index`, the buffer holds what the pass reads... */
  lemma {:induction false} PassPrepared(a: array<byte>, top: seq<byte>, data: nat, u: seq<byte>, p: Placement,
                                        entitlements: Option<seq<byte>>, sha1: Sha1, index: nat)
    requires Indexed(u, p, entitlements) && data + p.end <= a.Length == |top| && index < p.count
    requires a[..] == Splice(top, data, Slotted(u, p, entitlements, sha1, index))
    ensures InBuffer(a, data, p, index, EntryType(index), EntryOffset(p, index), EntryBlob(entitlements, index))
  {
    var w := Slotted(u, p, entitlements, sha1, index);
    SlottedIndexed(u, p, entitlements, sha1, index);
    IndexedReadable(w, p, entitlements, index);
    PassReads(a, top, data, w, p, index, EntryType(index), EntryOffset(p, index), EntryBlob(entitlements, index));
  }

  /** ...and the pass takes it to the blob after one more step. */
  lemma {:induction false} PassStep(top: seq<byte>, data: nat, w: seq<byte>, p: Placement,
                                    entitlements: Option<seq<byte>>, sha1: Sha1, index: nat)
    requires p.slots + HASH_SIZE * p.special == p.hashes <= |w| && data + |w| <= |top| && index < p.count
    requires entitlements.Some? ==> BLOB_SIZE + |entitlements.value| < TWO_32
    ensures Passed(Splice(top, data, w), data, p, EntryType(index), EntryBlob(entitlements, index), sha1)
            == Splice(top, data, SlotStep(p, entitlements, sha1, w, index))
  {
    var kind, blob := EntryType(index), EntryBlob(entitlements, index);
    if kind != 0 && kind <= p.special {
      SpliceNested(top, data, w, p.hashes - HASH_SIZE * kind, sha1(blob));
    }
  }

  /** What one pass over entry `index` reads from the blob `w`: the entry's
      type and offset and, for a type the loop hashes, the blob's length
      field and the blob itself. */
  predicate Readable(w: seq<byte>, p: Placement, index: nat, kind: u32, offset: nat, blob: seq<byte>)
  {
    var at := SUPER_BLOB_SIZE + BLOB_INDEX_SIZE * index;
    && p.slots + HASH_SIZE * p.special == p.hashes <= |w|
    && at + 8 <= |w|
    && Get32(w, at, true) == kind
    && Get32(w, at + 4, true) == offset
    && (kind != 0 && kind <= p.special ==>
      && BLOB_SIZE <= |blob| && offset + |blob| <= |w|
      && Get32(w, offset + 4, true) == |blob|
      && w[offset .. offset + |blob|] == blob)
  }

  lemma {:induction false} IndexedReadable(w: seq<byte>, p: Placement, entitlements: Option<seq<byte>>, index: nat)
    requires Indexed(w, p, entitlements) && index < p.count
    ensures Readable(w, p, index, EntryType(index), EntryOffset(p, index), EntryBlob(entitlements, index))
  {
    IndexReads(w, p, entitlements, index);
    if index > 0 {
      BlobReads(w, p, entitlements, index);
    }
  }

  /** What one pass reads from the buffer `a` holding the blob at `data`:
      the type of entry `index` and, for a type the loop hashes, its offset,
      the blob's length field and the blob itself. */
  ghost predicate InBuffer(a: array<byte>, data: nat, p: Placement, index: nat, kind: u32, offset: nat, blob: seq<byte>)
    reads a
  {
    var at := SUPER_BLOB_SIZE + BLOB_INDEX_SIZE * index;
    && data + (at + 4) + 4 <= a.Length
    && Get32(a[..], data + at, true) == kind
    && (kind != 0 && kind <= p.special ==>
      && Get32(a[..], data + (at + 4), true) == offset
      && data + (offset + 4) + 4 <= a.Length
      && Get32(a[..], data + (offset + 4), true) == |blob|
      && data + (offset + |blob|) <= a.Length
      && a[data + offset .. data + (offset + |blob|)] == blob)
  }

  /** One pass of the loop over entry `index`, reading its type, offset
      and blob length from the buffer. */
  method SlotPass(a: array<byte>, data: nat, p: Placement, sha1: Sha1, index: nat,
                  ghost kind: u32, ghost offset: nat, ghost blob: seq<byte>)
    requires p.slots + HASH_SIZE * p.special == p.hashes && data + p.hashes <= a.Length
    requires InBuffer(a, data, p, index, kind, offset, blob)
    modifies a
    ensures a[..] == Passed(old(a[..]), data, p, kind, blob, sha1)
  {
    var at := SUPER_BLOB_SIZE + BLOB_INDEX_SIZE * index;
    var type_ := Buffer.Load32(a, data + at, true);
    if type_ != 0 && type_ <= p.special {
      var begin := Buffer.Load32(a, data + (at + 4), true);
      var length := Buffer.Load32(a, data + (begin as int + 4), true);
      var bytes := a[data + begin .. data + (begin as int + length)];
      assert type_ == kind && bytes == blob;
      Buffer.Write(a, data + (p.hashes - HASH_SIZE * type_), sha1(bytes));
    }
  }

  /** What one pass reads from the buffer `a` holding `w` at `data`. */
  lemma {:induction false} PassReads(a: array<byte>, top: seq<byte>, data: nat, w: seq<byte>, p: Placement, index: nat,
                                     kind: u32, offset: nat, blob: seq<byte>)
    requires Readable(w, p, index, kind, offset, blob) && data + |w| <= |top|
    requires a[..] == Splice(top, data, w)
    ensures InBuffer(a, data, p, index, kind, offset, blob)
  {
    var s := a[..];
    var at := SUPER_BLOB_SIZE + BLOB_INDEX_SIZE * index;
    SplicePiece(top, data, w);
    Get32Within(s, data, w, at, true);
    if kind != 0 && kind <= p.special {
      Get32Within(s, data, w, at + 4, true);
      Get32Within(s, data, w, offset + 4, true);
      SliceWithin(s, data, w, offset, offset + |blob|);
      assert a[data + offset .. data + (offset + |blob|)] == s[data + offset .. data + (offset + |blob|)];
    }
  }

  // ---------------------------------------------------------------------
  // Writing the blob (ldid.cpp:1199-1294)
  // ---------------------------------------------------------------------

  /** memcpy of `piece` just past the `done` bytes of the blob at `data`. */
  method Append(a: array<byte>, ghost top: seq<byte>, data: nat, ghost done: seq<byte>, at: nat, piece: seq<byte>)
    requires at == data + |done| && at + |piece| <= a.Length == |top|
    requires a[..] == Splice(top, data, done)
    modifies a
    ensures a[..] == Splice(top, data, done + piece)
  {
    Buffer.Write(a, at, piece);
    SpliceConcat(top, data, done, piece);
  }

  /** memset of n zero bytes just past `done`. */
  method AppendZeros(a: array<byte>, ghost top: seq<byte>, data: nat, ghost done: seq<byte>, at: nat, n: nat)
    requires at == data + |done| && at + n <= a.Length == |top|
    requires a[..] == Splice(top, data, done)
    modifies a
    ensures a[..] == Splice(top, data, done + Zeros(n))
  {
    Buffer.Clear(a, at, n);
    SpliceConcat(top, data, done, Zeros(n));
  }

  /** The code hashes just past `done`, hashing pages of the code below
      `data`, which the blob does not overlap. */
  method AppendPageHashes(a: array<byte>, ghost top: seq<byte>, data: u32, ghost done: seq<byte>, at: nat, sha1: Sha1)
    requires at == data + |done| && at + HASH_SIZE * CodeSlots(data) <= a.Length == |top|
    requires a[..] == Splice(top, data, done)
    modifies a
    ensures a[..] == Splice(top, data, done + PageHashes(top, data, CodeSlots(data), sha1, CodeSlots(data)))
  {
    var pages := CodeSlots(data);
    CodeSlotsBelow(data);
    HashPages(a, at, data, pages, sha1);
    SpliceBefore(top, data, done);
    PageHashesFrame(Splice(top, data, done), top, data, data, pages, sha1, pages);
    SpliceConcat(top, data, done, PageHashes(top, data, pages, sha1, pages));
  }

  /** The blob before the special-slot loop, written at `data`: the
      SuperBlob header and index and the CodeDirectory with its
      identifier (Head), the zeroed special slots, the code hashes, the
      Requirements and the Entitlements. */
  method WriteUnhashed(a: array<byte>, data: u32, name: seq<byte>, entitlements: Option<seq<byte>>, sha1: Sha1)
    requires Signable(data, name, entitlements) && data + Layout(data, name, entitlements).end <= a.Length
    modifies a
    ensures a[..] == Splice(old(a[..]), data, Unhashed(old(a[..]), data, name, entitlements, sha1))
  {
    ghost var top := a[..];
    var p := Layout(data, name, entitlements);
    WriteDirectory(a, data, name, entitlements, sha1);
    ghost var done := Head(data, name, entitlements) + Zeros(HASH_SIZE * p.special)
                      + PageHashes(top, data, CodeSlots(data), sha1, CodeSlots(data));
    Append(a, top, data, done, data + p.requirements, REQUIREMENTS);
    done := done + REQUIREMENTS;
    var blob := EntitlementsBlob(entitlements);
    if entitlements.Some? {
      Append(a, top, data, done, data + p.entitlements, blob);
    } else {
      assert done + blob == done;
    }
    UnhashedIs(top, data, name, entitlements, sha1);
  }

  /** The SuperBlob header and index, the CodeDirectory and identifier,
      the zeroed special slots and the code hashes. */
  method WriteDirectory(a: array<byte>, data: u32, name: seq<byte>, entitlements: Option<seq<byte>>, sha1: Sha1)
    requires Signable(data, name, entitlements) && data + Layout(data, name, entitlements).end <= a.Length
    modifies a
    ensures PagesBelow(|old(a[..])|, data, CodeSlots(data))
    ensures a[..] == Splice(old(a[..]), data, Head(data, name, entitlements)
                              + Zeros(HASH_SIZE * Layout(data, name, entitlements).special)
                              + PageHashes(old(a[..]), data, CodeSlots(data), sha1, CodeSlots(data)))
  {
    ghost var top := a[..];
    var p := Layout(data, name, entitlements);
    var head := Head(data, name, entitlements);
    CodeSlotsBelow(data);
    Buffer.Write(a, data, head);
    AppendZeros(a, top, data, head, data + p.slots, HASH_SIZE * p.special);
    AppendPageHashes(a, top, data, head + Zeros(HASH_SIZE * p.special), data + p.hashes, sha1);
  }

  /** The -S generator on a slice held in `a` whose LC_CODE_SIGNATURE
      reserves `size` bytes at `data`: the signature, then zeros to the end
      of the reserved region. Returns the bytes the signature takes. When
      it does not fit, the slice is left as it was. */
  method Sign(a: array<byte>, data: u32, size: u32, name: seq<byte>, entitlements: Option<seq<byte>>, sha1: Sha1)
    returns (r: Result<nat>)
    requires data + size <= a.Length
    modifies a
    ensures r.Ok? <==> Layout(data, name, entitlements).end <= size
    ensures r.Err? ==> r.error == CapacityOverflow && a[..] == old(a[..])
    ensures r.Ok? ==> && Signable(data, name, entitlements) && r.value == Layout(data, name, entitlements).end
                      && a[..] == Splice(old(a[..]), data, Signature(old(a[..]), data, name, entitlements, sha1) + Zeros(size - r.value))
  {
    var p := Layout(data, name, entitlements);
    if p.end > size {
      return Err(CapacityOverflow);
    }
    ghost var top := a[..];
    WriteUnhashed(a, data, name, entitlements, sha1);
    ghost var u := Unhashed(top, data, name, entitlements, sha1);
    UnhashedIndexed(top, data, name, entitlements, sha1);
    HashSpecialSlots(a, data, p, entitlements, sha1, top, u);
    AppendZeros(a, top, data, Signature(top, data, name, entitlements, sha1), data + p.end, size - p.end);
    r := Ok(p.end);
  }

  // ---------------------------------------------------------------------
  // What the signature says
  // ---------------------------------------------------------------------

  /** Special slot t: the 20 bytes t slots below the code hashes. */
  function Slot(sig: seq<byte>, p: Placement, t: nat): (r: seq<byte>)
    requires 1 <= t <= p.special && p.slots + HASH_SIZE * p.special == p.hashes <= |sig|
    ensures |r| == HASH_SIZE
  {
    sig[p.hashes - HASH_SIZE * t .. p.hashes - HASH_SIZE * (t - 1)]
  }

  /** Bytes the loop keeps read the same in a window. */
  lemma {:induction false} KeptWindow(u: seq<byte>, s: seq<byte>, lo: nat, hi: nat)
    requires |s| == |u| && lo <= hi <= |u|
    requires forall j :: lo <= j < hi ==> s[j] == u[j]
    ensures s[lo..hi] == u[lo..hi]
  {}

  /** The loop leaves everything outside the special slots as it was in
      the unfilled blob. */
  lemma {:induction false} SignatureKeeps(top: seq<byte>, data: u32, name: seq<byte>, entitlements: Option<seq<byte>>, sha1: Sha1, lo: nat, hi: nat)
    requires Signable(data, name, entitlements) && data <= |top|
    requires var p := Layout(data, name, entitlements); lo <= hi <= p.end && (hi <= p.slots || p.hashes <= lo)
    ensures Signature(top, data, name, entitlements, sha1)[lo..hi] == Unhashed(top, data, name, entitlements, sha1)[lo..hi]
  {
    var u, p := Unhashed(top, data, name, entitlements, sha1), Layout(data, name, entitlements);
    UnhashedIndexed(top, data, name, entitlements, sha1);
    SlottedKeeps(u, p, entitlements, sha1, p.count);
    KeptWindow(u, Signature(top, data, name, entitlements, sha1), lo, hi);
  }

  /** The signature holds what the special-slot loop reads. */
  lemma {:induction false} SignatureIndexed(top: seq<byte>, data: u32, name: seq<byte>, entitlements: Option<seq<byte>>, sha1: Sha1)
    requires Signable(data, name, entitlements) && data <= |top|
    ensures Indexed(Signature(top, data, name, entitlements, sha1), Layout(data, name, entitlements), entitlements)
  {
    var u, p := Unhashed(top, data, name, entitlements, sha1), Layout(data, name, entitlements);
    UnhashedIndexed(top, data, name, entitlements, sha1);
    SlottedIndexed(u, p, entitlements, sha1, p.count);
  }

  /** The SuperBlob header: its magic, its length, which is the whole
      signature and the planner's count of signature bytes, and the number
      of blobs it indexes. */
  lemma {:induction false} SignatureHeader(top: seq<byte>, data: u32, name: seq<byte>, entitlements: Option<seq<byte>>, sha1: Sha1)
    requires Signable(data, name, entitlements) && data <= |top|
    ensures var s := Signature(top, data, name, entitlements, sha1);
      && |s| == SignatureLength(|name|, EntitlementsSize(entitlements), CodeSlots(data))
      && Get32(s, 0, true) == CSMAGIC_EMBEDDED_SIGNATURE
      && Get32(s, 4, true) == |s|
      && Get32(s, 8, true) == BlobCount(entitlements.Some?)
  {
    var s, p := Signature(top, data, name, entitlements, sha1), Layout(data, name, entitlements);
    SignatureIndexed(top, data, name, entitlements, sha1);
    PlacingLength(|name|, EntitlementsSize(entitlements), CodeSlots(data));
    var vs := SuperBlobWords(p, entitlements.Some?);
    WordsRead(s, vs, 0);
    WordsRead(s, vs, 1);
    WordsRead(s, vs, 2);
  }

  /** Index entry `index`: the CodeDirectory, the Requirements and the
      Entitlements, in that order, each at its offset; the blob an entry
      past the CodeDirectory names lies at that offset, and its length
      field covers it. */
  lemma {:induction false} SignatureIndex(top: seq<byte>, data: u32, name: seq<byte>, entitlements: Option<seq<byte>>, sha1: Sha1, index: nat)
    requires Signable(data, name, entitlements) && data <= |top| && index < BlobCount(entitlements.Some?)
    ensures var s, p := Signature(top, data, name, entitlements, sha1), Layout(data, name, entitlements);
      && Get32(s, SUPER_BLOB_SIZE + BLOB_INDEX_SIZE * index, true) == EntryType(index)
      && Get32(s, SUPER_BLOB_SIZE + BLOB_INDEX_SIZE * index + 4, true) == EntryOffset(p, index)
      && (index > 0 ==>
        var off, blob := EntryOffset(p, index), EntryBlob(entitlements, index);
        && off + |blob| <= |s| && s[off .. off + |blob|] == blob && Get32(s, off + 4, true) == |blob|)
  {
    var s, p := Signature(top, data, name, entitlements, sha1), Layout(data, name, entitlements);
    SignatureIndexed(top, data, name, entitlements, sha1);
    IndexReads(s, p, entitlements, index);
    if index > 0 {
      BlobReads(s, p, entitlements, index);
    }
  }

  /** The CodeDirectory header's fields read back from a window holding
      its words, the hash parameters and spare2. */
  lemma {:induction false} DirectoryFields(s: seq<byte>, d: nat, vs: seq<u32>)
    requires |vs| == 9 && d + 44 <= |s| && s[d .. d + 44] == Words(vs) + HASH_PARAMETERS + Zeros(4)
    ensures forall k :: 0 <= k < 9 ==> Get32(s, d + 4 * k, true) == vs[k]
    ensures s[d + 36 .. d + 40] == HASH_PARAMETERS
  {
    var w := Words(vs) + HASH_PARAMETERS + Zeros(4);
    forall k | 0 <= k < 9
      ensures Get32(s, d + 4 * k, true) == vs[k]
    {
      DirectoryField(s, d, vs, w, k);
    }
    SliceWithin(s, d, w, 36, 40);
    assert w[36..40] == HASH_PARAMETERS;
  }

  lemma {:induction false} DirectoryField(s: seq<byte>, d: nat, vs: seq<u32>, w: seq<byte>, k: nat)
    requires |vs| == 9 && k < 9 && w == Words(vs) + HASH_PARAMETERS + Zeros(4)
    requires d + 44 <= |s| && s[d .. d + 44] == w
    ensures Get32(s, d + 4 * k, true) == vs[k]
  {
    WordsField(vs, k);
    assert w[4 * k .. 4 * k + 4] == Words(vs)[4 * k .. 4 * k + 4];
    WindowWord(s, d, w, 4 * k, vs[k]);
  }

  /** The CodeDirectory: magic; length up to the end of the code hashes;
      version 0x20001; flags 0; the code hashes after the header, the
      identifier and the special slots; the identifier right after the
      44-byte header; the special slot count; `pages` code slots; the
      code limit; SHA-1 hashes of 2^12-byte pages. */
  lemma {:induction false} SignatureDirectory(top: seq<byte>, data: u32, name: seq<byte>, entitlements: Option<seq<byte>>, sha1: Sha1)
    requires Signable(data, name, entitlements) && data <= |top|
    ensures var s, d := Signature(top, data, name, entitlements, sha1), SUPER_BLOB_SIZE + BLOB_INDEX_SIZE * BlobCount(entitlements.Some?);
      var special, pages := SpecialSlots(entitlements.Some?), CodeSlots(data);
      && d + CODE_DIRECTORY_SIZE <= |s|
      && Get32(s, d, true) == CSMAGIC_CODEDIRECTORY
      && Get32(s, d + 4, true) == CODE_DIRECTORY_SIZE + |name| + 1 + HASH_SIZE * (special + pages)
      && Get32(s, d + 8, true) == CD_VERSION
      && Get32(s, d + 12, true) == 0
      && Get32(s, d + 16, true) == CODE_DIRECTORY_SIZE + |name| + 1 + HASH_SIZE * special
      && Get32(s, d + 20, true) == CODE_DIRECTORY_SIZE
      && Get32(s, d + 24, true) == special
      && Get32(s, d + 28, true) == pages
      && Get32(s, d + 32, true) == data
      && s[d + 36 .. d + 40] == HASH_PARAMETERS
  {
    var s, p := Signature(top, data, name, entitlements, sha1), Layout(data, name, entitlements);
    var d := p.directory;
    var vs := DirectoryWords(p, data, CodeSlots(data));
    DirectoryWindow(top, data, name, entitlements, sha1);
    DirectoryFields(s, d, vs);
    assert Get32(s, d, true) == vs[0] && Get32(s, d + 4, true) == vs[1] && Get32(s, d + 8, true) == vs[2];
    assert Get32(s, d + 12, true) == vs[3] && Get32(s, d + 16, true) == vs[4] && Get32(s, d + 20, true) == vs[5];
    assert Get32(s, d + 24, true) == vs[6] && Get32(s, d + 28, true) == vs[7] && Get32(s, d + 32, true) == vs[8];
  }

  /** The CodeDirectory header in the signature. */
  lemma {:induction false} DirectoryWindow(top: seq<byte>, data: u32, name: seq<byte>, entitlements: Option<seq<byte>>, sha1: Sha1)
    requires Signable(data, name, entitlements) && data <= |top|
    ensures var s, p := Signature(top, data, name, entitlements, sha1), Layout(data, name, entitlements);
      p.directory + 44 <= |s| && s[p.directory .. p.directory + 44] == Words(DirectoryWords(p, data, CodeSlots(data))) + HASH_PARAMETERS + Zeros(4)
  {
    var p := Layout(data, name, entitlements);
    UnhashedParts(top, data, name, entitlements, sha1);
    SignatureKeeps(top, data, name, entitlements, sha1, p.directory, p.ident);
  }

  /** The identifier follows the CodeDirectory header, NUL-terminated. */
  lemma {:induction false} SignatureIdentifier(top: seq<byte>, data: u32, name: seq<byte>, entitlements: Option<seq<byte>>, sha1: Sha1)
    requires Signable(data, name, entitlements) && data <= |top|
    ensures var s, i := Signature(top, data, name, entitlements, sha1),
                        SUPER_BLOB_SIZE + BLOB_INDEX_SIZE * BlobCount(entitlements.Some?) + CODE_DIRECTORY_SIZE;
      i + |name| + 1 <= |s| && s[i .. i + |name| + 1] == name + [0]
  {
    var p := Layout(data, name, entitlements);
    UnhashedParts(top, data, name, entitlements, sha1);
    SignatureKeeps(top, data, name, entitlements, sha1, p.ident, p.slots);
  }

  /** Code hash i is the SHA-1 of page i of the code: bytes
      [4096 i, min(4096 (i + 1), data)). */
  lemma {:induction false} SignatureCodeHash(top: seq<byte>, data: u32, name: seq<byte>, entitlements: Option<seq<byte>>, sha1: Sha1, i: nat)
    requires Signable(data, name, entitlements) && data <= |top| && i < CodeSlots(data)
    ensures var s, h := Signature(top, data, name, entitlements, sha1), Layout(data, name, entitlements).hashes;
      var end := if PAGE_SIZE * (i + 1) <= data then PAGE_SIZE * (i + 1) else data;
      && h + HASH_SIZE * (i + 1) <= |s|
      && s[h + HASH_SIZE * i .. h + HASH_SIZE * (i + 1)] == sha1(top[PAGE_SIZE * i .. end])
  {
    var s, p := Signature(top, data, name, entitlements, sha1), Layout(data, name, entitlements);
    var pages := CodeSlots(data);
    HashesWindow(top, data, name, entitlements, sha1);
    PageSpan(data, i);
    HashOfPage(top, data, pages, sha1, pages, i);
    SliceWithin(s, p.hashes, PageHashes(top, data, pages, sha1, pages), HASH_SIZE * i, HASH_SIZE * (i + 1));
  }

  /** The code hashes in the signature. */
  lemma {:induction false} HashesWindow(top: seq<byte>, data: u32, name: seq<byte>, entitlements: Option<seq<byte>>, sha1: Sha1)
    requires Signable(data, name, entitlements) && data <= |top|
    ensures PagesBelow(|top|, data, CodeSlots(data))
    ensures var s, p, pages := Signature(top, data, name, entitlements, sha1), Layout(data, name, entitlements), CodeSlots(data);
      p.hashes + HASH_SIZE * pages <= |s| && s[p.hashes .. p.hashes + HASH_SIZE * pages] == PageHashes(top, data, pages, sha1, pages)
  {
    var p := Layout(data, name, entitlements);
    UnhashedParts(top, data, name, entitlements, sha1);
    SignatureKeeps(top, data, name, entitlements, sha1, p.hashes, p.requirements);
  }

  /** The special slots the loop fills: slot 2 (Requirements) and, with
      entitlements, slot 5 (Entitlements) hold the SHA-1 of the whole blob
      each names; slots 1, 3 and 4 stay zero. */
  lemma {:induction false} SignatureSpecialSlots(top: seq<byte>, data: u32, name: seq<byte>, entitlements: Option<seq<byte>>, sha1: Sha1)
    requires Signable(data, name, entitlements) && data <= |top|
    ensures var s, p := Signature(top, data, name, entitlements, sha1), Layout(data, name, entitlements);
      && p.slots + HASH_SIZE * p.special == p.hashes <= |s|
      && p.special == SpecialSlots(entitlements.Some?)
      && Slot(s, p, 1) == Zeros(HASH_SIZE)
      && Slot(s, p, 2) == sha1(REQUIREMENTS)
      && (entitlements.Some? ==>
        && Slot(s, p, 3) == Zeros(HASH_SIZE) && Slot(s, p, 4) == Zeros(HASH_SIZE)
        && Slot(s, p, 5) == sha1(EntitlementsBlob(entitlements)))
  {
    var u, p := Unhashed(top, data, name, entitlements, sha1), Layout(data, name, entitlements);
    UnhashedParts(top, data, name, entitlements, sha1);
    UnhashedIndexed(top, data, name, entitlements, sha1);
    ZeroedSlots(u, p, entitlements, sha1);
  }

  /** The loop's passes on a blob whose special slots are zero. */
  lemma {:induction false} ZeroedSlots(u: seq<byte>, p: Placement, entitlements: Option<seq<byte>>, sha1: Sha1)
    requires Indexed(u, p, entitlements) && u[p.slots .. p.hashes] == Zeros(HASH_SIZE * p.special)
    ensures var s := Slotted(u, p, entitlements, sha1, p.count);
      && Slot(s, p, 1) == Zeros(HASH_SIZE)
      && Slot(s, p, 2) == sha1(REQUIREMENTS)
      && (entitlements.Some? ==>
        && Slot(s, p, 3) == Zeros(HASH_SIZE) && Slot(s, p, 4) == Zeros(HASH_SIZE)
        && Slot(s, p, 5) == sha1(EntitlementsBlob(entitlements)))
  {
    var h := p.hashes;
    var w2 := Slotted(u, p, entitlements, sha1, 2);
    RequirementsPass(u, p, entitlements, sha1);
    if entitlements.Some? {
      var s := Slotted(u, p, entitlements, sha1, 3);
      var e := sha1(EntitlementsBlob(entitlements));
      assert s == Splice(w2, h - 5 * HASH_SIZE, e);
      SplicePiece(w2, h - 5 * HASH_SIZE, e);
      SpliceApart(w2, h - 5 * HASH_SIZE, e, h - 2 * HASH_SIZE, h - HASH_SIZE);
      SpliceApart(w2, h - 5 * HASH_SIZE, e, h - HASH_SIZE, h);
      ZeroRun(s, h - 4 * HASH_SIZE, h - 2 * HASH_SIZE);
      assert s[h - 4 * HASH_SIZE .. h - 3 * HASH_SIZE] == s[h - 4 * HASH_SIZE .. h - 2 * HASH_SIZE][.. HASH_SIZE];
      assert s[h - 3 * HASH_SIZE .. h - 2 * HASH_SIZE] == s[h - 4 * HASH_SIZE .. h - 2 * HASH_SIZE][HASH_SIZE ..];
    }
  }

  /** After the first two passes (the CodeDirectory entry, which is not
      hashed, and the Requirements), slot 2 holds the Requirements' hash
      and the other slots are still zero. */
  lemma {:induction false} RequirementsPass(u: seq<byte>, p: Placement, entitlements: Option<seq<byte>>, sha1: Sha1)
    requires Indexed(u, p, entitlements) && u[p.slots .. p.hashes] == Zeros(HASH_SIZE * p.special)
    ensures var w, h := Slotted(u, p, entitlements, sha1, 2), p.hashes;
      && w[h - 2 * HASH_SIZE .. h - HASH_SIZE] == sha1(REQUIREMENTS)
      && w[h - HASH_SIZE .. h] == Zeros(HASH_SIZE)
      && forall j :: p.slots <= j < h - 2 * HASH_SIZE ==> w[j] == 0
  {
    var h := p.hashes;
    assert forall j :: p.slots <= j < h ==> u[j] == u[p.slots .. h][j - p.slots];
    var w := Slotted(u, p, entitlements, sha1, 2);
    assert Slotted(u, p, entitlements, sha1, 1) == u;
    assert w == Splice(u, h - 2 * HASH_SIZE, sha1(REQUIREMENTS));
    ZeroRun(w, h - HASH_SIZE, h);
    SplicePiece(u, h - 2 * HASH_SIZE, sha1(REQUIREMENTS));
  }

  /** A run of zero bytes. */
  lemma {:induction false} ZeroRun(s: seq<byte>, lo: nat, hi: nat)
    requires lo <= hi <= |s| && forall j :: lo <= j < hi ==> s[j] == 0
    ensures s[lo..hi] == Zeros(hi - lo)
  {
    assert forall j :: 0 <= j < hi - lo ==> s[lo..hi][j] == s[lo + j];
  }

  // ---------------------------------------------------------------------
  // The room reserved for the signature (ldid.cpp:989-1001, 1289-1292)
  // ---------------------------------------------------------------------

  /** The generator's size check passes on the room the planner reserved:
      the slice's code limit rounded up to 16 is the generator's `data`,
      and the signature it writes fits the reserve. */
  lemma SignFitsReserve(limit: nat, data: u32, name: seq<byte>, entitlements: Option<seq<byte>>)
    requires data == Align(limit, 16) && data + PAGE_SIZE - 1 < TWO_32
    ensures Layout(data, name, entitlements).end
      <= Planner.ReservedSize(limit, |name|, EntitlementsSize(entitlements), false)
  {
    PlacingLength(|name|, EntitlementsSize(entitlements), CodeSlots(data));
    Planner.ReservedHoldsSignature(limit, |name|, EntitlementsSize(entitlements));
  }
}
