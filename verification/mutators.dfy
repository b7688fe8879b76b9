/** The third pass over a file (ldid.cpp:1111-1197): for every slice the
    -A architecture filter, the load-command scan with the LC_ID_DYLIB
    timestamp rewrite (-T), cryptid zeroing (-D), entitlements extraction
    (-e) and the in-place recomputation of the code hashes (-s). The -S
    generator that follows them is the Generator module.

    A slice is held in an array of its own bytes; the mapping around it
    and the other slices are not part of this model. */
module Mutators {
  import opened Bytes
  import opened Wrappers
  import opened CodeSign
  import opened MachO
  import Edits
  import Generator
  import Buffer

  // ---------------------------------------------------------------------
  // The architecture filter (ldid.cpp:474-476, 1116-1121)
  // ---------------------------------------------------------------------

  /** The -A request: the cputype and cpusubtype a slice must have. */
  datatype Arch = Arch(cputype: u32, cpusubtype: u32)

  /** Whether the pass goes on with a slice: without a filter always,
      with one when the cputype and the masked cpusubtype both match. */
  function Selected(s: seq<byte>, h: Header, filter: Option<Arch>): bool
    requires |s| >= MACH_HEADER_SIZE
  {
    filter.None? || (GetCPUType(s, h) == filter.value.cputype && GetCPUSubtype(s, h) == filter.value.cpusubtype)
  }

  /** The subtype the filter compares is the low byte of the stored
      cpusubtype: its first byte in a little-endian slice, its last in a
      byte-swapped one. */
  lemma SubtypeIsLowByte(s: seq<byte>, h: Header)
    requires |s| >= MACH_HEADER_SIZE
    ensures GetCPUSubtype(s, h) == if h.swapped then s[11] else s[8]
  {
    var b0, b1, b2, b3 := s[8], s[9], s[10], s[11];
    if h.swapped {
      LowByte(b3, b2, b1, b0);
    } else {
      LowByte(b0, b1, b2, b3);
    }
  }

  lemma LowByte(b0: byte, b1: byte, b2: byte, b3: byte)
    ensures Value32(b0, b1, b2, b3) % 0x100 == b0
  {
    var hi := b1 + 0x100 * b2 + 0x1_0000 * b3;
    Value32Digits(b0, b1, b2, b3);
    DivModSplit(hi, b0, 0x100);
  }

  /** A slice is selected exactly when its cputype matches and its
      cpusubtype matches in the low byte: the capability bits in the high
      byte are ignored, and a requested subtype above 0xff selects
      nothing. */
  lemma SelectedIffMatch(s: seq<byte>, h: Header, filter: Option<Arch>)
    requires |s| >= MACH_HEADER_SIZE && filter.Some?
    ensures Selected(s, h, filter) <==>
      && Get32(s, 4, h.swapped) == filter.value.cputype
      && filter.value.cpusubtype < 0x100
      && (if h.swapped then s[11] else s[8]) == filter.value.cpusubtype
  {
    SubtypeIsLowByte(s, h);
  }

  // ---------------------------------------------------------------------
  // The load-command scan and the timestamp rewrite (ldid.cpp:1126-1150)
  // ---------------------------------------------------------------------

  /** The -T request: a literal timestamp, or (-T-) the external hash of
      the slice seeded with the value, which is then 0 unless an earlier
      -T gave one. */
  datatype TimeRequest = TimeRequest(hashed: bool, value: u32)

  /** hash(k, length, initval): the external mixing hash of the slice's
      bytes. */
  type Hasher = (seq<byte>, u32) -> u32

  /** dylib_command.dylib.timestamp and encryption_info_command.cryptid. */
  const TIMESTAMP_FIELD: nat := 12
  const CRYPTID_FIELD: nat := 16

  /** A listed command lies in the slice and is shaped for its kind. */
  lemma Listed(s: seq<byte>, h: Header, c: nat)
    requires WellFormed(s, h) && c in GetLoadCommands(s, h)
    ensures c + 8 <= |s| && CommandShaped(s, c, h.swapped)
    ensures MinCmdSize(Cmd(s, c, h.swapped)) <= CmdSize(s, c, h.swapped)
    ensures c + CmdSize(s, c, h.swapped) <= |s|
  {
    var cmds := GetLoadCommands(s, h);
    var i :| 0 <= i < |cmds| && cmds[i] == c;
  }

  /** An edit of `len` bytes at offset `f` of a listed command, past its
      cmd and cmdsize and inside it, keeps the slice well formed, its
      command list, and the kind and size of every command. */
  lemma FieldEdit(s: seq<byte>, t: seq<byte>, h: Header, c: nat, f: nat, len: nat)
    requires WellFormed(s, h) && c in GetLoadCommands(s, h) && c + 8 <= |s|
    requires 8 <= f && f + len <= CmdSize(s, c, h.swapped) && Cmd(s, c, h.swapped) != LC_SEGMENT
    requires |t| == |s| && forall k {:trigger t[k]} :: 0 <= k < |s| && !(c + f <= k < c + f + len) ==> t[k] == s[k]
    ensures WellFormed(t, h) && GetLoadCommands(t, h) == GetLoadCommands(s, h)
    ensures forall o :: o in GetLoadCommands(s, h) ==>
      o + 8 <= |s| && Cmd(t, o, h.swapped) == Cmd(s, o, h.swapped) && CmdSize(t, o, h.swapped) == CmdSize(s, o, h.swapped)
  {
    Listed(s, h, c);
    Edits.EditKeepsCommands(s, t, h, c, c + f, len);
    forall o | o in GetLoadCommands(s, h)
      ensures o + 8 <= |s| && Cmd(t, o, h.swapped) == Cmd(s, o, h.swapped) && CmdSize(t, o, h.swapped) == CmdSize(s, o, h.swapped)
    {
      Listed(s, h, o);
      if o != c {
        Edits.Apart(s, h, o, c);
      }
      Get32Frame(t, s, o, o, h.swapped);
      Get32Frame(t, s, o + 4, o + 4, h.swapped);
    }
  }

  /** The rewrite of the LC_ID_DYLIB at `c`: its timestamp becomes the
      literal, or the hash of the whole slice taken with that field zeroed.
      Nothing else changes. */
  function Stamp(s: seq<byte>, c: nat, swapped: bool, t: TimeRequest, hash: Hasher): (r: seq<byte>)
    requires c + TIMESTAMP_FIELD + 4 <= |s|
    ensures |r| == |s|
    ensures Get32(r, c + TIMESTAMP_FIELD, swapped)
      == if t.hashed then hash(Splice(s, c + TIMESTAMP_FIELD, Zeros(4)), t.value) else t.value
    ensures forall k {:trigger r[k]} :: 0 <= k < |s| && !(c + TIMESTAMP_FIELD <= k < c + TIMESTAMP_FIELD + 4) ==> r[k] == s[k]
  {
    var timed := if t.hashed then hash(Splice(s, c + TIMESTAMP_FIELD, Zeros(4)), t.value) else t.value;
    Put32(s, c + TIMESTAMP_FIELD, timed, swapped)
  }

  /** The rewrite in place: with -T- the field is zeroed first, the slice
      hashed, and the hash stored over the zeroes. */
  method StampAt(a: array<byte>, c: nat, swapped: bool, t: TimeRequest, hash: Hasher)
    requires c + TIMESTAMP_FIELD + 4 <= a.Length
    modifies a
    ensures a[..] == Stamp(old(a[..]), c, swapped, t, hash)
  {
    ghost var s := a[..];
    var timed := t.value;
    if t.hashed {
      PutZero(a[..], c + TIMESTAMP_FIELD, swapped);
      Buffer.Store32(a, c + TIMESTAMP_FIELD, 0, swapped);
      timed := hash(a[..], t.value);
      SpliceOver(s, c + TIMESTAMP_FIELD, Zeros(4), Encode32(timed, swapped));
    }
    Buffer.Store32(a, c + TIMESTAMP_FIELD, timed, swapped);
  }

  /** The rewrite keeps the slice well formed, its command list, and the
      kind of every command. */
  lemma StampKeepsCommands(s: seq<byte>, h: Header, c: nat, t: TimeRequest, hash: Hasher)
    requires WellFormed(s, h) && c in GetLoadCommands(s, h) && c + 8 <= |s| && Cmd(s, c, h.swapped) == LC_ID_DYLIB
    ensures c + TIMESTAMP_FIELD + 4 <= |s|
    ensures var r := Stamp(s, c, h.swapped, t, hash);
      && WellFormed(r, h) && GetLoadCommands(r, h) == GetLoadCommands(s, h)
      && forall o :: o in GetLoadCommands(s, h) ==>
        o + 8 <= |s| && Cmd(r, o, h.swapped) == Cmd(s, o, h.swapped)
  {
    Listed(s, h, c);
    FieldEdit(s, Stamp(s, c, h.swapped, t, hash), h, c, TIMESTAMP_FIELD, 4);
  }

  /** The slice after the scan has passed the first k commands: every
      LC_ID_DYLIB among them rewritten when -T is given. The scan reads
      each kind as it reaches it; the rewrites before it leave kinds as
      they were (StampedKeepsCommands), so the original kinds decide. */
  function Stamped(s: seq<byte>, h: Header, time: Option<TimeRequest>, hash: Hasher, k: nat): (r: seq<byte>)
    requires WellFormed(s, h) && k <= NCmds(s, h)
    ensures |r| == |s|
  {
    if k == 0 then s
    else
      var acc := Stamped(s, h, time, hash, k - 1);
      var c := GetLoadCommands(s, h)[k - 1];
      if time.Some? && Cmd(s, c, h.swapped) == LC_ID_DYLIB then
        Listed(s, h, c);
        Stamp(acc, c, h.swapped, time.value, hash)
      else acc
  }

  /** The rewrites keep the slice well formed, its command list, and the
      kind of every command. */
  lemma {:induction false} StampedKeepsCommands(s: seq<byte>, h: Header, time: Option<TimeRequest>, hash: Hasher, k: nat)
    requires WellFormed(s, h) && k <= NCmds(s, h)
    ensures var r := Stamped(s, h, time, hash, k);
      && WellFormed(r, h) && GetLoadCommands(r, h) == GetLoadCommands(s, h)
      && forall o :: o in GetLoadCommands(s, h) ==>
        o + 8 <= |s| && Cmd(r, o, h.swapped) == Cmd(s, o, h.swapped)
  {
    if k == 0 {
      forall o | o in GetLoadCommands(s, h) ensures o + 8 <= |s| { Listed(s, h, o); }
    } else {
      StampedKeepsCommands(s, h, time, hash, k - 1);
      var acc := Stamped(s, h, time, hash, k - 1);
      var c := GetLoadCommands(s, h)[k - 1];
      assert c in GetLoadCommands(acc, h);
      if time.Some? && Cmd(s, c, h.swapped) == LC_ID_DYLIB {
        StampKeepsCommands(acc, h, c, time.value, hash);
      }
    }
  }

  /** Without -T the scan changes no byte. */
  lemma {:induction false} UnstampedKept(s: seq<byte>, h: Header, hash: Hasher, k: nat)
    requires WellFormed(s, h) && k <= NCmds(s, h)
    ensures Stamped(s, h, None, hash, k) == s
  {
    if k > 0 {
      UnstampedKept(s, h, hash, k - 1);
    }
  }

  /** The kind the scan reads at a command is the one it had before the
      scan began. */
  lemma StampedKind(s: seq<byte>, h: Header, time: Option<TimeRequest>, hash: Hasher, k: nat, o: nat)
    requires WellFormed(s, h) && k <= NCmds(s, h) && o in GetLoadCommands(s, h)
    ensures o + 8 <= |s| && Cmd(Stamped(s, h, time, hash, k), o, h.swapped) == Cmd(s, o, h.swapped)
  {
    StampedKeepsCommands(s, h, time, hash, k);
  }

  /** One command further: the slice as it was, or with that command's
      timestamp rewritten. */
  lemma StampedNext(s: seq<byte>, h: Header, time: Option<TimeRequest>, hash: Hasher, i: nat)
    requires WellFormed(s, h) && i < NCmds(s, h)
    ensures var c := GetLoadCommands(s, h)[i];
      && c + 8 <= |s|
      && (time.Some? && Cmd(s, c, h.swapped) == LC_ID_DYLIB ==> c + TIMESTAMP_FIELD + 4 <= |s|)
      && Stamped(s, h, time, hash, i + 1)
        == if time.Some? && Cmd(s, c, h.swapped) == LC_ID_DYLIB
           then Stamp(Stamped(s, h, time, hash, i), c, h.swapped, time.value, hash)
           else Stamped(s, h, time, hash, i)
  {
    Listed(s, h, GetLoadCommands(s, h)[i]);
  }

  /** The last command of a kind among `cmds`, as a byte offset. */
  function LastOf(s: seq<byte>, cmds: seq<nat>, kind: u32, swapped: bool): Option<nat>
    requires Shaped(s, cmds, swapped)
  {
    match FindLast(s, cmds, kind, swapped)
    case None => None
    case Some(i) => Some(cmds[i])
  }

  /** What the scan's pointer holds after n commands: the last of them
      with the kind, later ones overwriting earlier ones. */
  function LastIn(s: seq<byte>, cmds: seq<nat>, kind: u32, swapped: bool, n: nat): Option<nat>
    requires Shaped(s, cmds, swapped) && n <= |cmds|
  {
    if n == 0 then None
    else if Cmd(s, cmds[n - 1], swapped) == kind then Some(cmds[n - 1])
    else LastIn(s, cmds, kind, swapped, n - 1)
  }

  /** Overwriting on every match leaves the last match of the prefix. */
  lemma {:induction false} LastInPrefix(s: seq<byte>, cmds: seq<nat>, kind: u32, swapped: bool, n: nat)
    requires Shaped(s, cmds, swapped) && n <= |cmds|
    ensures Shaped(s, cmds[..n], swapped)
    ensures LastIn(s, cmds, kind, swapped, n) == LastOf(s, cmds[..n], kind, swapped)
  {
    if n > 0 {
      LastInPrefix(s, cmds, kind, swapped, n - 1);
      var p := cmds[..n];
      assert p[..n - 1] == cmds[..n - 1];
    }
  }

  /** The pointer the scan ends with is the last command of the kind. */
  lemma LastInIsLast(s: seq<byte>, h: Header, kind: u32)
    requires WellFormed(s, h)
    ensures var cmds := GetLoadCommands(s, h);
      LastIn(s, cmds, kind, h.swapped, |cmds|) == LastCommand(s, h, kind)
  {
    var cmds := GetLoadCommands(s, h);
    LastInPrefix(s, cmds, kind, h.swapped, |cmds|);
    assert cmds[..|cmds|] == cmds;
  }

  /** One more step of the overwriting fold. */
  /** The scan after i commands: the slice with their timestamps
      rewritten, and the pointers to the last LC_CODE_SIGNATURE and
      LC_ENCRYPTION_INFO among them. */
  ghost predicate Scanned(s: seq<byte>, h: Header, time: Option<TimeRequest>, hash: Hasher,
                          cmds: seq<nat>, t: seq<byte>, i: nat,
                          signature: Option<nat>, encryption: Option<nat>)
  {
    && WellFormed(s, h) && cmds == GetLoadCommands(s, h) && i <= |cmds|
    && t == Stamped(s, h, time, hash, i)
    && signature == LastIn(s, cmds, LC_CODE_SIGNATURE, h.swapped, i)
    && encryption == LastIn(s, cmds, LC_ENCRYPTION_INFO, h.swapped, i)
  }

  /** Before the first command: the slice as it was and no pointers. */
  lemma ScanStart(s: seq<byte>, h: Header, time: Option<TimeRequest>, hash: Hasher)
    requires WellFormed(s, h)
    ensures Scanned(s, h, time, hash, GetLoadCommands(s, h), s, 0, None, None)
  {
  }

  /** After the last command: every timestamp rewritten, and the pointers
      at the last command of each kind. */
  lemma ScanEnd(s: seq<byte>, h: Header, time: Option<TimeRequest>, hash: Hasher, t: seq<byte>,
                signature: Option<nat>, encryption: Option<nat>)
    requires WellFormed(s, h)
    requires Scanned(s, h, time, hash, GetLoadCommands(s, h), t, NCmds(s, h), signature, encryption)
    ensures t == Stamped(s, h, time, hash, NCmds(s, h))
    ensures signature == LastCommand(s, h, LC_CODE_SIGNATURE)
    ensures encryption == LastCommand(s, h, LC_ENCRYPTION_INFO)
  {
    LastInIsLast(s, h, LC_CODE_SIGNATURE);
    LastInIsLast(s, h, LC_ENCRYPTION_INFO);
  }

  /** The body of the scan for command i: its kind is read from the slice
      as it now is; an LC_CODE_SIGNATURE or LC_ENCRYPTION_INFO replaces
      the pointer held for its kind, and an LC_ID_DYLIB has its timestamp
      rewritten when -T is given. */
  method VisitCommand(a: array<byte>, h: Header, time: Option<TimeRequest>, hash: Hasher,
                      ghost s: seq<byte>, cmds: seq<nat>, i: nat,
                      signature: Option<nat>, encryption: Option<nat>)
    returns (signature': Option<nat>, encryption': Option<nat>)
    requires Scanned(s, h, time, hash, cmds, a[..], i, signature, encryption) && i < |cmds|
    modifies a
    ensures Scanned(s, h, time, hash, cmds, a[..], i + 1, signature', encryption')
  {
    var c := cmds[i];
    StampedKind(s, h, time, hash, i, c);
    StampedNext(s, h, time, hash, i);
    signature', encryption' := signature, encryption;
    var cmd := Buffer.Load32(a, c, h.swapped);
    if cmd == LC_CODE_SIGNATURE {
      signature' := Some(c);
    } else if cmd == LC_ENCRYPTION_INFO {
      encryption' := Some(c);
    } else if cmd == LC_ID_DYLIB && time.Some? {
      StampAt(a, c, h.swapped, time.value, hash);
    }
  }

  /** The scan: the last LC_CODE_SIGNATURE and the last
      LC_ENCRYPTION_INFO are what later steps use, and every LC_ID_DYLIB
      is rewritten on the way when -T is given. */
  method ScanCommands(a: array<byte>, h: Header, time: Option<TimeRequest>, hash: Hasher)
    returns (signature: Option<nat>, encryption: Option<nat>)
    requires WellFormed(a[..], h)
    modifies a
    ensures a[..] == Stamped(old(a[..]), h, time, hash, NCmds(old(a[..]), h))
    ensures signature == LastCommand(old(a[..]), h, LC_CODE_SIGNATURE)
    ensures encryption == LastCommand(old(a[..]), h, LC_ENCRYPTION_INFO)
  {
    ghost var s := a[..];
    var cmds := GetLoadCommands(a[..], h);
    signature, encryption := None, None;
    var i := 0;
    ScanStart(s, h, time, hash);
    while i < |cmds|
      invariant Scanned(s, h, time, hash, cmds, a[..], i, signature, encryption)
    {
      signature, encryption := VisitCommand(a, h, time, hash, s, cmds, i, signature, encryption);
      i := i + 1;
    }
    ScanEnd(s, h, time, hash, a[..], signature, encryption);
  }

  // ---------------------------------------------------------------------
  // Disabling encryption (ldid.cpp:1152-1155)
  // ---------------------------------------------------------------------

  /** The cryptid of the command at `c` cleared; nothing else changes. */
  function Decrypted(s: seq<byte>, c: nat): (r: seq<byte>)
    requires c + CRYPTID_FIELD + 4 <= |s|
    ensures |r| == |s|
    ensures forall k {:trigger r[k]} :: 0 <= k < |s| && !(c + CRYPTID_FIELD <= k < c + CRYPTID_FIELD + 4) ==> r[k] == s[k]
  {
    Splice(s, c + CRYPTID_FIELD, Zeros(4))
  }

  /** The cleared cryptid reads as 0 in either byte order. */
  lemma DecryptedReadsZero(s: seq<byte>, c: nat, swapped: bool)
    requires c + CRYPTID_FIELD + 4 <= |s|
    ensures Get32(Decrypted(s, c), c + CRYPTID_FIELD, swapped) == 0
  {
    SplicePiece(s, c + CRYPTID_FIELD, Zeros(4));
    ZerosRead(Decrypted(s, c), c + CRYPTID_FIELD, swapped);
  }

  /** -D: the cryptid of the LC_ENCRYPTION_INFO the scan found is stored
      as 0; a slice without one fails and is left as it was. The scan's
      command always has room for the field (MachO.LastCommand). */
  method DisableEncryption(a: array<byte>, swapped: bool, encryption: Option<nat>) returns (r: Result<()>)
    requires encryption.Some? ==> encryption.value + CRYPTID_FIELD + 4 <= a.Length
    modifies a
    ensures r.Err? <==> encryption.None?
    ensures r.Err? ==> r.error == MissingEncryption && a[..] == old(a[..])
    ensures r.Ok? ==> a[..] == Decrypted(old(a[..]), encryption.value)
  {
    if encryption.None? {
      return Err(MissingEncryption);
    }
    PutZero(a[..], encryption.value + CRYPTID_FIELD, swapped);
    Buffer.Store32(a, encryption.value + CRYPTID_FIELD, 0, swapped);
    r := Ok(());
  }

  /** After -D the slice stays well formed, with the same commands of the
      same kinds and sizes. */
  lemma DecryptedKeepsCommands(s: seq<byte>, h: Header, c: nat)
    requires WellFormed(s, h) && c in GetLoadCommands(s, h) && c + 8 <= |s| && Cmd(s, c, h.swapped) == LC_ENCRYPTION_INFO
    ensures c + CRYPTID_FIELD + 4 <= |s|
    ensures var t := Decrypted(s, c);
      && WellFormed(t, h) && GetLoadCommands(t, h) == GetLoadCommands(s, h)
      && forall o :: o in GetLoadCommands(s, h) ==>
        o + 8 <= |s| && Cmd(t, o, h.swapped) == Cmd(s, o, h.swapped) && CmdSize(t, o, h.swapped) == CmdSize(s, o, h.swapped)
  {
    Listed(s, h, c);
    FieldEdit(s, Decrypted(s, c), h, c, CRYPTID_FIELD, 4);
  }
}
