/** What the relocator does to one slice once its bytes sit in the output
    (ldid.cpp:1036-1105), as functions of the slice's bytes: the copy into
    zeroed room, the removal of the first LC_CODE_SIGNATURE (-r), the
    appended or reused LC_CODE_SIGNATURE pointed at the reserved room (-S),
    and __LINKEDIT stretched to the new end of the slice. */
module SliceEdits {
  import opened Bytes
  import opened Wrappers
  import opened MachO
  import opened Edits
  import opened Linkedit


  // ---------------------------------------------------------------------
  // Copy (ldid.cpp:1036, 1056)
  // ---------------------------------------------------------------------

  /** The output was zero-filled; memcpy puts the slice's first `limit`
      bytes at the start of its room of `len` bytes. */
  function Copied(s: seq<byte>, limit: nat, len: nat): (r: seq<byte>)
    requires limit <= |s| && limit <= len
    ensures |r| == len
  {
    s[..limit] + Zeros(len - limit)
  }

  /** The copy keeps everything up to the limit and is zero after it; when
      the commands lie below the limit it decodes as the original did and
      lists the same commands. */
  lemma CopiedSpec(s: seq<byte>, h: Header, limit: nat, len: nat)
    requires Valid(s, h) && h.CommandsStart() + SizeOfCmds(s, h) <= limit <= |s| && limit <= len
    ensures var r := Copied(s, limit, len);
      && (forall k {:trigger r[k]} :: 0 <= k < limit ==> r[k] == s[k])
      && (forall k :: limit <= k < len ==> r[k] == 0)
      && Valid(r, h)
      && NCmds(r, h) == NCmds(s, h) && SizeOfCmds(r, h) == SizeOfCmds(s, h)
      && GetLoadCommands(r, h) == GetLoadCommands(s, h)
  {
    var r := Copied(s, limit, len);
    var sw := h.swapped;
    var start, n := h.CommandsStart(), NCmds(s, h);
    var end := start + SizeOfCmds(s, h);
    assert forall k {:trigger r[k]} :: 0 <= k < limit ==> r[k] == s[k];
    assert r[..16] == s[..16];
    HeaderFrame(s, r);
    Get32Frame(s, r, 16, 16, sw);
    Get32Frame(s, r, 20, 20, sw);
    ChainFrame(s, r, start, n, end, sw);
    WalkFrame(s, r, start, n, end, sw);
  }

  // ---------------------------------------------------------------------
  // Strip (ldid.cpp:1070-1080)
  // ---------------------------------------------------------------------

  /** memmove of the commands after `c` down over it, then memset of the
      `next` bytes this frees at the end of the command area. */
  function Removed(t: seq<byte>, c: nat, next: nat, end: nat): (r: seq<byte>)
    requires c + next <= end <= |t|
    ensures |r| == |t|
    ensures forall k {:trigger r[k]} :: 0 <= k < c ==> r[k] == t[k]
    ensures forall k {:trigger r[k]} :: c <= k < end - next ==> r[k] == t[k + next]
    ensures forall k :: end - next <= k < end ==> r[k] == 0
    ensures forall k {:trigger r[k]} :: end <= k < |t| ==> r[k] == t[k]
  {
    var moved := Splice(t, c, t[c + next..end]);
    Splice(moved, end - next, Zeros(next))
  }

  /** Stores the header's ncmds and sizeofcmds. */
  function SetCounts(t: seq<byte>, h: Header, ncmds: u32, sizeofcmds: u32): (r: seq<byte>)
    requires |t| >= MACH_HEADER_SIZE
    ensures |r| == |t| && NCmds(r, h) == ncmds && SizeOfCmds(r, h) == sizeofcmds
    ensures forall k {:trigger r[k]} :: 0 <= k < |t| && (k < 16 || 24 <= k) ==> r[k] == t[k]
  {
    var counted := Put32(t, 16, ncmds, h.swapped);
    Get32PutOther(counted, 20, sizeofcmds, h.swapped, 16, h.swapped);
    Put32(counted, 20, sizeofcmds, h.swapped)
  }

  /** Removes the command at `c`: the later commands move down over it,
      the freed bytes at the end of the command area are cleared, and the
      header counts one command and `cmdsize` bytes fewer. Needs only that
      the command lies inside the command area, as the memmove does. */
  function Strip(t: seq<byte>, h: Header, c: nat): (r: seq<byte>)
    requires |t| >= MACH_HEADER_SIZE && h.CommandsStart() <= c && c + 8 <= |t| && NCmds(t, h) >= 1
    requires c + CmdSize(t, c, h.swapped) <= h.CommandsStart() + SizeOfCmds(t, h) <= |t|
    ensures |r| == |t|
    ensures NCmds(r, h) == NCmds(t, h) - 1 && SizeOfCmds(r, h) == SizeOfCmds(t, h) - CmdSize(t, c, h.swapped)
  {
    var total := SizeOfCmds(t, h);
    var next := CmdSize(t, c, h.swapped);
    SetCounts(Removed(t, c, next, h.CommandsStart() + total), h, NCmds(t, h) - 1, total - next)
  }

  /** Bytes before the command are as they were, but for the two header
      counts; the rest of the command area holds the later commands moved
      down by `cmdsize`; the last `cmdsize` bytes of the old area are zero;
      bytes past it are untouched. */
  lemma StripBytes(t: seq<byte>, h: Header, c: nat)
    requires |t| >= MACH_HEADER_SIZE && h.CommandsStart() <= c && c + 8 <= |t| && NCmds(t, h) >= 1
    requires c + CmdSize(t, c, h.swapped) <= h.CommandsStart() + SizeOfCmds(t, h) <= |t|
    ensures var r, next := Strip(t, h, c), CmdSize(t, c, h.swapped);
      var end := h.CommandsStart() + SizeOfCmds(t, h);
      && (forall k {:trigger r[k]} :: 0 <= k < c && (k < 16 || 24 <= k) ==> r[k] == t[k])
      && (forall k {:trigger r[k]} :: c <= k < end - next ==> r[k] == t[k + next])
      && (forall k {:trigger r[k]} :: end - next <= k < end ==> r[k] == 0)
      && (forall k {:trigger r[k]} :: end <= k < |t| ==> r[k] == t[k])
  {
    var total := SizeOfCmds(t, h);
    var next := CmdSize(t, c, h.swapped);
    var removed := Removed(t, c, next, h.CommandsStart() + total);
    CountsFrame(removed, h, NCmds(t, h) - 1, total - next, c);
  }

  /** Setting the counts keeps every byte from `from` on, past the header. */
  lemma CountsFrame(m: seq<byte>, h: Header, ncmds: u32, sizeofcmds: u32, from: nat)
    requires |m| >= MACH_HEADER_SIZE && from >= 24
    ensures var r := SetCounts(m, h, ncmds, sizeofcmds);
      forall k {:trigger r[k]} :: from <= k < |m| ==> r[k] == m[k]
  {
  }

  /** A listed command lies inside the command area. */
  lemma Listed(t: seq<byte>, h: Header, c: nat)
    requires WellFormed(t, h) && c in GetLoadCommands(t, h)
    ensures c + 8 <= |t| && h.CommandsStart() <= c
    ensures c + CmdSize(t, c, h.swapped) <= h.CommandsStart() + SizeOfCmds(t, h) <= |t|
    ensures CommandShaped(t, c, h.swapped) && NCmds(t, h) >= 1
  {
    var cmds := GetLoadCommands(t, h);
    var j :| 0 <= j < |cmds| && cmds[j] == c;
  }

  /** The commands left after the removal still form a well-formed list,
      and the header still decodes as before. The list is the old one
      without `c`: the commands before it where they were, the ones after
      it `cmdsize` bytes earlier. */
  lemma StripSpec(t: seq<byte>, h: Header, c: nat)
    requires WellFormed(t, h) && c in GetLoadCommands(t, h)
    ensures h.CommandsStart() <= c && c + 8 <= |t| && NCmds(t, h) >= 1
    ensures c + CmdSize(t, c, h.swapped) <= h.CommandsStart() + SizeOfCmds(t, h)
    ensures WellFormed(Strip(t, h, c), h) && ParseHeader(Strip(t, h, c)) == ParseHeader(t)
    ensures var cmds := GetLoadCommands(t, h);
      forall j :: 0 <= j < |cmds| && cmds[j] == c ==>
        GetLoadCommands(Strip(t, h, c), h) == cmds[..j] + Lowered(cmds[j + 1..], CmdSize(t, c, h.swapped))
  {
    var cmds := GetLoadCommands(t, h);
    var i :| 0 <= i < |cmds| && cmds[i] == c;
    StripOne(t, h, c, i);
    forall j | 0 <= j < |cmds| && cmds[j] == c
      ensures GetLoadCommands(Strip(t, h, c), h) == cmds[..j] + Lowered(cmds[j + 1..], CmdSize(t, c, h.swapped))
    {
      StripOne(t, h, c, j);
    }
  }

  /** StripSpec for the command listed `j`-th. */
  lemma StripOne(t: seq<byte>, h: Header, c: nat, j: nat)
    requires WellFormed(t, h) && j < |GetLoadCommands(t, h)| && GetLoadCommands(t, h)[j] == c
    ensures h.CommandsStart() <= c && c + 8 <= |t| && NCmds(t, h) >= 1
    ensures c + CmdSize(t, c, h.swapped) <= h.CommandsStart() + SizeOfCmds(t, h)
    ensures WellFormed(Strip(t, h, c), h) && ParseHeader(Strip(t, h, c)) == ParseHeader(t)
    ensures var cmds := GetLoadCommands(t, h);
      GetLoadCommands(Strip(t, h, c), h) == cmds[..j] + Lowered(cmds[j + 1..], CmdSize(t, c, h.swapped))
  {
    var start := h.CommandsStart();
    Listed(t, h, c);
    WalkAt(t, start, NCmds(t, h), start + SizeOfCmds(t, h), h.swapped, j);
    StripChain(t, h, c, j);
    StripList(t, h, c, j);
    ListsAre(t, Strip(t, h, c), h, j, CmdSize(t, c, h.swapped));
    RemoveAtSplit(GetLoadCommands(t, h), j, CmdSize(t, c, h.swapped));
  }

  /** The walk facts of StripList in terms of the listed commands. */
  lemma ListsAre(t: seq<byte>, r: seq<byte>, h: Header, j: nat, next: nat)
    requires WellFormed(t, h) && WellFormed(r, h) && NCmds(r, h) == NCmds(t, h) - 1 && j < NCmds(t, h)
    requires j < |Walk(t, h.CommandsStart(), NCmds(t, h), h.swapped)|
    requires Walk(r, h.CommandsStart(), NCmds(t, h) - 1, h.swapped) == RemoveAt(Walk(t, h.CommandsStart(), NCmds(t, h), h.swapped), j, next)
    ensures j < |GetLoadCommands(t, h)| && GetLoadCommands(r, h) == RemoveAt(GetLoadCommands(t, h), j, next)
  {
  }

  lemma StripChain(t: seq<byte>, h: Header, c: nat, j: nat)
    requires |t| >= MACH_HEADER_SIZE && h.CommandsStart() <= c && c + 8 <= |t| && NCmds(t, h) >= 1
    requires c + CmdSize(t, c, h.swapped) <= h.CommandsStart() + SizeOfCmds(t, h) <= |t|
    requires Chain(t, h.CommandsStart(), NCmds(t, h), h.CommandsStart() + SizeOfCmds(t, h), h.swapped)
    requires j < NCmds(t, h) && At(t, h.CommandsStart(), j, c, h.swapped)
    ensures WellFormed(Strip(t, h, c), h) && ParseHeader(Strip(t, h, c)) == ParseHeader(t)
  {
    StripBytes(t, h, c);
    RemovedChain(t, h, c, j, Strip(t, h, c));
  }

  lemma StripList(t: seq<byte>, h: Header, c: nat, j: nat)
    requires |t| >= MACH_HEADER_SIZE && h.CommandsStart() <= c && c + 8 <= |t| && NCmds(t, h) >= 1
    requires c + CmdSize(t, c, h.swapped) <= h.CommandsStart() + SizeOfCmds(t, h) <= |t|
    requires Chain(t, h.CommandsStart(), NCmds(t, h), h.CommandsStart() + SizeOfCmds(t, h), h.swapped)
    requires j < NCmds(t, h) && At(t, h.CommandsStart(), j, c, h.swapped)
    ensures var start, n := h.CommandsStart(), NCmds(t, h);
      j < |Walk(t, start, n, h.swapped)|
      && Walk(Strip(t, h, c), start, n - 1, h.swapped) == RemoveAt(Walk(t, start, n, h.swapped), j, CmdSize(t, c, h.swapped))
  {
    StripBytes(t, h, c);
    StripWalk(t, h, c, j, Strip(t, h, c));
  }

  /** StripList over any `r` holding the bytes Strip leaves. */
  lemma StripWalk(t: seq<byte>, h: Header, c: nat, j: nat, r: seq<byte>)
    requires |t| >= MACH_HEADER_SIZE && |r| == |t| && h.CommandsStart() <= c && c + 8 <= |t| && NCmds(t, h) >= 1
    requires c + CmdSize(t, c, h.swapped) <= h.CommandsStart() + SizeOfCmds(t, h) <= |t|
    requires Chain(t, h.CommandsStart(), NCmds(t, h), h.CommandsStart() + SizeOfCmds(t, h), h.swapped)
    requires j < NCmds(t, h) && At(t, h.CommandsStart(), j, c, h.swapped)
    requires forall k {:trigger r[k]} :: 0 <= k < c && (k < 16 || 24 <= k) ==> r[k] == t[k]
    requires forall k {:trigger r[k]} :: c <= k < h.CommandsStart() + SizeOfCmds(t, h) - CmdSize(t, c, h.swapped) ==> r[k] == t[k + CmdSize(t, c, h.swapped)]
    ensures var start, n := h.CommandsStart(), NCmds(t, h);
      j < |Walk(t, start, n, h.swapped)|
      && Walk(r, start, n - 1, h.swapped) == RemoveAt(Walk(t, start, n, h.swapped), j, CmdSize(t, c, h.swapped))
  {
    var start := h.CommandsStart();
    var next, end := CmdSize(t, c, h.swapped), start + SizeOfCmds(t, h);
    assert forall k {:trigger r[k]} :: start <= k < c ==> r[k] == t[k];
    RemovedWalk(t, r, start, NCmds(t, h), end, h.swapped, c, j, next);
  }

  /** ... and the walk of the remaining commands is the old one without
      command `j`, the later ones `next` bytes earlier. */
  lemma RemovedWalk(t: seq<byte>, r: seq<byte>, o: nat, n: nat, end: nat, swapped: bool, c: nat, j: nat, next: nat)
    requires |r| == |t| && c + 8 <= |t| && next == CmdSize(t, c, swapped) && c + next <= end <= |t|
    requires Chain(t, o, n, end, swapped) && j < n && At(t, o, j, c, swapped)
    requires forall k {:trigger r[k]} :: o <= k < c ==> r[k] == t[k]
    requires forall k {:trigger r[k]} :: c <= k < end - next ==> r[k] == t[k + next]
    ensures j < |Walk(t, o, n, swapped)| && Walk(r, o, n - 1, swapped) == RemoveAt(Walk(t, o, n, swapped), j, next)
  {
    ChainSpans(t, o, n, end, swapped);
    WalkRemove(t, r, o, n, end, swapped, j, c, next);
  }

  /** The chain and header facts behind StripChain, stated over any `r`
      with the bytes Strip leaves. */
  lemma RemovedChain(t: seq<byte>, h: Header, c: nat, j: nat, r: seq<byte>)
    requires |t| >= MACH_HEADER_SIZE && |r| == |t| && h.CommandsStart() <= c && c + 8 <= |t| && NCmds(t, h) >= 1
    requires c + CmdSize(t, c, h.swapped) <= h.CommandsStart() + SizeOfCmds(t, h) <= |t|
    requires Chain(t, h.CommandsStart(), NCmds(t, h), h.CommandsStart() + SizeOfCmds(t, h), h.swapped)
    requires j < NCmds(t, h) && At(t, h.CommandsStart(), j, c, h.swapped)
    requires forall k {:trigger r[k]} :: 0 <= k < c && (k < 16 || 24 <= k) ==> r[k] == t[k]
    requires forall k {:trigger r[k]} :: c <= k < h.CommandsStart() + SizeOfCmds(t, h) - CmdSize(t, c, h.swapped) ==> r[k] == t[k + CmdSize(t, c, h.swapped)]
    requires NCmds(r, h) == NCmds(t, h) - 1 && SizeOfCmds(r, h) == SizeOfCmds(t, h) - CmdSize(t, c, h.swapped)
    ensures WellFormed(r, h) && ParseHeader(r) == ParseHeader(t)
  {
    RemovedHeader(t, r, c);
    RemovedWellFormed(t, r, h, h.CommandsStart(), NCmds(t, h), h.CommandsStart() + SizeOfCmds(t, h), c, j, CmdSize(t, c, h.swapped));
  }

  /** The header of any `r` holding the bytes Strip leaves decodes as
      before: Strip changes only the counts. */
  lemma RemovedHeader(t: seq<byte>, r: seq<byte>, c: nat)
    requires |t| >= MACH_HEADER_SIZE && |r| == |t| && 16 <= c <= |t|
    requires forall k {:trigger r[k]} :: 0 <= k < c && (k < 16 || 24 <= k) ==> r[k] == t[k]
    ensures ParseHeader(r) == ParseHeader(t)
  {
    assert forall k {:trigger r[k]} :: 0 <= k < 16 ==> r[k] == t[k];
    HeaderKept(t, r);
  }

  /** The commands left in any `r` holding the bytes Strip leaves are well
      formed, given the counts the header now holds. */
  lemma RemovedWellFormed(t: seq<byte>, r: seq<byte>, h: Header, start: nat, n: nat, end: nat, c: nat, j: nat, next: nat)
    requires start == h.CommandsStart() && |r| == |t| && |r| >= MACH_HEADER_SIZE && start <= c
    requires c + 8 <= |t| && next == CmdSize(t, c, h.swapped) && c + next <= end <= |t|
    requires Chain(t, start, n, end, h.swapped) && j < n && At(t, start, j, c, h.swapped)
    requires forall k {:trigger r[k]} :: 0 <= k < c && (k < 16 || 24 <= k) ==> r[k] == t[k]
    requires forall k {:trigger r[k]} :: c <= k < end - next ==> r[k] == t[k + next]
    requires NCmds(r, h) == n - 1 && SizeOfCmds(r, h) == end - start - next
    ensures WellFormed(r, h)
  {
    assert forall k {:trigger r[k]} :: start <= k < c ==> r[k] == t[k];
    ChainRemove(t, r, start, n, end, h.swapped, j, c, next);
  }

  // ---------------------------------------------------------------------
  // Append (ldid.cpp:1082-1089)
  // ---------------------------------------------------------------------

  /** Where the command area ends: where -S writes a new command. */
  function CommandsEnd(t: seq<byte>, h: Header): nat
    requires |t| >= MACH_HEADER_SIZE
  {
    h.CommandsStart() + SizeOfCmds(t, h)
  }

  /** Writes cmd and cmdsize of a 16-byte LC_CODE_SIGNATURE right after
      the last command and counts it in the header, in 32-bit arithmetic.
      Nothing checks that the bytes written over were free. */
  function AppendSignature(t: seq<byte>, h: Header): (r: seq<byte>)
    requires |t| >= MACH_HEADER_SIZE && CommandsEnd(t, h) + 8 <= |t|
    ensures |r| == |t|
    ensures var e := CommandsEnd(t, h);
      && Cmd(r, e, h.swapped) == LC_CODE_SIGNATURE && CmdSize(r, e, h.swapped) == LINKEDIT_DATA_SIZE
      && (forall k {:trigger r[k]} :: 0 <= k < |t| && (k < 16 || 24 <= k < e || e + 8 <= k) ==> r[k] == t[k])
    ensures NCmds(r, h) == Wrap32(NCmds(t, h) + 1) && SizeOfCmds(r, h) == Wrap32(SizeOfCmds(t, h) + LINKEDIT_DATA_SIZE)
  {
    var e, sw := CommandsEnd(t, h), h.swapped;
    var counted := SetCounts(t, h, Wrap32(NCmds(t, h) + 1), Wrap32(SizeOfCmds(t, h) + LINKEDIT_DATA_SIZE));
    var tagged := Put32(counted, e, LC_CODE_SIGNATURE, sw);
    Get32PutOther(counted, e, LC_CODE_SIGNATURE, sw, 16, sw);
    Get32PutOther(counted, e, LC_CODE_SIGNATURE, sw, 20, sw);
    Get32PutOther(tagged, e + 4, LINKEDIT_DATA_SIZE, sw, 16, sw);
    Get32PutOther(tagged, e + 4, LINKEDIT_DATA_SIZE, sw, 20, sw);
    Get32PutOther(tagged, e + 4, LINKEDIT_DATA_SIZE, sw, e, sw);
    Put32(tagged, e + 4, LINKEDIT_DATA_SIZE, sw)
  }

  /** In a slice of fewer than 2^32 bytes with 16 free bytes after its
      commands, the appended command is the last of a well-formed list
      that is one command and 16 bytes longer. */
  lemma AppendSpec(t: seq<byte>, h: Header)
    requires Valid(t, h) && CommandsEnd(t, h) + LINKEDIT_DATA_SIZE <= |t| < TWO_32
    ensures var r := AppendSignature(t, h);
      && Valid(r, h)
      && NCmds(r, h) == NCmds(t, h) + 1 && SizeOfCmds(r, h) == SizeOfCmds(t, h) + LINKEDIT_DATA_SIZE
      && GetLoadCommands(r, h) == GetLoadCommands(t, h) + [CommandsEnd(t, h)]
  {
    AppendFits(t, h);
    var r := AppendSignature(t, h);
    var start, e := h.CommandsStart(), CommandsEnd(t, h);
    assert forall k {:trigger r[k]} :: 0 <= k < 16 ==> r[k] == t[k];
    assert forall k {:trigger r[k]} :: start <= k < e ==> r[k] == t[k];
    AppendedChain(t, r, h, e);
    AppendedWalk(t, r, h, e);
    HeaderKept(t, r);
  }

  /** In a slice of fewer than 2^32 bytes neither count can wrap when a
      command is added. */
  lemma AppendFits(t: seq<byte>, h: Header)
    requires WellFormed(t, h) && CommandsEnd(t, h) + LINKEDIT_DATA_SIZE <= |t| < TWO_32
    ensures NCmds(t, h) + 1 < TWO_32 && SizeOfCmds(t, h) + LINKEDIT_DATA_SIZE < TWO_32
  {
    ChainCount(t, h.CommandsStart(), NCmds(t, h), CommandsEnd(t, h), h.swapped);
  }

  /** The chain facts behind AppendSpec, over any `r` with the bytes
      AppendSignature leaves. */
  lemma AppendedChain(t: seq<byte>, r: seq<byte>, h: Header, e: nat)
    requires WellFormed(t, h) && e == CommandsEnd(t, h) && e + LINKEDIT_DATA_SIZE <= |r| && |r| == |t|
    requires Cmd(r, e, h.swapped) == LC_CODE_SIGNATURE && CmdSize(r, e, h.swapped) == LINKEDIT_DATA_SIZE
    requires forall k {:trigger r[k]} :: h.CommandsStart() <= k < e ==> r[k] == t[k]
    requires NCmds(r, h) == NCmds(t, h) + 1 && SizeOfCmds(r, h) == SizeOfCmds(t, h) + LINKEDIT_DATA_SIZE
    ensures WellFormed(r, h)
  {
    ChainAppend(t, r, h.CommandsStart(), NCmds(t, h), e, h.swapped);
  }

  /** ... and the walk facts. */
  lemma AppendedWalk(t: seq<byte>, r: seq<byte>, h: Header, e: nat)
    requires WellFormed(t, h) && WellFormed(r, h) && e == CommandsEnd(t, h) && e + 8 <= |r|
    requires forall k {:trigger r[k]} :: h.CommandsStart() <= k < e ==> r[k] == t[k]
    requires NCmds(r, h) == NCmds(t, h) + 1
    ensures GetLoadCommands(r, h) == GetLoadCommands(t, h) + [e]
  {
    WalkAppend(t, r, h.CommandsStart(), NCmds(t, h), e, h.swapped);
  }

  // ---------------------------------------------------------------------
  // Point (ldid.cpp:1091-1092)
  // ---------------------------------------------------------------------

  /** Stores dataoff and datasize of the LC_CODE_SIGNATURE at `c`. */
  function PointSignature(t: seq<byte>, h: Header, c: nat, dataoff: u32, datasize: u32): (r: seq<byte>)
    requires c + LINKEDIT_DATA_SIZE <= |t|
    ensures |r| == |t| && DataOff(r, c, h.swapped) == dataoff && DataSize(r, c, h.swapped) == datasize
    ensures forall k {:trigger r[k]} :: 0 <= k < |t| && !(c + 8 <= k < c + 16) ==> r[k] == t[k]
  {
    var placed := Put32(t, c + 8, dataoff, h.swapped);
    Get32PutOther(placed, c + 12, datasize, h.swapped, c + 8, h.swapped);
    Put32(placed, c + 12, datasize, h.swapped)
  }

  /** Pointing a listed LC_CODE_SIGNATURE elsewhere keeps the slice valid
      and keeps its commands and segments. */
  lemma PointSpec(t: seq<byte>, h: Header, c: nat, dataoff: u32, datasize: u32)
    requires Valid(t, h) && c in GetLoadCommands(t, h) && Cmd(t, c, h.swapped) == LC_CODE_SIGNATURE
    ensures c + LINKEDIT_DATA_SIZE <= |t|
    ensures var r := PointSignature(t, h, c, dataoff, datasize);
      && Valid(r, h)
      && NCmds(r, h) == NCmds(t, h) && SizeOfCmds(r, h) == SizeOfCmds(t, h)
      && GetLoadCommands(r, h) == GetLoadCommands(t, h)
      && (forall name :: GetSegments(r, h, name) == GetSegments(t, h, name))
      && (forall name :: GetSegments64(r, h, name) == GetSegments64(t, h, name))
  {
    Listed(t, h, c);
    var r := PointSignature(t, h, c, dataoff, datasize);
    EditInCommand(t, r, h, c, c + 8, 8);
    HeaderKept(t, r);
  }

  // ---------------------------------------------------------------------
  // The whole edit of one slice (ldid.cpp:1059-1105)
  // ---------------------------------------------------------------------

  /** The -r stage (ldid.cpp:1059-1080): the first LC_CODE_SIGNATURE is
      found and, when stripping, removed. Gives the slice and the
      signature command it still has, if any. */
  function StripStage(t: seq<byte>, h: Header, strip: bool): (r: (seq<byte>, Option<nat>))
    requires Valid(t, h)
    ensures |r.0| == |t| && Valid(r.0, h) && CommandsEnd(r.0, h) <= CommandsEnd(t, h)
    ensures r.1.Some? ==> r.1.value in GetLoadCommands(r.0, h) && Cmd(r.0, r.1.value, h.swapped) == LC_CODE_SIGNATURE
    ensures !strip ==> r == (t, FirstCommand(t, h, LC_CODE_SIGNATURE))
    ensures strip ==> r.1.None?
    ensures strip && FirstCommand(t, h, LC_CODE_SIGNATURE).None? ==> r.0 == t
    ensures strip && FirstCommand(t, h, LC_CODE_SIGNATURE).Some? ==>
      var c := FirstCommand(t, h, LC_CODE_SIGNATURE).value;
      && c + 8 <= |t|
      && NCmds(r.0, h) == NCmds(t, h) - 1 && SizeOfCmds(r.0, h) == SizeOfCmds(t, h) - CmdSize(t, c, h.swapped)
  {
    var first := FirstCommand(t, h, LC_CODE_SIGNATURE);
    if strip && first.Some? then
      StripSpec(t, h, first.value);
      (Strip(t, h, first.value), None)
    else
      (t, first)
  }

  /** Points the listed LC_CODE_SIGNATURE at `c` at the reserved room
      (ldid.cpp:1089-1091): the command list is unchanged. */
  function Repoint(s: seq<byte>, h: Header, c: nat, dataoff: u32, datasize: u32): (r: seq<byte>)
    requires Valid(s, h) && c in GetLoadCommands(s, h) && Cmd(s, c, h.swapped) == LC_CODE_SIGNATURE
    ensures |r| == |s| && Valid(r, h) && c + LINKEDIT_DATA_SIZE <= |r|
    ensures GetLoadCommands(r, h) == GetLoadCommands(s, h)
    ensures Cmd(r, c, h.swapped) == LC_CODE_SIGNATURE
    ensures DataOff(r, c, h.swapped) == dataoff && DataSize(r, c, h.swapped) == datasize
  {
    PointSpec(s, h, c, dataoff, datasize);
    var p := PointSignature(s, h, c, dataoff, datasize);
    Get32Frame(p, s, c, c, h.swapped);
    p
  }

  /** Appends a new LC_CODE_SIGNATURE after the last command and points it
      at the reserved room (ldid.cpp:1082-1091): it becomes the last
      listed command. */
  function AppendPointed(s: seq<byte>, h: Header, dataoff: u32, datasize: u32): (r: seq<byte>)
    requires Valid(s, h) && |s| < TWO_32 && CommandsEnd(s, h) + LINKEDIT_DATA_SIZE <= |s|
    ensures |r| == |s| && Valid(r, h) && CommandsEnd(s, h) + LINKEDIT_DATA_SIZE <= |r|
    ensures GetLoadCommands(r, h) == GetLoadCommands(s, h) + [CommandsEnd(s, h)]
    ensures Cmd(r, CommandsEnd(s, h), h.swapped) == LC_CODE_SIGNATURE
    ensures DataOff(r, CommandsEnd(s, h), h.swapped) == dataoff && DataSize(r, CommandsEnd(s, h), h.swapped) == datasize
  {
    AppendSpec(s, h);
    var a, e := AppendSignature(s, h), CommandsEnd(s, h);
    assert e in GetLoadCommands(a, h);
    Repoint(a, h, e, dataoff, datasize)
  }

  /** The -S stage (ldid.cpp:1082-1092): the signature command left by the
      previous stage is reused, or a new one is appended after the last
      command; either way it is pointed at the reserved room. Gives the
      slice and where its signature command is. */
  function SignStage(s: seq<byte>, h: Header, sig: Option<nat>, dataoff: u32, datasize: u32): (r: (seq<byte>, nat))
    requires Valid(s, h) && |s| < TWO_32
    requires sig.Some? ==> sig.value in GetLoadCommands(s, h) && Cmd(s, sig.value, h.swapped) == LC_CODE_SIGNATURE
    requires sig.None? ==> CommandsEnd(s, h) + LINKEDIT_DATA_SIZE <= |s|
    ensures |r.0| == |s| && Valid(r.0, h)
    ensures r.1 in GetLoadCommands(r.0, h) && r.1 + LINKEDIT_DATA_SIZE <= |r.0|
    ensures Cmd(r.0, r.1, h.swapped) == LC_CODE_SIGNATURE
    ensures DataOff(r.0, r.1, h.swapped) == dataoff && DataSize(r.0, r.1, h.swapped) == datasize
    ensures sig.Some? ==> r.1 == sig.value && GetLoadCommands(r.0, h) == GetLoadCommands(s, h)
    ensures sig.None? ==> r.1 == CommandsEnd(s, h) && GetLoadCommands(r.0, h) == GetLoadCommands(s, h) + [CommandsEnd(s, h)]
  {
    match sig
    case Some(c) => (Repoint(s, h, c, dataoff, datasize), c)
    case None =>
      var r := AppendPointed(s, h, dataoff, datasize);
      assert CommandsEnd(s, h) in GetLoadCommands(r, h);
      (r, CommandsEnd(s, h))
  }

  /** Both command stages: the slice after -r and -S, and where its
      signature command is when signing. */
  function SignedSlice(w: seq<byte>, h: Header, strip: bool, sign: bool, dataoff: u32, datasize: u32): (r: (seq<byte>, Option<nat>))
    requires Valid(w, h) && |w| < TWO_32
    requires sign ==> CommandsEnd(w, h) + LINKEDIT_DATA_SIZE <= |w|
    ensures |r.0| == |w| && Valid(r.0, h)
    ensures r.1.Some? <==> sign
    ensures r.1.Some? ==> var c := r.1.value;
      && c in GetLoadCommands(r.0, h) && c + LINKEDIT_DATA_SIZE <= |r.0|
      && Cmd(r.0, c, h.swapped) == LC_CODE_SIGNATURE && DataOff(r.0, c, h.swapped) == dataoff && DataSize(r.0, c, h.swapped) == datasize
  {
    var (stripped, sig) := StripStage(w, h, strip);
    if sign then
      var (signed, c) := SignStage(stripped, h, sig, dataoff, datasize);
      (signed, Some(c))
    else
      (stripped, None)
  }

  /** What the relocator does to a slice copied into its room `w`
      (ldid.cpp:1059-1105): the optional strip, the optional signature
      command pointing at `dataoff` and `datasize`, then both __LINKEDIT
      loops with the room's end as the slice's new end. The result is a
      valid slice with the same header. */
  function EditSlice(w: seq<byte>, h: Header, strip: bool, sign: bool, dataoff: u32, datasize: u32): (r: seq<byte>)
    requires Valid(w, h) && |w| < TWO_32
    requires sign ==> CommandsEnd(w, h) + LINKEDIT_DATA_SIZE <= |w|
    ensures |r| == |w| && Valid(r, h)
    ensures forall p :: p in GetSegments(r, h, LINKEDIT) ==> p + 40 <= |r| && Ends32(r, p, |w|, h.swapped)
    ensures forall p :: p in GetSegments64(r, h, LINKEDIT) ==> p + 56 <= |r| && Ends64(r, p, |w|, h.swapped)
  {
    var t := SignedSlice(w, h, strip, sign, dataoff, datasize).0;
    ResizedEnds(t, h, |w|);
    ResizeLinkedit(t, h, |w|)
  }

  /** When signing, the edited slice lists the signature command the -S
      stage chose, pointing at the reserved room: the __LINKEDIT stretch
      does not touch it. */
  lemma EditedSignature(w: seq<byte>, h: Header, strip: bool, dataoff: u32, datasize: u32)
    requires Valid(w, h) && |w| < TWO_32
    requires CommandsEnd(w, h) + LINKEDIT_DATA_SIZE <= |w|
    ensures var c := SignedSlice(w, h, strip, true, dataoff, datasize).1.value;
      var r := EditSlice(w, h, strip, true, dataoff, datasize);
      && c in GetLoadCommands(r, h) && c + LINKEDIT_DATA_SIZE <= |r|
      && Cmd(r, c, h.swapped) == LC_CODE_SIGNATURE
      && DataOff(r, c, h.swapped) == dataoff && DataSize(r, c, h.swapped) == datasize
  {
    var t := SignedSlice(w, h, strip, true, dataoff, datasize).0;
    StretchKeepsSignature(t, h, |w|, SignedSlice(w, h, strip, true, dataoff, datasize).1.value);
  }

  /** The slice decodes, and its listed command at `c` is an
      LC_CODE_SIGNATURE pointing at `datasize` bytes at `dataoff`. */
  predicate PointsAt(r: seq<byte>, h: Header, c: nat, dataoff: nat, datasize: nat)
  {
    && WellFormed(r, h) && c in GetLoadCommands(r, h) && c + LINKEDIT_DATA_SIZE <= |r|
    && Cmd(r, c, h.swapped) == LC_CODE_SIGNATURE
    && DataOff(r, c, h.swapped) == dataoff && DataSize(r, c, h.swapped) == datasize
  }

  /** The same, for some command of the edited slice. */
  lemma EditedPoints(w: seq<byte>, h: Header, strip: bool, dataoff: u32, datasize: u32)
    requires Valid(w, h) && |w| < TWO_32
    requires CommandsEnd(w, h) + LINKEDIT_DATA_SIZE <= |w|
    ensures exists c :: PointsAt(EditSlice(w, h, strip, true, dataoff, datasize), h, c, dataoff, datasize)
  {
    EditedSignature(w, h, strip, dataoff, datasize);
    var c := SignedSlice(w, h, strip, true, dataoff, datasize).1.value;
    assert PointsAt(EditSlice(w, h, strip, true, dataoff, datasize), h, c, dataoff, datasize);
  }

  /** The same for a slice's copy into its room: the copy keeps the
      commands, so the -S stage finds room for an appended command. */
  lemma CopyPoints(s: seq<byte>, h: Header, limit: nat, len: nat, strip: bool, dataoff: u32, datasize: u32)
    requires Valid(s, h) && CommandsEnd(s, h) <= limit <= |s| && limit <= len < TWO_32
    requires CommandsEnd(s, h) + LINKEDIT_DATA_SIZE <= len
    ensures (CopiedSpec(s, h, limit, len);
      exists c :: PointsAt(EditSlice(Copied(s, limit, len), h, strip, true, dataoff, datasize), h, c, dataoff, datasize))
  {
    CopiedSpec(s, h, limit, len);
    EditedPoints(Copied(s, limit, len), h, strip, dataoff, datasize);
  }

  /** The __LINKEDIT stretch keeps a listed LC_CODE_SIGNATURE and where it
      points. */
  lemma StretchKeepsSignature(t: seq<byte>, h: Header, end: u32, c: nat)
    requires Valid(t, h) && c in GetLoadCommands(t, h) && c + LINKEDIT_DATA_SIZE <= |t|
    requires Cmd(t, c, h.swapped) == LC_CODE_SIGNATURE
    ensures var r := ResizeLinkedit(t, h, end);
      && c in GetLoadCommands(r, h) && c + LINKEDIT_DATA_SIZE <= |r|
      && Cmd(r, c, h.swapped) == LC_CODE_SIGNATURE
      && DataOff(r, c, h.swapped) == DataOff(t, c, h.swapped) && DataSize(r, c, h.swapped) == DataSize(t, c, h.swapped)
  {
    Listed(t, h, c);
    OtherCommandsKept(t, h, end, c);
    var r := ResizeLinkedit(t, h, end);
    WordsKept(t, r, c, c + CmdSize(t, c, h.swapped), h.swapped);
  }

  /** Bytes kept from `lo` to `hi` keep the three words of a
      linkedit_data_command at `lo`. */
  lemma WordsKept(t: seq<byte>, r: seq<byte>, lo: nat, hi: nat, swapped: bool)
    requires lo + LINKEDIT_DATA_SIZE <= hi <= |t| == |r|
    requires forall k {:trigger r[k]} :: lo <= k < hi ==> r[k] == t[k]
    ensures Get32(r, lo, swapped) == Get32(t, lo, swapped)
    ensures Get32(r, lo + 8, swapped) == Get32(t, lo + 8, swapped)
    ensures Get32(r, lo + 12, swapped) == Get32(t, lo + 12, swapped)
  {
    Get32Frame(t, r, lo, lo, swapped);
    Get32Frame(t, r, lo + 8, lo + 8, swapped);
    Get32Frame(t, r, lo + 12, lo + 12, swapped);
  }
}
