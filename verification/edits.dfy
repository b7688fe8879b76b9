/** The relocator's edits of one slice's load commands (ldid.cpp:1050-1105),
    stated on the slice's bytes: removing the first code-signature command,
    appending one, pointing it at the reserved room, and stretching
    __LINKEDIT to the new end of the slice. Each edit is shown to keep the
    command list well formed and to change exactly the commands it names. */
module Edits {
  import opened Bytes
  import opened Wrappers
  import opened MachO

  // ---------------------------------------------------------------------
  // How a chain of load commands survives byte edits
  // ---------------------------------------------------------------------

  lemma {:induction false} WalkLength(s: seq<byte>, o: nat, n: nat, end: nat, swapped: bool)
    requires Chain(s, o, n, end, swapped)
    ensures |Walk(s, o, n, swapped)| == n
    decreases n
  {
    if n > 0 {
      WalkLength(s, o + CmdSize(s, o, swapped), n - 1, end, swapped);
    }
  }

  /** A chain starts no later than it ends, and ends inside the bytes
      unless it is empty. */
  lemma ChainBounds(s: seq<byte>, o: nat, n: nat, end: nat, swapped: bool)
    requires Chain(s, o, n, end, swapped)
    ensures o <= end && (n > 0 ==> o + 8 <= end <= |s|)
  {
  }

  /** Every command of a chain takes at least 8 bytes. */
  lemma {:induction false} ChainCount(s: seq<byte>, o: nat, n: nat, end: nat, swapped: bool)
    requires Chain(s, o, n, end, swapped)
    ensures o + 8 * n <= end
    decreases n
  {
    if n > 0 {
      ChainCount(s, o + CmdSize(s, o, swapped), n - 1, end, swapped);
    }
  }

  /** A shaped command in front of a chain extends it by one. */
  lemma ChainCons(s: seq<byte>, o: nat, n: nat, end: nat, swapped: bool)
    requires n > 0 && o + 8 <= |s| && CommandShaped(s, o, swapped)
    requires Chain(s, o + CmdSize(s, o, swapped), n - 1, end, swapped)
    ensures Chain(s, o, n, end, swapped)
  {
    ChainBounds(s, o + CmdSize(s, o, swapped), n - 1, end, swapped);
  }

  /** The command `j` steps of `cmdsize` from `o` is at `c`. */
  predicate At(s: seq<byte>, o: nat, j: nat, c: nat, swapped: bool)
    decreases j
  {
    if j == 0 then c == o
    else o + 8 <= |s| && At(s, o + CmdSize(s, o, swapped), j - 1, c, swapped)
  }

  /** The command `j` steps into a chain of more than `j` commands lies
      inside it. */
  lemma {:induction false} AtInside(s: seq<byte>, o: nat, n: nat, end: nat, swapped: bool, j: nat, c: nat)
    requires Chain(s, o, n, end, swapped) && j < n && At(s, o, j, c, swapped)
    ensures o <= c && c + 8 <= |s| && CommandShaped(s, c, swapped) && c + CmdSize(s, c, swapped) <= end
    decreases j
  {
    if j > 0 {
      AtInside(s, o + CmdSize(s, o, swapped), n - 1, end, swapped, j - 1, c);
    }
  }

  /** The j-th entry of a chain's walk is the command `j` steps in. */
  lemma {:induction false} WalkAt(s: seq<byte>, o: nat, n: nat, end: nat, swapped: bool, j: nat)
    requires Chain(s, o, n, end, swapped) && j < n
    ensures |Walk(s, o, n, swapped)| == n && At(s, o, j, Walk(s, o, n, swapped)[j], swapped)
    decreases j
  {
    var next := o + CmdSize(s, o, swapped);
    WalkLength(s, o, n, end, swapped);
    var r, rest := Walk(s, o, n, swapped), Walk(s, next, n - 1, swapped);
    assert r == [o] + rest;
    if j > 0 {
      WalkAt(s, next, n - 1, end, swapped, j - 1);
      assert r[j] == rest[j - 1];
    }
  }

  /** A command copied byte for byte to another place is the same
      command there. */
  lemma CommandCopy(s: seq<byte>, t: seq<byte>, o: nat, p: nat, swapped: bool)
    requires o + 8 <= |s| && CommandShaped(s, o, swapped)
    requires p + CmdSize(s, o, swapped) <= |t|
    requires forall k :: o <= k < o + CmdSize(s, o, swapped) ==> t[k - o + p] == s[k]
    ensures p + 8 <= |t| && Cmd(t, p, swapped) == Cmd(s, o, swapped) && CmdSize(t, p, swapped) == CmdSize(s, o, swapped)
    ensures CommandShaped(t, p, swapped)
  {
    Get32Frame(s, t, o, p, swapped);
    Get32Frame(s, t, o + 4, p + 4, swapped);
    if Cmd(s, o, swapped) == LC_SEGMENT {
      Get32Frame(s, t, o + 48, p + 48, swapped);
    }
  }

  /** The bytes of a command that no field the chain reads lives in: past
      cmd and cmdsize, inside the command, and clear of a 32-bit segment's
      nsects. */
  predicate InBody(s: seq<byte>, c: nat, w: nat, len: nat, swapped: bool)
  {
    && c + 8 <= |s|
    && c + 8 <= w && w + len <= c + CmdSize(s, c, swapped)
    && (Cmd(s, c, swapped) == LC_SEGMENT ==> w + len <= c + 48 || c + 52 <= w)
  }

  /** Changing only body bytes of a command leaves its kind, size and
      shape as they were. */
  lemma CommandEdit(s: seq<byte>, t: seq<byte>, c: nat, w: nat, len: nat, swapped: bool)
    requires c + 8 <= |s| && CommandShaped(s, c, swapped) && InBody(s, c, w, len, swapped) && |t| == |s|
    requires forall k :: c <= k < c + CmdSize(s, c, swapped) && !(w <= k < w + len) ==> t[k] == s[k]
    ensures Cmd(t, c, swapped) == Cmd(s, c, swapped) && CmdSize(t, c, swapped) == CmdSize(s, c, swapped)
    ensures CommandShaped(t, c, swapped)
  {
    Get32Frame(s, t, c, c, swapped);
    Get32Frame(s, t, c + 4, c + 4, swapped);
    if Cmd(s, c, swapped) == LC_SEGMENT {
      Get32Frame(s, t, c + 48, c + 48, swapped);
    }
  }

  /** A chain read from bytes moved `d` places towards the start (from
      `o` to `p`) is the same chain, `d` places earlier. */
  lemma {:induction false} ChainShift(s: seq<byte>, t: seq<byte>, o: nat, p: nat, d: nat, n: nat, end: nat, swapped: bool)
    requires Chain(s, o, n, end, swapped)
    requires p + d == o && end - d <= |t|
    requires forall k {:trigger t[k]} :: p <= k < end - d ==> t[k] == s[k + d]
    ensures Chain(t, p, n, end - d, swapped)
    decreases n
  {
    if n > 0 {
      var size := CmdSize(s, o, swapped);
      CommandCopy(s, t, o, p, swapped);
      ChainShift(s, t, o + size, p + size, d, n - 1, end, swapped);
      ChainCons(t, p, n, end - d, swapped);
    }
  }

  /** A chain depends only on the bytes it spans. */
  lemma {:induction false} ChainFrame(s: seq<byte>, t: seq<byte>, o: nat, n: nat, end: nat, swapped: bool)
    requires Chain(s, o, n, end, swapped)
    requires end <= |t| && forall k {:trigger t[k]} :: o <= k < end ==> t[k] == s[k]
    ensures Chain(t, o, n, end, swapped)
    decreases n
  {
    if n > 0 {
      var size := CmdSize(s, o, swapped);
      CommandCopy(s, t, o, o, swapped);
      ChainFrame(s, t, o + size, n - 1, end, swapped);
      ChainCons(t, o, n, end, swapped);
    }
  }

  /** ... and so does its walk. */
  lemma {:induction false} WalkFrame(s: seq<byte>, t: seq<byte>, o: nat, n: nat, end: nat, swapped: bool)
    requires Chain(s, o, n, end, swapped) && Chain(t, o, n, end, swapped)
    requires forall k {:trigger t[k]} :: o <= k < end ==> t[k] == s[k]
    ensures Walk(t, o, n, swapped) == Walk(s, o, n, swapped)
    decreases n
  {
    if n > 0 {
      var size := CmdSize(s, o, swapped);
      Get32Frame(s, t, o + 4, o + 4, swapped);
      WalkFrame(s, t, o + size, n - 1, end, swapped);
    }
  }

  /** Changing bytes inside the body of the command `j` steps in, at `c`,
      leaves the chain as it was. */
  lemma {:induction false} ChainEditInside(s: seq<byte>, t: seq<byte>, o: nat, n: nat, end: nat, swapped: bool, j: nat, c: nat, w: nat, len: nat)
    requires Chain(s, o, n, end, swapped) && j < n && At(s, o, j, c, swapped)
    requires InBody(s, c, w, len, swapped) && |t| == |s|
    requires forall k {:trigger t[k]} :: o <= k < end && !(w <= k < w + len) ==> t[k] == s[k]
    ensures Chain(t, o, n, end, swapped)
    decreases j
  {
    var next := o + CmdSize(s, o, swapped);
    if j == 0 {
      CommandEdit(s, t, o, w, len, swapped);
      ChainFrame(s, t, next, n - 1, end, swapped);
    } else {
      AtInside(s, next, n - 1, end, swapped, j - 1, c);
      CommandCopy(s, t, o, o, swapped);
      ChainEditInside(s, t, next, n - 1, end, swapped, j - 1, c, w, len);
    }
    ChainCons(t, o, n, end, swapped);
  }

  /** Closing the gap a removed command leaves (the one `j` steps in, at
      `c`, `d` bytes long) leaves a chain of the others. */
  lemma {:induction false} ChainRemove(s: seq<byte>, t: seq<byte>, o: nat, n: nat, end: nat, swapped: bool, j: nat, c: nat, d: nat)
    requires Chain(s, o, n, end, swapped) && j < n && At(s, o, j, c, swapped)
    requires c + 8 <= |s| && d == CmdSize(s, c, swapped) && c + d <= end && end - d <= |t|
    requires forall k {:trigger t[k]} :: o <= k < c ==> t[k] == s[k]
    requires forall k {:trigger t[k]} :: c <= k < end - d ==> t[k] == s[k + d]
    ensures Chain(t, o, n - 1, end - d, swapped)
    decreases j
  {
    if j == 0 {
      ChainShift(s, t, o + d, o, d, n - 1, end, swapped);
      assert Chain(t, o, n - 1, end - d, swapped);
    } else {
      var next := o + CmdSize(s, o, swapped);
      AtInside(s, next, n - 1, end, swapped, j - 1, c);
      ChainRemove(s, t, next, n - 1, end, swapped, j - 1, c, d);
      KeepBeforeRemoved(s, t, o, n, end, swapped, c, d);
    }
  }

  /** The commands in front of the removed one stay where they were. */
  lemma KeepBeforeRemoved(s: seq<byte>, t: seq<byte>, o: nat, n: nat, end: nat, swapped: bool, c: nat, d: nat)
    requires n >= 2 && Chain(s, o, n, end, swapped) && o + CmdSize(s, o, swapped) <= c && c + d <= end && end - d <= |t|
    requires forall k {:trigger t[k]} :: o <= k < c ==> t[k] == s[k]
    requires Chain(t, o + CmdSize(s, o, swapped), n - 2, end - d, swapped)
    ensures Chain(t, o, n - 1, end - d, swapped)
  {
    ChainKeep(s, t, o, n - 1, end - d, swapped);
  }

  /** A command left in place in front of a chain of `t` extends that
      chain by one. */
  lemma ChainKeep(s: seq<byte>, t: seq<byte>, o: nat, n: nat, end: nat, swapped: bool)
    requires n > 0 && o + 8 <= |s| && CommandShaped(s, o, swapped) && o + CmdSize(s, o, swapped) <= |t|
    requires forall k {:trigger t[k]} :: o <= k < o + CmdSize(s, o, swapped) ==> t[k] == s[k]
    requires Chain(t, o + CmdSize(s, o, swapped), n - 1, end, swapped)
    ensures Chain(t, o, n, end, swapped)
  {
    CommandCopy(s, t, o, o, swapped);
    ChainCons(t, o, n, end, swapped);
  }

  /** What walking a chain needs of it: `n` commands of at least 8
      bytes each, from `o` back to back up to `end`. */
  predicate Spans(s: seq<byte>, o: nat, n: nat, end: nat, swapped: bool)
    decreases n
  {
    if n == 0 then o == end
    else o + 8 <= end <= |s| && 8 <= CmdSize(s, o, swapped) && Spans(s, o + CmdSize(s, o, swapped), n - 1, end, swapped)
  }

  lemma {:induction false} ChainSpans(s: seq<byte>, o: nat, n: nat, end: nat, swapped: bool)
    requires Chain(s, o, n, end, swapped)
    ensures Spans(s, o, n, end, swapped)
    decreases n
  {
    if n > 0 {
      ChainSpans(s, o + CmdSize(s, o, swapped), n - 1, end, swapped);
    }
  }

  /** The command `j` steps into a span lies at or after its start, and
      after the whole first command when `j` is not 0. */
  lemma {:induction false} AtSpans(s: seq<byte>, o: nat, n: nat, end: nat, swapped: bool, j: nat, c: nat)
    requires Spans(s, o, n, end, swapped) && j < n && At(s, o, j, c, swapped)
    ensures o <= c && c + 8 <= end && (0 < j ==> o + 8 <= c)
    decreases j
  {
    if j > 0 {
      AtSpans(s, o + CmdSize(s, o, swapped), n - 1, end, swapped, j - 1, c);
    }
  }

  /** Every offset of `xs` moved `d` bytes towards the start. */
  function Lowered(xs: seq<nat>, d: nat): (r: seq<int>)
    ensures |r| == |xs|
    decreases |xs|
  {
    if |xs| == 0 then [] else [xs[0] - d] + Lowered(xs[1..], d)
  }

  /** One step of a walk. */
  lemma WalkStep(s: seq<byte>, o: nat, n: nat, size: nat, swapped: bool)
    requires n > 0 && o + 8 <= |s| && size == CmdSize(s, o, swapped)
    ensures Walk(s, o, n, swapped) == [o] + Walk(s, o + size, n - 1, swapped)
  {
  }

  lemma LoweredCons(x: nat, rest: seq<nat>, d: nat)
    ensures Lowered([x] + rest, d) == [x - d] + Lowered(rest, d)
  {
    assert ([x] + rest)[1..] == rest;
  }

  /** The walk of a chain moved `d` places towards the start lists the
      same commands, each `d` places earlier. */
  lemma {:induction false} WalkShift(s: seq<byte>, t: seq<byte>, o: nat, p: nat, d: nat, n: nat, end: nat, swapped: bool)
    requires Spans(s, o, n, end, swapped)
    requires p + d == o && end - d <= |t|
    requires forall k {:trigger t[k]} :: p <= k < end - d ==> t[k] == s[k + d]
    ensures Walk(t, p, n, swapped) == Lowered(Walk(s, o, n, swapped), d)
    decreases n
  {
    if n > 0 {
      var size := CmdSize(s, o, swapped);
      assert t[p + 4] == s[o + 4] && t[p + 5] == s[o + 5] && t[p + 6] == s[o + 6] && t[p + 7] == s[o + 7];
      Get32Frame(s, t, o + 4, p + 4, swapped);
      WalkShift(s, t, o + size, p + size, d, n - 1, end, swapped);
      WalkShiftStep(s, t, o, p, d, n, size, swapped, Walk(s, o + size, n - 1, swapped));
    }
  }

  /** The step of WalkShift from the rest of the walk to the whole. */
  lemma WalkShiftStep(s: seq<byte>, t: seq<byte>, o: nat, p: nat, d: nat, n: nat, size: nat, swapped: bool, rest: seq<nat>)
    requires n > 0 && o + 8 <= |s| && p + 8 <= |t| && p + d == o
    requires size == CmdSize(s, o, swapped) == CmdSize(t, p, swapped)
    requires rest == Walk(s, o + size, n - 1, swapped)
    requires Walk(t, p + size, n - 1, swapped) == Lowered(rest, d)
    ensures Walk(t, p, n, swapped) == Lowered(Walk(s, o, n, swapped), d)
  {
    WalkStep(s, o, n, size, swapped);
    WalkStep(t, p, n, size, swapped);
    LoweredCons(o, rest, d);
  }

  /** `w` without its entry `j`, the entries after it moved `d` bytes
      towards the start. */
  function RemoveAt(w: seq<nat>, j: nat, d: nat): (r: seq<int>)
    requires j < |w|
    ensures |r| == |w| - 1
    decreases j
  {
    if j == 0 then Lowered(w[1..], d) else [w[0] as int] + RemoveAt(w[1..], j - 1, d)
  }

  lemma RemoveAtCons(x: nat, rest: seq<nat>, j: nat, d: nat)
    requires j <= |rest|
    ensures RemoveAt([x] + rest, j, d) == if j == 0 then Lowered(rest, d) else [x as int] + RemoveAt(rest, j - 1, d)
  {
    assert ([x] + rest)[1..] == rest;
  }

  /** RemoveAt keeps the entries before `j` and lowers the ones after. */
  lemma {:induction false} RemoveAtSplit(w: seq<nat>, j: nat, d: nat)
    requires j < |w|
    ensures RemoveAt(w, j, d) == w[..j] + Lowered(w[j + 1..], d)
    decreases j
  {
    if j > 0 {
      RemoveAtSplit(w[1..], j - 1, d);
      assert w[1..][..j - 1] == w[1..j];
      assert w[1..][j..] == w[j + 1..];
      assert [w[0]] + w[1..j] == w[..j];
    }
  }

  /** Closing the gap of the command `j` steps in, at `c` and `d` bytes
      long, lists the commands before it where they were and the commands
      after it `d` bytes earlier. */
  lemma {:induction false} WalkRemove(s: seq<byte>, t: seq<byte>, o: nat, n: nat, end: nat, swapped: bool, j: nat, c: nat, d: nat)
    requires Spans(s, o, n, end, swapped) && j < n && At(s, o, j, c, swapped)
    requires c + 8 <= |s| && d == CmdSize(s, c, swapped) && c + d <= end && end - d <= |t|
    requires forall k {:trigger t[k]} :: o <= k < c ==> t[k] == s[k]
    requires forall k {:trigger t[k]} :: c <= k < end - d ==> t[k] == s[k + d]
    ensures j < |Walk(s, o, n, swapped)| && Walk(t, o, n - 1, swapped) == RemoveAt(Walk(s, o, n, swapped), j, d)
    decreases j
  {
    if j == 0 {
      WalkRemoveFirst(s, t, o, n, end, swapped, d);
    } else {
      var size := CmdSize(s, o, swapped);
      AtSpans(s, o + size, n - 1, end, swapped, j - 1, c);
      WalkRemove(s, t, o + size, n - 1, end, swapped, j - 1, c, d);
      assert t[o + 4] == s[o + 4] && t[o + 5] == s[o + 5] && t[o + 6] == s[o + 6] && t[o + 7] == s[o + 7];
      Get32Frame(s, t, o + 4, o + 4, swapped);
      WalkStep(s, o, n, size, swapped);
      WalkStep(t, o, n - 1, size, swapped);
      RemoveLaterOf(Walk(s, o, n, swapped), Walk(s, o + size, n - 1, swapped), Walk(t, o, n - 1, swapped), Walk(t, o + size, n - 1 - 1, swapped), o, j, d);
    }
  }

  /** The case of WalkRemove where the first command goes. */
  lemma WalkRemoveFirst(s: seq<byte>, t: seq<byte>, o: nat, n: nat, end: nat, swapped: bool, d: nat)
    requires Spans(s, o, n, end, swapped) && 0 < n
    requires d == CmdSize(s, o, swapped) && o + d <= end && end - d <= |t|
    requires forall k {:trigger t[k]} :: o <= k < end - d ==> t[k] == s[k + d]
    ensures 0 < |Walk(s, o, n, swapped)| && Walk(t, o, n - 1, swapped) == RemoveAt(Walk(s, o, n, swapped), 0, d)
  {
    WalkStep(s, o, n, d, swapped);
    WalkShift(s, t, o + d, o, d, n - 1, end, swapped);
    RemoveFirstOf(Walk(s, o, n, swapped), Walk(s, o + d, n - 1, swapped), Walk(t, o, n - 1, swapped), o, d);
  }

  lemma RemoveLaterOf(w: seq<nat>, rest: seq<nat>, tw: seq<nat>, trest: seq<nat>, o: nat, j: nat, d: nat)
    requires 0 < j && w == [o] + rest && tw == [o] + trest && j - 1 < |rest| && trest == RemoveAt(rest, j - 1, d)
    ensures j < |w| && tw == RemoveAt(w, j, d)
  {
    RemoveAtCons(o, rest, j, d);
  }

  lemma RemoveFirstOf(w: seq<nat>, rest: seq<nat>, tw: seq<nat>, o: nat, d: nat)
    requires w == [o] + rest && tw == Lowered(rest, d)
    ensures 0 < |w| && tw == RemoveAt(w, 0, d)
  {
    RemoveAtCons(o, rest, 0, d);
  }

  /** A command written right after a chain extends it by one. */
  lemma {:induction false} ChainAppend(s: seq<byte>, t: seq<byte>, o: nat, n: nat, end: nat, swapped: bool)
    requires Chain(s, o, n, end, swapped) && end + 8 <= |t| && CommandShaped(t, end, swapped)
    requires forall k {:trigger t[k]} :: o <= k < end ==> t[k] == s[k]
    ensures Chain(t, o, n + 1, end + CmdSize(t, end, swapped), swapped)
    decreases n
  {
    if n == 0 {
      ChainCons(t, end, 1, end + CmdSize(t, end, swapped), swapped);
    } else {
      var next := o + CmdSize(s, o, swapped);
      CommandCopy(s, t, o, o, swapped);
      ChainAppend(s, t, next, n - 1, end, swapped);
      ChainCons(t, o, n + 1, end + CmdSize(t, end, swapped), swapped);
    }
  }

  /** ... and its walk lists the new command last. */
  lemma {:induction false} WalkAppend(s: seq<byte>, t: seq<byte>, o: nat, n: nat, end: nat, swapped: bool)
    requires Chain(s, o, n, end, swapped) && end + 8 <= |t|
    requires forall k {:trigger t[k]} :: o <= k < end ==> t[k] == s[k]
    ensures Walk(t, o, n + 1, swapped) == Walk(s, o, n, swapped) + [end]
    decreases n
  {
    if n == 0 {
      assert Walk(t, o, 1, swapped) == [end] + Walk(t, end + CmdSize(t, end, swapped), 0, swapped);
    } else {
      var next := o + CmdSize(s, o, swapped);
      Get32Frame(s, t, o + 4, o + 4, swapped);
      WalkAppend(s, t, next, n - 1, end, swapped);
      assert Walk(s, o, n, swapped) == [o] + Walk(s, next, n - 1, swapped);
      assert Walk(t, o, n + 1, swapped) == [o] + Walk(t, next, n, swapped);
    }
  }

  /** Changing bytes inside the body of one command leaves the walk as
      it was. */
  lemma {:induction false} WalkEditInside(s: seq<byte>, t: seq<byte>, o: nat, n: nat, end: nat, swapped: bool, j: nat, c: nat, w: nat, len: nat)
    requires Chain(s, o, n, end, swapped) && j < n && At(s, o, j, c, swapped)
    requires InBody(s, c, w, len, swapped) && |t| == |s|
    requires forall k {:trigger t[k]} :: o <= k < end && !(w <= k < w + len) ==> t[k] == s[k]
    ensures Walk(t, o, n, swapped) == Walk(s, o, n, swapped)
    decreases j
  {
    var next := o + CmdSize(s, o, swapped);
    if j == 0 {
      CommandEdit(s, t, o, w, len, swapped);
      ChainFrame(s, t, next, n - 1, end, swapped);
      WalkFrame(s, t, next, n - 1, end, swapped);
    } else {
      AtInside(s, next, n - 1, end, swapped, j - 1, c);
      Get32Frame(s, t, o + 4, o + 4, swapped);
      WalkEditInside(s, t, next, n - 1, end, swapped, j - 1, c, w, len);
    }
    WalkCons(s, t, o, n, swapped);
  }

  /** Two walks that agree on the first command's size and on the rest
      agree. */
  lemma WalkCons(s: seq<byte>, t: seq<byte>, o: nat, n: nat, swapped: bool)
    requires n > 0 && o + 8 <= |s| && o + 8 <= |t| && CmdSize(t, o, swapped) == CmdSize(s, o, swapped)
    requires Walk(t, o + CmdSize(s, o, swapped), n - 1, swapped) == Walk(s, o + CmdSize(s, o, swapped), n - 1, swapped)
    ensures Walk(t, o, n, swapped) == Walk(s, o, n, swapped)
  {
  }

  /** Two different commands of a slice do not overlap. */
  lemma Apart(s: seq<byte>, h: Header, a: nat, b: nat)
    requires WellFormed(s, h) && a in GetLoadCommands(s, h) && b in GetLoadCommands(s, h) && a != b
    ensures a + 8 <= |s| && b + 8 <= |s|
    ensures a + CmdSize(s, a, h.swapped) <= b || b + CmdSize(s, b, h.swapped) <= a
  {
    var cmds := GetLoadCommands(s, h);
    var i :| 0 <= i < |cmds| && cmds[i] == a;
    var j :| 0 <= j < |cmds| && cmds[j] == b;
    assert i != j;
  }

  /** Which segment a command is, and its name, live in its first 24
      bytes; an edit elsewhere in one command keeps that of every command. */
  lemma NamedKept(s: seq<byte>, t: seq<byte>, sw: bool, c: nat, w: nat, len: nat, o: nat, kind: u32, name: seq<byte>)
    requires o + 8 <= |s| && CommandShaped(s, o, sw) && c + 8 <= |s| && CommandShaped(s, c, sw)
    requires o == c || o + CmdSize(s, o, sw) <= c || c + CmdSize(s, c, sw) <= o
    requires kind == LC_SEGMENT || kind == LC_SEGMENT_64
    requires InBody(s, c, w, len, sw) && |t| == |s|
    requires Cmd(s, c, sw) == LC_SEGMENT || Cmd(s, c, sw) == LC_SEGMENT_64 ==> c + 24 <= w
    requires forall k {:trigger t[k]} :: 0 <= k < |s| && !(w <= k < w + len) ==> t[k] == s[k]
    ensures o + 8 <= |t| && CommandShaped(t, o, sw)
    ensures IsSegmentNamed(t, o, kind, name, sw) <==> IsSegmentNamed(s, o, kind, name, sw)
  {
    if o == c {
      CommandEdit(s, t, c, w, len, sw);
    } else {
      CommandCopy(s, t, o, o, sw);
    }
    if Cmd(s, o, sw) == kind {
      assert t[o + 8..o + 24] == s[o + 8..o + 24];
    }
  }

  /** The segment filter gives the same list wherever it gives the same
      verdict on each command. */
  lemma {:induction false} SegmentsInFrame(s: seq<byte>, t: seq<byte>, cmds: seq<nat>, kind: u32, name: seq<byte>, swapped: bool)
    requires Shaped(s, cmds, swapped) && Shaped(t, cmds, swapped)
    requires kind == LC_SEGMENT || kind == LC_SEGMENT_64
    requires forall i :: 0 <= i < |cmds| ==>
      (IsSegmentNamed(t, cmds[i], kind, name, swapped) <==> IsSegmentNamed(s, cmds[i], kind, name, swapped))
    ensures SegmentsIn(t, cmds, kind, name, swapped) == SegmentsIn(s, cmds, kind, name, swapped)
    decreases |cmds|
  {
    if cmds != [] {
      assert forall i :: 1 <= i < |cmds| ==> cmds[1..][i - 1] == cmds[i];
      SegmentsInFrame(s, t, cmds[1..], kind, name, swapped);
    }
  }

  /** Changing bytes inside the body of one listed command, clear of the
      segment name when it is a segment, keeps the slice well formed and
      keeps its command list, its header counts and its segment lookups. */
  lemma EditInCommand(s: seq<byte>, t: seq<byte>, h: Header, c: nat, w: nat, len: nat)
    requires WellFormed(s, h) && c in GetLoadCommands(s, h)
    requires InBody(s, c, w, len, h.swapped) && |t| == |s|
    requires Cmd(s, c, h.swapped) == LC_SEGMENT || Cmd(s, c, h.swapped) == LC_SEGMENT_64 ==> c + 24 <= w
    requires forall k {:trigger t[k]} :: 0 <= k < |s| && !(w <= k < w + len) ==> t[k] == s[k]
    ensures WellFormed(t, h)
    ensures NCmds(t, h) == NCmds(s, h) && SizeOfCmds(t, h) == SizeOfCmds(s, h)
    ensures GetLoadCommands(t, h) == GetLoadCommands(s, h)
    ensures forall name :: GetSegments(t, h, name) == GetSegments(s, h, name)
    ensures forall name :: GetSegments64(t, h, name) == GetSegments64(s, h, name)
  {
    EditKeepsCommands(s, t, h, c, w, len);
    forall name
      ensures GetSegments(t, h, name) == GetSegments(s, h, name)
      ensures GetSegments64(t, h, name) == GetSegments64(s, h, name)
    {
      EditKeepsSegments(s, t, h, c, w, len, LC_SEGMENT, name);
      EditKeepsSegments(s, t, h, c, w, len, LC_SEGMENT_64, name);
    }
  }

  /** The command list part of EditInCommand. */
  lemma EditKeepsCommands(s: seq<byte>, t: seq<byte>, h: Header, c: nat, w: nat, len: nat)
    requires WellFormed(s, h) && c in GetLoadCommands(s, h)
    requires InBody(s, c, w, len, h.swapped) && |t| == |s|
    requires forall k {:trigger t[k]} :: 0 <= k < |s| && !(w <= k < w + len) ==> t[k] == s[k]
    ensures WellFormed(t, h)
    ensures NCmds(t, h) == NCmds(s, h) && SizeOfCmds(t, h) == SizeOfCmds(s, h)
    ensures GetLoadCommands(t, h) == GetLoadCommands(s, h)
  {
    var sw := h.swapped;
    var start := h.CommandsStart();
    var cmds := GetLoadCommands(s, h);
    var n, end := NCmds(s, h), start + SizeOfCmds(s, h);
    var j :| 0 <= j < |cmds| && cmds[j] == c;
    Get32Frame(s, t, 16, 16, sw);
    Get32Frame(s, t, 20, 20, sw);
    WalkAt(s, start, n, end, sw, j);
    ChainEditInside(s, t, start, n, end, sw, j, c, w, len);
    WalkEditInside(s, t, start, n, end, sw, j, c, w, len);
  }

  /** The segment lookup part of EditInCommand, for one kind and name. */
  lemma EditKeepsSegments(s: seq<byte>, t: seq<byte>, h: Header, c: nat, w: nat, len: nat, kind: u32, name: seq<byte>)
    requires WellFormed(s, h) && WellFormed(t, h) && GetLoadCommands(t, h) == GetLoadCommands(s, h)
    requires c in GetLoadCommands(s, h) && InBody(s, c, w, len, h.swapped) && |t| == |s|
    requires Cmd(s, c, h.swapped) == LC_SEGMENT || Cmd(s, c, h.swapped) == LC_SEGMENT_64 ==> c + 24 <= w
    requires forall k {:trigger t[k]} :: 0 <= k < |s| && !(w <= k < w + len) ==> t[k] == s[k]
    requires kind == LC_SEGMENT || kind == LC_SEGMENT_64
    ensures SegmentsIn(t, GetLoadCommands(s, h), kind, name, h.swapped) == SegmentsIn(s, GetLoadCommands(s, h), kind, name, h.swapped)
    ensures kind == LC_SEGMENT ==> GetSegments(t, h, name) == GetSegments(s, h, name)
    ensures kind == LC_SEGMENT_64 ==> GetSegments64(t, h, name) == GetSegments64(s, h, name)
  {
    var cmds := GetLoadCommands(s, h);
    forall i | 0 <= i < |cmds|
      ensures IsSegmentNamed(t, cmds[i], kind, name, h.swapped) <==> IsSegmentNamed(s, cmds[i], kind, name, h.swapped)
    {
      if cmds[i] != c {
        Apart(s, h, cmds[i], c);
      }
      NamedKept(s, t, h.swapped, c, w, len, cmds[i], kind, name);
    }
    SegmentsInFrame(s, t, cmds, kind, name, h.swapped);
  }

  /** The header's magic and file type sit in its first 16 bytes. */
  lemma HeaderFrame(s: seq<byte>, t: seq<byte>)
    requires |s| >= MACH_HEADER_SIZE && |t| >= MACH_HEADER_SIZE && s[..16] == t[..16]
    ensures ParseHeader(t) == ParseHeader(s)
    ensures forall h: Header :: GetCPUType(t, h) == GetCPUType(s, h) && GetCPUSubtype(t, h) == GetCPUSubtype(s, h)
  {
    assert forall k :: 0 <= k < 16 ==> s[k] == s[..16][k] && t[k] == t[..16][k];
    Get32Frame(s, t, 0, 0, false);
    Get32Frame(s, t, 0, 0, true);
    Get32Frame(s, t, 4, 4, false);
    Get32Frame(s, t, 4, 4, true);
    Get32Frame(s, t, 8, 8, false);
    Get32Frame(s, t, 8, 8, true);
    Get32Frame(s, t, 12, 12, false);
    Get32Frame(s, t, 12, 12, true);
  }

  /** The same, for a header kept byte for byte. */
  lemma HeaderKept(s: seq<byte>, t: seq<byte>)
    requires |s| >= MACH_HEADER_SIZE && |t| >= MACH_HEADER_SIZE
    requires forall k {:trigger t[k]} :: 0 <= k < 16 ==> t[k] == s[k]
    ensures ParseHeader(t) == ParseHeader(s)
  {
    assert s[..16] == t[..16];
    HeaderFrame(s, t);
  }
}
