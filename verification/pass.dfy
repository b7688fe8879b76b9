/** The third pass over one slice (ldid.cpp:1111-1240): the -A filter,
    the load-command scan with -T, then -D, -e, -s and -S in that order,
    each on the bytes the steps before it left. A step that needs the
    LC_CODE_SIGNATURE the scan found fails without one, and -D fails
    without an LC_ENCRYPTION_INFO; ldid aborts there, so the pass stops at
    the first failure. */
module SlicePass {
  import opened Bytes
  import opened Wrappers
  import opened CodeSign
  import opened MachO
  import Mutators
  import SuperBlob
  import Generator
  import Buffer

  /** The identifier and optional entitlements -S signs with. */
  datatype Identity = Identity(name: seq<byte>, entitlements: Option<seq<byte>>)

  /** The flags that act on a slice in the third pass. */
  datatype Request = Request(
    filter: Option<Mutators.Arch>,
    time: Option<Mutators.TimeRequest>,
    decrypt: bool,
    extract: bool,
    rehash: bool,
    sign: Option<Identity>)

  /** The slice after the pass, the bytes -e wrote to standard output,
      and the failure that stopped the pass, if any. What -e wrote stays
      written when a later step fails. */
  datatype Outcome = Outcome(slice: seq<byte>, output: seq<byte>, result: Result<()>)

  /** Whether the request has a step that needs the LC_CODE_SIGNATURE. */
  predicate NeedsSignature(req: Request)
  {
    req.extract || req.rehash || req.sign.Some?
  }

  /** The slice after the scan: every LC_ID_DYLIB timestamp rewritten when
      -T is given. */
  function AfterScan(s: seq<byte>, h: Header, req: Request, hash: Mutators.Hasher): (r: seq<byte>)
    requires WellFormed(s, h)
    ensures |r| == |s|
  {
    Mutators.Stamped(s, h, req.time, hash, NCmds(s, h))
  }

  /** The slice after -D, when it finds its command. */
  function AfterDecrypt(s: seq<byte>, h: Header, req: Request, hash: Mutators.Hasher): (r: seq<byte>)
    requires WellFormed(s, h)
    ensures |r| == |s|
  {
    var t := AfterScan(s, h, req, hash);
    var encryption := LastCommand(s, h, LC_ENCRYPTION_INFO);
    if req.decrypt && encryption.Some? then Mutators.Decrypted(t, encryption.value) else t
  }

  /** Where the signature -e and -s read starts: the dataoff of the
      LC_CODE_SIGNATURE the scan found, read from the slice -D left. */
  function SignatureData(s: seq<byte>, h: Header, req: Request, hash: Mutators.Hasher): (r: Option<u32>)
    requires WellFormed(s, h)
    ensures r.Some? <==> LastCommand(s, h, LC_CODE_SIGNATURE).Some?
  {
    match LastCommand(s, h, LC_CODE_SIGNATURE)
    case None => None
    case Some(c) => Some(DataOff(AfterDecrypt(s, h, req, hash), c, h.swapped))
  }

  /** What -e and -s need of the blob the LC_CODE_SIGNATURE points at. */
  predicate ReadsFit(s: seq<byte>, h: Header, req: Request, hash: Mutators.Hasher, sha1: Generator.Sha1)
    requires WellFormed(s, h)
  {
    var data := SignatureData(s, h, req, hash);
    data.Some? ==>
      var t, data := AfterDecrypt(s, h, req, hash), data.value;
      && (req.extract ==> SuperBlob.Extractable(t, data))
      && (req.rehash ==> SuperBlob.TableFits(t, data) && SuperBlob.Rehashable(t, data, sha1, SuperBlob.Count(t, data)))
  }

  /** The slice after -s. */
  function AfterRehash(s: seq<byte>, h: Header, req: Request, hash: Mutators.Hasher, sha1: Generator.Sha1): (r: seq<byte>)
    requires WellFormed(s, h) && ReadsFit(s, h, req, hash, sha1)
    ensures |r| == |s|
  {
    var t := AfterDecrypt(s, h, req, hash);
    var data := SignatureData(s, h, req, hash);
    if req.rehash && data.Some? then
      var data := data.value;
      SuperBlob.RehashedKeepsTable(t, data, sha1, SuperBlob.Count(t, data));
      SuperBlob.Rehashed(t, data, sha1, SuperBlob.Count(t, data))
    else t
  }

  /** What -e writes: the payload of every entitlements blob of the
      signature, when -e is given. */
  function Output(s: seq<byte>, h: Header, req: Request, hash: Mutators.Hasher, sha1: Generator.Sha1): seq<byte>
    requires WellFormed(s, h) && ReadsFit(s, h, req, hash, sha1)
  {
    var data := SignatureData(s, h, req, hash);
    if req.extract && data.Some? then
      var t, data := AfterDecrypt(s, h, req, hash), data.value;
      SuperBlob.Extracted(t, data, SuperBlob.Count(t, data))
    else []
  }

  /** What the pass needs of a slice: it decodes, and every step it
      reaches stays inside it. */
  predicate Fits(s: seq<byte>, h: Header, req: Request, hash: Mutators.Hasher, sha1: Generator.Sha1)
  {
    && WellFormed(s, h)
    && ReadsFit(s, h, req, hash, sha1)
    && var signature := LastCommand(s, h, LC_CODE_SIGNATURE);
    && (req.sign.Some? && signature.Some? ==>
          var t := AfterRehash(s, h, req, hash, sha1);
          DataOff(t, signature.value, h.swapped) + DataSize(t, signature.value, h.swapped) <= |s|)
  }

  /** The pass on the values: an unselected slice is left alone; then the
      scan, -D, -e, -s and -S, stopping at the first step that fails. */
  function Pass(s: seq<byte>, h: Header, req: Request, hash: Mutators.Hasher, sha1: Generator.Sha1): (o: Outcome)
    requires Fits(s, h, req, hash, sha1)
    ensures |o.slice| == |s|
  {
    if !Mutators.Selected(s, h, req.filter) then Outcome(s, [], Ok(()))
    else
      var signature := LastCommand(s, h, LC_CODE_SIGNATURE);
      if req.decrypt && LastCommand(s, h, LC_ENCRYPTION_INFO).None? then
        Outcome(AfterScan(s, h, req, hash), [], Err(MissingEncryption))
      else if (req.extract || req.rehash) && signature.None? then
        Outcome(AfterDecrypt(s, h, req, hash), [], Err(MissingSignature))
      else
        Finished(s, h, req, hash, sha1)
  }

  /** The end of a pass that got past -s: what -e wrote, and the slice
      after -S; -S fails without an LC_CODE_SIGNATURE, and when the
      signature does not fit the room the command reserves. */
  function Finished(s: seq<byte>, h: Header, req: Request, hash: Mutators.Hasher, sha1: Generator.Sha1): (o: Outcome)
    requires Fits(s, h, req, hash, sha1)
    ensures |o.slice| == |s|
  {
    var output := Output(s, h, req, hash, sha1);
    var t := AfterRehash(s, h, req, hash, sha1);
    var signature := LastCommand(s, h, LC_CODE_SIGNATURE);
    match req.sign
    case None => Outcome(t, output, Ok(()))
    case Some(id) =>
      if signature.None? then Outcome(t, output, Err(MissingSignature))
      else
        var c := signature.value;
        var data, size := DataOff(t, c, h.swapped), DataSize(t, c, h.swapped);
        var end := Generator.Layout(data, id.name, id.entitlements).end;
        if end > size then Outcome(t, output, Err(CapacityOverflow))
        else
          var sig := Generator.Signature(t, data, id.name, id.entitlements, sha1);
          Outcome(Splice(t, data, sig + Zeros(size - end)), output, Ok(()))
  }

  /** -S on the slice held in `a`: the generator run on the room the
      LC_CODE_SIGNATURE the scan found reserves; a slice without one
      fails and is left as it was. */
  method SignSlice(a: array<byte>, swapped: bool, signature: Option<nat>, id: Identity, sha1: Generator.Sha1)
    returns (r: Result<nat>)
    requires signature.Some? ==> signature.value + LINKEDIT_DATA_SIZE <= a.Length
    requires signature.Some? ==> DataOff(a[..], signature.value, swapped) + DataSize(a[..], signature.value, swapped) <= a.Length
    modifies a
    ensures signature.None? ==> r == Err(MissingSignature) && a[..] == old(a[..])
    ensures signature.Some? ==>
      var data, size := DataOff(old(a[..]), signature.value, swapped), DataSize(old(a[..]), signature.value, swapped);
      var end := Generator.Layout(data, id.name, id.entitlements).end;
      && (r.Ok? <==> end <= size)
      && (r.Err? ==> r.error == CapacityOverflow && a[..] == old(a[..]))
      && (r.Ok? ==> && Generator.Signable(data, id.name, id.entitlements) && r.value == end
                    && a[..] == Splice(old(a[..]), data, Generator.Signature(old(a[..]), data, id.name, id.entitlements, sha1) + Zeros(size - end)))
  {
    if signature.None? {
      return Err(MissingSignature);
    }
    var data := Buffer.Load32(a, signature.value + 8, swapped);
    var size := Buffer.Load32(a, signature.value + 12, swapped);
    r := Generator.Sign(a, data, size, id.name, id.entitlements, sha1);
  }

  /** The LC_ENCRYPTION_INFO the scan finds holds its cryptid field. */
  lemma EncryptionRoom(s: seq<byte>, h: Header)
    requires WellFormed(s, h)
    ensures var encryption := LastCommand(s, h, LC_ENCRYPTION_INFO);
      encryption.Some? ==> encryption.value + Mutators.CRYPTID_FIELD + 4 <= |s|
  {
  }

  /** The scan and -D on the slice held in `a`: gives the
      LC_CODE_SIGNATURE the scan found, and fails when -D finds no
      LC_ENCRYPTION_INFO. */
  method Scan(a: array<byte>, h: Header, req: Request, hash: Mutators.Hasher)
    returns (signature: Option<nat>, r: Result<()>)
    requires WellFormed(a[..], h)
    modifies a
    ensures signature == LastCommand(old(a[..]), h, LC_CODE_SIGNATURE)
    ensures r.Err? <==> req.decrypt && LastCommand(old(a[..]), h, LC_ENCRYPTION_INFO).None?
    ensures r.Err? ==> r.error == MissingEncryption && a[..] == AfterScan(old(a[..]), h, req, hash)
    ensures r.Ok? ==> a[..] == AfterDecrypt(old(a[..]), h, req, hash)
  {
    ghost var s := a[..];
    var encryption;
    signature, encryption := Mutators.ScanCommands(a, h, req.time, hash);
    r := Ok(());
    if req.decrypt {
      EncryptionRoom(s, h);
      r := Mutators.DisableEncryption(a, h.swapped, encryption);
    }
  }

  /** -e and -s on the slice -D left in `a`: the entitlements -e writes,
      and the code hashes recomputed in place; both fail without an
      LC_CODE_SIGNATURE. */
  method Read(a: array<byte>, h: Header, req: Request, hash: Mutators.Hasher, sha1: Generator.Sha1,
              ghost s: seq<byte>, signature: Option<nat>)
    returns (output: seq<byte>, r: Result<()>)
    requires WellFormed(s, h) && ReadsFit(s, h, req, hash, sha1)
    requires a[..] == AfterDecrypt(s, h, req, hash) && signature == LastCommand(s, h, LC_CODE_SIGNATURE)
    modifies a
    ensures r.Err? <==> (req.extract || req.rehash) && signature.None?
    ensures r.Err? ==> r.error == MissingSignature && output == [] && a[..] == old(a[..])
    ensures r.Ok? ==> output == Output(s, h, req, hash, sha1) && a[..] == AfterRehash(s, h, req, hash, sha1)
  {
    output, r := [], Ok(());
    if req.extract {
      var e := SuperBlob.ExtractEntitlements(a, h.swapped, signature);
      if e.Err? {
        return [], Err(e.error);
      }
      output := e.value;
    }
    if req.rehash {
      var e := SuperBlob.Rehash(a, h.swapped, signature, sha1);
      if e.Err? {
        return [], Err(e.error);
      }
    }
  }

  /** -S, when given, on the slice -s left in `a`, after what -e wrote. */
  method Finish(a: array<byte>, h: Header, req: Request, hash: Mutators.Hasher, sha1: Generator.Sha1,
                ghost s: seq<byte>, signature: Option<nat>, output: seq<byte>)
    returns (r: Result<()>)
    requires Fits(s, h, req, hash, sha1) && signature == LastCommand(s, h, LC_CODE_SIGNATURE)
    requires a[..] == AfterRehash(s, h, req, hash, sha1) && output == Output(s, h, req, hash, sha1)
    modifies a
    ensures Outcome(a[..], output, r) == Finished(s, h, req, hash, sha1)
  {
    r := Ok(());
    if req.sign.Some? {
      SignatureRoom(s, h, req, hash, sha1);
      var e := SignSlice(a, h.swapped, signature, req.sign.value, sha1);
      if e.Err? {
        r := Err(e.error);
      }
    }
  }

  /** The LC_CODE_SIGNATURE the scan found, and under -S the room it
      reserves, lie inside the slice -s leaves. */
  lemma SignatureRoom(s: seq<byte>, h: Header, req: Request, hash: Mutators.Hasher, sha1: Generator.Sha1)
    requires Fits(s, h, req, hash, sha1)
    ensures var signature, t := LastCommand(s, h, LC_CODE_SIGNATURE), AfterRehash(s, h, req, hash, sha1);
      && |t| == |s|
      && (signature.Some? ==> signature.value + LINKEDIT_DATA_SIZE <= |t|)
      && (req.sign.Some? && signature.Some? ==> DataOff(t, signature.value, h.swapped) + DataSize(t, signature.value, h.swapped) <= |t|)
  {
  }

  /** The third pass on the slice held in `a`. */
  method Run(a: array<byte>, h: Header, req: Request, hash: Mutators.Hasher, sha1: Generator.Sha1)
    returns (output: seq<byte>, r: Result<()>)
    requires Fits(a[..], h, req, hash, sha1)
    modifies a
    ensures Outcome(a[..], output, r) == Pass(old(a[..]), h, req, hash, sha1)
  {
    if !Mutators.Selected(a[..], h, req.filter) {
      return [], Ok(());
    }
    ghost var s := a[..];
    var signature, scanned := Scan(a, h, req, hash);
    if scanned.Err? {
      return [], Err(scanned.error);
    }
    output, r := Read(a, h, req, hash, sha1, s, signature);
    if r.Ok? {
      r := Finish(a, h, req, hash, sha1, s, signature, output);
    }
  }

  /** A pass fails for want of an LC_CODE_SIGNATURE exactly when the
      slice is selected, gets past -D, has a step that needs one and has
      none. */
  lemma MissingSignatureIff(s: seq<byte>, h: Header, req: Request, hash: Mutators.Hasher, sha1: Generator.Sha1)
    requires Fits(s, h, req, hash, sha1)
    ensures Pass(s, h, req, hash, sha1).result == Err(MissingSignature) <==>
      && Mutators.Selected(s, h, req.filter)
      && !(req.decrypt && LastCommand(s, h, LC_ENCRYPTION_INFO).None?)
      && NeedsSignature(req) && LastCommand(s, h, LC_CODE_SIGNATURE).None?
  {
  }

  /** The pass gets past -e and -s: the slice is selected, -D finds its
      command, and the LC_CODE_SIGNATURE is there when -e or -s needs it. */
  predicate ReachesSign(s: seq<byte>, h: Header, req: Request)
    requires WellFormed(s, h)
  {
    && Mutators.Selected(s, h, req.filter)
    && !(req.decrypt && LastCommand(s, h, LC_ENCRYPTION_INFO).None?)
    && !((req.extract || req.rehash) && LastCommand(s, h, LC_CODE_SIGNATURE).None?)
  }

  /** What -e wrote stays written whatever -S does after it: a pass that
      gets past -s reports it, also when -S then fails, and any other
      pass writes nothing. */
  lemma OutputKept(s: seq<byte>, h: Header, req: Request, hash: Mutators.Hasher, sha1: Generator.Sha1)
    requires Fits(s, h, req, hash, sha1)
    ensures Pass(s, h, req, hash, sha1).output == if ReachesSign(s, h, req) then Output(s, h, req, hash, sha1) else []
    ensures Pass(s, h, req, hash, sha1).result == Err(CapacityOverflow) ==>
      req.sign.Some? && Pass(s, h, req, hash, sha1).output == Output(s, h, req, hash, sha1)
  {
  }

  // ---------------------------------------------------------------------
  // The mapping -D stores into (ldid.cpp:1109, 813-817, 1152-1155)
  // ---------------------------------------------------------------------

  /** ldid maps the file for writing only when -T, -s or -S is given;
      otherwise the mapping is private and read-only. */
  predicate Writable(req: Request)
  {
    req.time.Some? || req.rehash || req.sign.Some?
  }

  /** The pass as ldid runs it on that mapping: when it is read-only, the
      store -D makes into the cryptid field faults, and the slice stays
      as the scan left it. */
  function PassAsWritten(s: seq<byte>, h: Header, req: Request, hash: Mutators.Hasher, sha1: Generator.Sha1): (o: Outcome)
    requires Fits(s, h, req, hash, sha1)
    ensures |o.slice| == |s|
  {
    if Mutators.Selected(s, h, req.filter) && req.decrypt && LastCommand(s, h, LC_ENCRYPTION_INFO).Some? && !Writable(req) then
      Outcome(AfterScan(s, h, req, hash), [], Err(ReadOnlyMapping))
    else Pass(s, h, req, hash, sha1)
  }

  /** -D without -T, -s or -S on a slice that has an LC_ENCRYPTION_INFO:
      as written ldid fails at the store and the slice keeps its
      cryptid. */
  lemma DecryptReadOnly(s: seq<byte>, h: Header, req: Request, hash: Mutators.Hasher, sha1: Generator.Sha1)
    requires Fits(s, h, req, hash, sha1) && Mutators.Selected(s, h, req.filter)
    requires req.decrypt && LastCommand(s, h, LC_ENCRYPTION_INFO).Some? && !Writable(req)
    ensures PassAsWritten(s, h, req, hash, sha1).result == Err(ReadOnlyMapping)
    ensures PassAsWritten(s, h, req, hash, sha1).slice == s
  {
    Mutators.UnstampedKept(s, h, hash, NCmds(s, h));
  }

  /** Everywhere else the two agree. */
  lemma AsWrittenAgrees(s: seq<byte>, h: Header, req: Request, hash: Mutators.Hasher, sha1: Generator.Sha1)
    requires Fits(s, h, req, hash, sha1) && (Writable(req) || !req.decrypt)
    ensures PassAsWritten(s, h, req, hash, sha1) == Pass(s, h, req, hash, sha1)
  {
  }

  /** -D as intended: a selected slice with an LC_ENCRYPTION_INFO gets
      past -D, and when neither -s nor -S writes after it the slice the
      pass leaves reads cryptid 0, whatever the mapping. */
  lemma DecryptClears(s: seq<byte>, h: Header, req: Request, hash: Mutators.Hasher, sha1: Generator.Sha1)
    requires Fits(s, h, req, hash, sha1) && Mutators.Selected(s, h, req.filter)
    requires req.decrypt && LastCommand(s, h, LC_ENCRYPTION_INFO).Some?
    ensures Pass(s, h, req, hash, sha1).result != Err(MissingEncryption)
    ensures !req.rehash && req.sign.None? ==>
      var c := LastCommand(s, h, LC_ENCRYPTION_INFO).value;
      && c + Mutators.CRYPTID_FIELD + 4 <= |s|
      && Get32(Pass(s, h, req, hash, sha1).slice, c + Mutators.CRYPTID_FIELD, h.swapped) == 0
  {
    FinishedFailures(s, h, req, hash, sha1);
    EncryptionRoom(s, h);
    if !req.rehash && req.sign.None? {
      var c := LastCommand(s, h, LC_ENCRYPTION_INFO).value;
      DecryptedPass(s, h, req, hash, sha1);
      Mutators.DecryptedReadsZero(AfterScan(s, h, req, hash), c, h.swapped);
    }
  }

  /** Only -S fails at the end of a pass, and only for want of an
      LC_CODE_SIGNATURE or of room. */
  lemma FinishedFailures(s: seq<byte>, h: Header, req: Request, hash: Mutators.Hasher, sha1: Generator.Sha1)
    requires Fits(s, h, req, hash, sha1)
    ensures var o := Finished(s, h, req, hash, sha1);
      o.result.Err? ==> req.sign.Some? && (o.result.error == MissingSignature || o.result.error == CapacityOverflow)
  {
  }

  /** With neither -s nor -S the slice a pass past -D leaves is the one
      -D left. */
  lemma DecryptedPass(s: seq<byte>, h: Header, req: Request, hash: Mutators.Hasher, sha1: Generator.Sha1)
    requires Fits(s, h, req, hash, sha1) && Mutators.Selected(s, h, req.filter)
    requires req.decrypt && LastCommand(s, h, LC_ENCRYPTION_INFO).Some? && !req.rehash && req.sign.None?
    ensures Pass(s, h, req, hash, sha1).slice == AfterDecrypt(s, h, req, hash)
  {
    assert AfterRehash(s, h, req, hash, sha1) == AfterDecrypt(s, h, req, hash);
  }

  /** The blob at `data` gives back the entitlements under -e, and -s
      changes nothing in the slice. */
  ghost predicate ReadsBack(o: seq<byte>, data: u32, entitlements: Option<seq<byte>>, sha1: Generator.Sha1)
  {
    && SuperBlob.Extractable(o, data)
    && SuperBlob.Extracted(o, data, SuperBlob.Count(o, data)) == (if entitlements.Some? then entitlements.value else [])
    && SuperBlob.TableFits(o, data) && SuperBlob.Rehashable(o, data, sha1, SuperBlob.Count(o, data))
    && SuperBlob.Rehashed(o, data, sha1, SuperBlob.Count(o, data)) == o
  }

  /** -S writing the signature and zeros over a room that holds it leaves
      a blob that reads back. */
  lemma SignedRoom(t: seq<byte>, data: u32, size: u32, id: Identity, sha1: Generator.Sha1)
    requires data + size <= |t| && Generator.Layout(data, id.name, id.entitlements).end <= size
    ensures Generator.Signable(data, id.name, id.entitlements)
    ensures var end := Generator.Layout(data, id.name, id.entitlements).end;
      ReadsBack(Splice(t, data, Generator.Signature(t, data, id.name, id.entitlements, sha1) + Zeros(size - end)), data, id.entitlements, sha1)
  {
    var end := Generator.Layout(data, id.name, id.entitlements).end;
    SuperBlob.SignLeavesSigned(t, data, id.name, id.entitlements, sha1, size - end);
    var o := Splice(t, data, Generator.Signature(t, data, id.name, id.entitlements, sha1) + Zeros(size - end));
    SuperBlob.ExtractSigned(o, t, data, id.name, id.entitlements, sha1);
    SuperBlob.RehashSigned(o, t, data, id.name, id.entitlements, sha1);
  }

  /** Where -S writes: the dataoff the LC_CODE_SIGNATURE holds once -s
      is done. */
  function RoomData(s: seq<byte>, h: Header, req: Request, hash: Mutators.Hasher, sha1: Generator.Sha1): u32
    requires Fits(s, h, req, hash, sha1) && LastCommand(s, h, LC_CODE_SIGNATURE).Some?
  {
    DataOff(AfterRehash(s, h, req, hash, sha1), LastCommand(s, h, LC_CODE_SIGNATURE).value, h.swapped)
  }

  /** What a pass with -S leaves in a selected slice is signed: the room
      its LC_CODE_SIGNATURE points at holds a blob from which -e reads
      back the entitlements signed with, and on which -s changes
      nothing. */
  lemma SignedPass(s: seq<byte>, h: Header, req: Request, hash: Mutators.Hasher, sha1: Generator.Sha1)
    requires Fits(s, h, req, hash, sha1) && req.sign.Some? && Mutators.Selected(s, h, req.filter)
    requires Pass(s, h, req, hash, sha1).result.Ok?
    ensures LastCommand(s, h, LC_CODE_SIGNATURE).Some?
    ensures ReadsBack(Pass(s, h, req, hash, sha1).slice, RoomData(s, h, req, hash, sha1), req.sign.value.entitlements, sha1)
  {
    PassFinished(s, h, req, hash, sha1);
    FinishedSigned(s, h, req, hash, sha1);
  }

  /** A selected slice the pass does not fail on is finished. */
  lemma PassFinished(s: seq<byte>, h: Header, req: Request, hash: Mutators.Hasher, sha1: Generator.Sha1)
    requires Fits(s, h, req, hash, sha1) && Mutators.Selected(s, h, req.filter)
    requires Pass(s, h, req, hash, sha1).result.Ok?
    ensures Pass(s, h, req, hash, sha1) == Finished(s, h, req, hash, sha1)
  {
  }

  /** The same for the end of the pass. */
  lemma FinishedSigned(s: seq<byte>, h: Header, req: Request, hash: Mutators.Hasher, sha1: Generator.Sha1)
    requires Fits(s, h, req, hash, sha1) && req.sign.Some?
    requires Finished(s, h, req, hash, sha1).result.Ok?
    ensures LastCommand(s, h, LC_CODE_SIGNATURE).Some?
    ensures ReadsBack(Finished(s, h, req, hash, sha1).slice, RoomData(s, h, req, hash, sha1), req.sign.value.entitlements, sha1)
  {
    var c := LastCommand(s, h, LC_CODE_SIGNATURE).value;
    var t := AfterRehash(s, h, req, hash, sha1);
    SignedRoom(t, DataOff(t, c, h.swapped), DataSize(t, c, h.swapped), req.sign.value, sha1);
  }
}
