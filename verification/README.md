# ldid, modelled in Dafny

ldid edits the code signature of Mach-O files, thin or fat (a fat file holds
several slices, one per architecture). This project models its core,
`ldid.cpp`.

- **Byte model.** Byte-order swapping, 32-bit alignment and fixed-width
  field access are modelled over byte sequences (`Bytes`). In-place stores
  and copies are methods on an `array<byte>` (`Buffer`).
- **Mach-O reading.** The header, the load-command walk, segment and
  section lookup, and address translation (`MachO`). The fat header's
  architecture table (`Fat`).
- **First pass of -S/-r.** For each slice, the code limit and the room the
  signature gets, then where each slice goes in the output (`Planner`).
- **Second pass.** The output is built from the plans (`Relocator`). It is
  zero-filled, and the fat header and records are written big-endian. Each
  slice is copied into its room and edited there: the optional
  LC_CODE_SIGNATURE removal (-r), the signature command appended or
  re-pointed (-S), and the __LINKEDIT stretch (`SliceEdits`, `Linkedit`,
  `Edits`).
- **Third pass.** Each slice is filtered by -A (`SlicePass`). Then come the
  load-command scan with the -T timestamp (`Mutators`), -D, -e and -s on
  the embedded SuperBlob (`SuperBlob`), and the -S signature generator
  (`Generator`, `CodeSign`).

Each imperative part of the source (the loops over commands, index
entries and pages, and the in-place writes) is a method on an array,
proved against a function on sequences. Properties of the format are
proved about those functions. Examples: the signature -S writes reads back
through the SuperBlob index; -s on a freshly signed slice changes nothing;
the fat table the second pass writes decodes to one slice per room, at its
planned offset.

The model follows the code, also where the code differs from ldid's
documented behaviour:

- `MachO.ParseHeader` rejects MH_OBJECT. Only MH_EXECUTE, MH_DYLIB and
  MH_BUNDLE pass the assertion in the header constructor
  (ldid.cpp:455-459).
- ldid never checks a command's `cmdsize`: a zero or out-of-range size is
  not detected. The model asks for well-formed commands instead (see
  "Left out").

The exceptions are the places where the code is evidently wrong. There
the model keeps a member for the code as written and proves the
discrepancy on it, and the rest of the model uses a corrected definition.
Each such case is a row under "Findings". One example: a slice's start is
aligned to `1 << align` alone (ldid.cpp:1015), not to at least 16, and the
model uses the corrected start.

## Model

| member | source | states |
|---|---|---|
| Bytes.Swap16Involutive | ldid.cpp:307-311 | Swap_ on 16 bits undoes itself |
| Bytes.Swap32Involutive | ldid.cpp:313-319 | Swap_ on 32 bits (swap within halves, then swap halves) undoes itself |
| Bytes.Swap32Reverses | ldid.cpp:313-319 | Swap_ on 32 bits reverses the four bytes of the value |
| Bytes.Swap64Involutive | ldid.cpp:321-326 | Swap_ on 64 bits undoes itself |
| Bytes.Get32IsSwappedLoad | ldid.cpp:389-391 | reading a field through Data::Swap is the host's little-endian load, byte-reversed exactly when the slice is swapped |
| Bytes.Get32OtherOrder | ldid.cpp:342-352 | a field read in the other byte order is the byte-reversed value, which is what the global Swap does to a raw load |
| Bytes.Encode32 | ldid.cpp:389-391 | storing a value through Swap produces four bytes that read back as the value in the same byte order |
| Bytes.Get64IsSwappedLoad | ldid.cpp:393-395 | the 64-bit field read is the little-endian load, byte-reversed when swapped |
| Bytes.Align | ldid.cpp:299-305 | Align(value, align) is the least multiple of align at or above value |
| Bytes.AlignLeast | ldid.cpp:299-305 | no multiple of align at or above value lies below Align(value, align) |
| Bytes.Put32 | ldid.cpp:1091-1092 | a 32-bit store makes the field read back as the value and changes no other byte |
| Bytes.Splice | ldid.cpp:1058 | memcpy of a piece at an offset: the piece's bytes there, every other byte kept, length kept |
| Bytes.NameMatches | ldid.cpp:499 | strncmp(field, name, 16) == 0 holds exactly when the field holds the name followed by a NUL |
| Fat.FatOrder | ldid.cpp:607-611 | a file is fat exactly when its magic is FAT_MAGIC or FAT_CIGAM, and the order found makes the magic read as FAT_MAGIC |
| Fat.BigEndianOrder | ldid.cpp:607-610 | a file whose magic is FAT_MAGIC when read big-endian is read big-endian |
| Fat.GetSlices | ldid.cpp:602-624 | a thin file is one slice over the whole file; a fat file lists nfat_arch slices, slice i at the offset and size of record i |
| Fat.ArchSlices | ldid.cpp:614-622 | the arch loop gives one slice per record, in record order |
| Fat.SliceHeaders | ldid.cpp:612-620 | every slice is parsed as a Mach-O header; the result fails exactly when some slice fails, and otherwise holds each slice's header in order |
| Fat.ThinIsWholeFile | ldid.cpp:610-612 | a thin file's only slice is the whole file with the file's own header |
| MachO.ParseHeader | ldid.cpp:428-461 | accepts exactly a 32- or 64-bit magic in either byte order with filetype MH_EXECUTE, MH_DYLIB or MH_BUNDLE; swapped exactly when the magic reads as CIGAM; 64-bit exactly when the magic is MH_MAGIC_64 |
| MachO.MagicOrders | ldid.cpp:433-447 | a magic reads as MH_MAGIC in the other order exactly when it reads as MH_CIGAM in the host's |
| MachO.GetCPUSubtype | ldid.cpp:474-476 | the CPU subtype keeps only its low byte |
| MachO.GetLoadCommands | ldid.cpp:482-492 | ncmds commands, each inside the command area, pairwise disjoint, walked by cmdsize from the end of the header |
| MachO.WalkShaped | ldid.cpp:485-489 | every command the walk visits lies between the start and the end of the command chain |
| MachO.WalkDisjoint | ldid.cpp:485-489 | the commands the walk visits do not overlap |
| MachO.FindLast | ldid.cpp:964-971 | the scan's signature is the last command of its kind: none after it has that kind, or no command has it |
| MachO.FindFirst | ldid.cpp:1062-1068 | the relocator's signature is the first LC_CODE_SIGNATURE: none before it, or none at all |
| MachO.LastCommand | ldid.cpp:1126-1135 | the last listed command of a kind, as a byte offset, or none exactly when no listed command has that kind |
| MachO.GetSegments | ldid.cpp:494-506 | exactly the listed LC_SEGMENT commands whose 16-byte name compares equal |
| MachO.GetSegments64 | ldid.cpp:508-520 | exactly the listed LC_SEGMENT_64 commands whose 16-byte name compares equal |
| MachO.SegmentsIn | ldid.cpp:497-503 | the filter loop keeps a command exactly when it is a segment of the kind with the name |
| MachO.SectionsFrom | ldid.cpp:528-533 | the section loop lists every section of the segment with the name, and only sections of its table |
| MachO.GetSections | ldid.cpp:522-537 | every section named sectname in a segment named segname, and only such sections |
| MachO.CoveringSection | ldid.cpp:551-559 | a section of the segment that covers the address, or none exactly when no section from k on covers it |
| MachO.CoveringSectionFirst | ldid.cpp:551-559 | the covering section found is the first in table order |
| MachO.PointerSection | ldid.cpp:543-565 | a section of a searched segment that covers the address, or none exactly when no searched segment has one |
| MachO.PointerSectionFirst | ldid.cpp:543-565 | the section found is the first covering one in command order, then in table order |
| MachO.GetPointer | ldid.cpp:540-568 | an address maps to a file offset exactly when some searched section covers it; the offset is address - addr + offset of the first such section |
| Mutators.SubtypeIsLowByte | ldid.cpp:474-476 | the subtype -A compares is the first byte of the field in the slice's order |
| Mutators.SelectedIffMatch | ldid.cpp:1116-1121 | -A keeps a slice exactly when its cputype and its cpusubtype's low byte equal the requested ones |
| Mutators.Stamp | ldid.cpp:1137-1148 | -T writes the given value, or the hash of the slice with the timestamp zeroed, into the timestamp field of an LC_ID_DYLIB, and changes nothing else |
| Mutators.StampAt | ldid.cpp:1137-1148 | the in-place -T store leaves the slice Stamp describes |
| Mutators.StampKeepsCommands | ldid.cpp:1137-1148 | a stamp keeps the slice well-formed, with the same commands of the same kinds |
| Mutators.StampedKeepsCommands | ldid.cpp:1126-1150 | stamping every LC_ID_DYLIB in turn keeps the command list and kinds |
| Mutators.StampedNext | ldid.cpp:1126-1150 | the scan stamps command i exactly when it is an LC_ID_DYLIB and -T is given |
| Mutators.LastInIsLast | ldid.cpp:1126-1135 | the pointer the loop last assigns is the last command of the kind |
| Mutators.ScanEnd | ldid.cpp:1126-1150 | at the end of the loop the slice is stamped and the two pointers are the last signature and encryption commands |
| Mutators.VisitCommand | ldid.cpp:1127-1149 | one step of the scan keeps its invariant |
| Mutators.ScanCommands | ldid.cpp:1126-1150 | the scan leaves every LC_ID_DYLIB stamped and gives the last LC_CODE_SIGNATURE and the last LC_ENCRYPTION_INFO |
| Mutators.Decrypted | ldid.cpp:1152-1155 | -D changes only the four bytes of cryptid |
| Mutators.DecryptedReadsZero | ldid.cpp:1154 | after -D, cryptid reads 0 in either byte order |
| Mutators.DisableEncryption | ldid.cpp:1152-1155 | fails exactly when there is no LC_ENCRYPTION_INFO, leaving the slice; otherwise zeroes its cryptid |
| Mutators.DecryptedKeepsCommands | ldid.cpp:1152-1155 | -D keeps the slice well-formed with the same commands |
| Planner.CodeLimit | ldid.cpp:974-986 | the limit starts at an existing signature's dataoff, or the slice's end, and fails when that start is beyond the slice; an LC_SYMTAB's string table must end within 16 bytes below that start, and its end becomes the limit |
| Planner.ReservedSize | ldid.cpp:988-1011 | no room when stripping; otherwise the signature's length for the limit's pages, rounded up to 16 |
| Planner.ReservedHoldsSignature | ldid.cpp:1009-1010 | the room holds a signature over the limit padded to 16 bytes |
| CodeSign.PagesOfAligned | ldid.cpp:1009 | padding the limit to 16 bytes does not change its page count |
| Planner.PlanSlice | ldid.cpp:960-1017 | a slice gets a plan exactly when its code limit is defined; the plan holds that limit, the slice's align and the room for it |
| Planner.SliceAlignment | ldid.cpp:1014-1015 | the corrected slice start alignment is a multiple of 16 and of 2^align |
| Planner.Pow2Add | ldid.cpp:1015 | 1 << (a + b) == (1 << a) * (1 << b) |
| Planner.Layout | ldid.cpp:955-1019 | the layout loop gives each slice's start and the file size the output is truncated to |
| Planner.FootprintFits | ldid.cpp:1015-1019 | a slice's padded limit and room fit before the next running offset |
| Planner.LayoutSound | ldid.cpp:955-1019 | every slice starts aligned after the fat table, slices do not overlap, and each lies inside the output |
| Planner.LayoutInside | ldid.cpp:1018-1019 | every slice ends inside the output |
| Planner.LayoutOrdered | ldid.cpp:1018-1019 | each slice ends before the next one starts |
| Planner.LayoutAligned | ldid.cpp:1015 | every slice starts at a multiple of 16 and of its 2^align, after the fat table |
| Planner.FirstSliceOverrun | ldid.cpp:1014-1019 | as written, a first slice with align 0 starts at 28 and its fat size runs 12 bytes past the output; the corrected start stays inside |
| Relocator.FatHeaderBytes | ldid.cpp:1036-1037 | the fat header reads, big-endian, FAT_MAGIC and the slice count |
| Relocator.ArchBytes | ldid.cpp:1048-1054 | a fat record reads, big-endian, the five fields given |
| Relocator.Record | ldid.cpp:1048-1054 | a slice's fat record holds its cputype and cpusubtype, its offset, its padded limit plus room, and its align |
| Relocator.CPUTypeAsWrittenReversed | ldid.cpp:1049 | as written, a swapped slice's record holds its cputype byte-reversed (PowerPC 18 listed as 0x12000000) |
| Relocator.Placed | ldid.cpp:1015-1019 | the rooms lie after the fat table, inside the output, and apart |
| Relocator.RoomIs | ldid.cpp:1043-1105 | a slice's room is the slice copied up to its limit, zero-padded, then edited by SliceEdits.EditSlice with the signature at the padded limit |
| Relocator.WrittenRoom | ldid.cpp:1056-1058 | after n slices are written, every earlier slice's room holds its edited bytes |
| Relocator.WrittenHeader | ldid.cpp:1033-1038 | the fat header survives every slice written after it |
| Relocator.WrittenRecord | ldid.cpp:1047-1054 | every record written survives the later slices |
| Relocator.WrittenZero | ldid.cpp:1029 | a byte outside the table and the rooms written so far is still the memset's zero |
| Relocator.CopyIn | ldid.cpp:1056-1058 | memcpy of the limit's bytes into a zeroed room gives the zero-padded copy |
| Relocator.RelocateSlice | ldid.cpp:1043-1105 | the in-place copy and edits leave the slice's room holding Room and nothing else changed |
| Relocator.RelocateNext | ldid.cpp:1041-1105 | one loop step writes the next record and room |
| Relocator.RelocateAll | ldid.cpp:1041-1105 | the loop over allocations writes every record and room |
| Relocator.Relocatable | ldid.cpp:1022-1105 | the prepared slices' layout, records and rooms satisfy the loop's invariant, and the file written is Output |
| Relocator.Relocate | ldid.cpp:1022-1105 | the second pass returns a fresh buffer holding Output |
| Relocator.TableReads | ldid.cpp:602-620 | a fat table written big-endian decodes to one slice per record, in order |
| Relocator.RelocatedTable | ldid.cpp:1022-1105 | the output, read back by the FatHeader constructor, lists one slice per input slice, at its planned offset with its footprint as size, holding its edited room |
| Relocator.RoomSignature | ldid.cpp:1082-1092 | when signing, the edited room lists an LC_CODE_SIGNATURE pointing at the reserved room, which ends at the room's end |
| Relocator.RoomSignable | ldid.cpp:988-1011 | when signing, the signature -S will write fits the room the first pass reserved |
| SliceEdits.CopiedSpec | ldid.cpp:1058-1059 | the copied slice keeps the bytes below the limit, zeroes the rest, and keeps the header and commands |
| SliceEdits.Removed | ldid.cpp:1075-1076 | memmove of the following commands down over the removed one, then zeroing the freed tail of the command area |
| SliceEdits.Strip | ldid.cpp:1070-1080 | -r leaves one command fewer and sizeofcmds smaller by the removed command's size |
| SliceEdits.StripSpec | ldid.cpp:1070-1080 | after -r the slice is valid and its header decodes as before; its command list is the old one without the removed command, those before it in place and those after it moved down by its cmdsize |
| SliceEdits.StripStage | ldid.cpp:1059-1080 | with -r the first LC_CODE_SIGNATURE is removed and no signature command is kept; without it the slice and its first signature command are kept |
| SliceEdits.AppendSignature | ldid.cpp:1083-1089 | a 16-byte LC_CODE_SIGNATURE is written after the last command and both counts grow in 32-bit arithmetic, with nothing else changed |
| SliceEdits.AppendSpec | ldid.cpp:1083-1089 | in a slice under 4 GiB with 16 free bytes, the appended command is the last of a valid list one command longer |
| SliceEdits.PointSignature | ldid.cpp:1091-1092 | dataoff and datasize read back as the values given, and nothing else changes |
| SliceEdits.PointSpec | ldid.cpp:1091-1092 | re-pointing keeps the slice valid with the same commands and segments |
| SliceEdits.SignStage | ldid.cpp:1082-1092 | the kept signature command is reused, or one is appended; either way it is listed and points at the room |
| SliceEdits.SignedSlice | ldid.cpp:1059-1092 | after -r and -S the slice is valid and, exactly when signing, lists a signature command pointing at the room |
| SliceEdits.EditSlice | ldid.cpp:1059-1105 | the edited slice is valid and every __LINKEDIT segment ends at the room's end with a page-rounded vmsize |
| SliceEdits.EditedSignature | ldid.cpp:1082-1105 | the __LINKEDIT stretch keeps the signature command -S pointed |
| SliceEdits.StretchKeepsSignature | ldid.cpp:1094-1105 | the stretch changes no field of a listed LC_CODE_SIGNATURE |
| Linkedit.PageRound32 | ldid.cpp:1098 | Align(size, 0x1000) cut to 32 bits is a page multiple within a page above size |
| Linkedit.Resize32 | ldid.cpp:1095-1099 | a 32-bit __LINKEDIT gets filesize end - fileoff in 32-bit arithmetic (wrapping when fileoff lies past end) and vmsize the page-rounded filesize, in the slice's order, and nothing else changes |
| Linkedit.Resize64 | ldid.cpp:1101-1105 | the same for a 64-bit __LINKEDIT, in 64-bit arithmetic |
| Linkedit.Resize32AsWrittenFilesize | ldid.cpp:1096-1097 | as written, filesize still reads back as end - fileoff in both byte orders |
| Linkedit.Resize32AsWrittenVmsize | ldid.cpp:1098 | as written, vmsize holds Align of the byte-swapped size |
| Linkedit.Resize32SwappedVmsize | ldid.cpp:1095-1099 | as written, a swapped slice whose __LINKEDIT must reach 0x1001 keeps vmsize 0x1001, not a page multiple; the corrected stretch gives 0x2000 |
| Linkedit.Resize64SwappedVmsize | ldid.cpp:1101-1105 | the same for a 64-bit __LINKEDIT |
| Linkedit.ResizeLinkedit | ldid.cpp:1094-1105 | both loops keep the layout and leave every __LINKEDIT, 32-bit and 64-bit, ending at the room's end with a page-rounded vmsize |
| Linkedit.ResizeAll32Ends | ldid.cpp:1095-1099 | after the 32-bit loop every listed segment ends at the room's end |
| Linkedit.OtherCommandsKept | ldid.cpp:1094-1105 | the stretch changes no byte of a command that is not a segment |
| SuperBlob.ExtractedNext | ldid.cpp:1166-1171 | one more index entry adds its payload exactly when it is an entitlements blob |
| SuperBlob.ExtractEntry | ldid.cpp:1166-1171 | one loop step appends what fwrite writes for that entry |
| SuperBlob.ExtractEntitlements | ldid.cpp:1157-1172 | -e fails exactly when there is no LC_CODE_SIGNATURE; otherwise it writes the payload of every entitlements blob in index order |
| SuperBlob.RehashStepAt | ldid.cpp:1178-1196 | one -s step rewrites a CodeDirectory's code hashes with the hashes of the pages below the signature |
| SuperBlob.RehashEntry | ldid.cpp:1178-1196 | the in-place step leaves the slice RehashStep describes |
| SuperBlob.RehashDirectories | ldid.cpp:1178-1196 | the -s loop leaves every CodeDirectory's hashes recomputed in index order |
| SuperBlob.Rehash | ldid.cpp:1174-1197 | -s fails exactly when there is no LC_CODE_SIGNATURE, leaving the slice; otherwise it rehashes every CodeDirectory |
| SuperBlob.RehashedKeepsTable | ldid.cpp:1178-1196 | -s keeps the slice's length and the SuperBlob index |
| SuperBlob.SignLeavesSigned | ldid.cpp:1199-1295 | what -S writes holds the generator's signature over the code below it |
| SuperBlob.ExtractSigned | ldid.cpp:1157-1172 | -e on a slice -S signed writes exactly the entitlements it was signed with, or nothing |
| SuperBlob.RehashSigned | ldid.cpp:1174-1197 | -s on a slice -S signed changes nothing |
| Generator.CodeSlots | ldid.cpp:1243-1244 | pages is ceil(data / 4096), or 0 when the 32-bit sum wraps |
| Generator.PageHashes | ldid.cpp:1246-1250 | one 20-byte hash per page |
| Generator.HashOfPage | ldid.cpp:1246-1250 | hash i is SHA-1 of page i, the last page ending at data |
| Generator.PageSpan | ldid.cpp:1248-1250 | page i ends at the next page boundary, or at data for the last one |
| Generator.FullPagesAgree | ldid.cpp:1191-1192 | for pages > 0 the corrected guard hashes the same pages - 1 full pages as the loop as written |
| Generator.EmptyDirectoryOverrun | ldid.cpp:1191-1192 | as written, pages == 0 runs the full-page loop 2^32 - 1 times, reading past any slice; the corrected guard runs it zero times |
| Generator.HashPages | ldid.cpp:1246-1250 | the page-hash loop writes each page's hash at its slot, reading only pages below the slots |
| Generator.HashPage | ldid.cpp:1247-1250 | one step writes hash i |
| Generator.PlacingLength | ldid.cpp:1203-1287 | the generator's final offset equals the planner's count of signature bytes |
| Generator.UnhashedParts | ldid.cpp:1208-1275 | before the special slots are hashed, the blob is the SuperBlob header and index, the CodeDirectory, the identifier and NUL, zeroed special slots, the code hashes, the Requirements blob and the optional Entitlements blob |
| Generator.WriteUnhashed | ldid.cpp:1208-1275 | the in-place writes leave that blob at data |
| Generator.SlotPass | ldid.cpp:1277-1284 | one special-slot step stores the hash of the indexed blob at slot hashes - type |
| Generator.HashSpecialSlots | ldid.cpp:1277-1284 | the special-slot loop hashes every blob whose type is at most the highest special slot |
| Generator.Sign | ldid.cpp:1199-1295 | fails exactly when the signature is longer than datasize, leaving the slice; otherwise writes the signature followed by zeros up to datasize |
| Generator.SignatureHeader | ldid.cpp:1286-1287 | the SuperBlob reads magic 0xfade0cc0, its own length and a count of 2 or 3 |
| Generator.SignatureIndex | ldid.cpp:1213-1269 | index entry i holds its slot type and offset, and each blob after the CodeDirectory lies at its offset with its own length |
| Generator.SignatureDirectory | ldid.cpp:1216-1262 | the CodeDirectory reads its magic, length, version 0x20001, flags 0, hashOffset, identOffset, nSpecialSlots, nCodeSlots, codeLimit = data, and hash size 20, type 1, page size 2^12 |
| Generator.SignatureIdentifier | ldid.cpp:1230-1232 | the identifier and its NUL follow the CodeDirectory |
| Generator.SignatureCodeHash | ldid.cpp:1246-1250 | code hash i is SHA-1 of page i of the code below data |
| Generator.SignatureSpecialSlots | ldid.cpp:1234-1284 | the Requirements slot holds SHA-1 of the Requirements blob, the Entitlements slot that of the Entitlements blob, and the others are zero |
| Generator.SignFitsReserve | ldid.cpp:988-1011 | the signature for the padded limit fits the room the planner reserved for that limit |
| SlicePass.Pass | ldid.cpp:1112-1296 | an unselected slice is left alone; otherwise scan, -D, -e, -s and -S run in order and the pass stops at the first step that fails, keeping what -e wrote before it |
| SlicePass.Finished | ldid.cpp:1199-1295 | -S fails without an LC_CODE_SIGNATURE, or when the signature does not fit datasize; otherwise the room holds the signature and zeros; what -e wrote is reported either way |
| SlicePass.FinishedFailures | ldid.cpp:1199-1295 | the end of a pass fails only under -S, and only for want of an LC_CODE_SIGNATURE or of room |
| SlicePass.OutputKept | ldid.cpp:1157-1172 | a pass that gets past -s reports what -e wrote, also when -S then fails; any other pass writes nothing |
| SlicePass.SignSlice | ldid.cpp:1199-1295 | -S on the array: fails without a signature command, then exactly as Generator.Sign on the command's dataoff and datasize |
| SlicePass.Scan | ldid.cpp:1126-1155 | the scan and -D: fails exactly when -D finds no LC_ENCRYPTION_INFO, leaving the stamped slice; otherwise the slice after -D |
| SlicePass.Read | ldid.cpp:1157-1197 | -e and -s fail exactly when one is given and there is no LC_CODE_SIGNATURE, writing nothing; otherwise they give what -e writes and the slice after -s |
| SlicePass.Finish | ldid.cpp:1199-1295 | -S on the array, after what -e wrote, leaves the slice, output and result Finished describes |
| SlicePass.Run | ldid.cpp:1112-1296 | the third pass on one slice's array leaves exactly the slice, output and result Pass describes |
| SlicePass.PassAsWritten | ldid.cpp:1109 | the pass on ldid's mapping: -D's store faults when the mapping is read-only, and is Pass otherwise |
| SlicePass.DecryptReadOnly | ldid.cpp:1152-1155 | as written, -D without -T, -s or -S on a slice with an LC_ENCRYPTION_INFO fails at the store, leaving the slice unchanged |
| SlicePass.AsWrittenAgrees | ldid.cpp:1109 | with a writable mapping, or without -D, the pass as written is Pass |
| SlicePass.DecryptClears | ldid.cpp:1152-1155 | -D on a selected slice with an LC_ENCRYPTION_INFO gets past -D, and without -s or -S the slice left reads cryptid 0 |
| Mutators.UnstampedKept | ldid.cpp:1126-1150 | without -T the scan changes no byte |
| SlicePass.MissingSignatureIff | ldid.cpp:1157-1200 | a pass fails for want of an LC_CODE_SIGNATURE exactly when the slice is selected, gets past -D, asks for -e, -s or -S and has none |
| SlicePass.SignedPass | ldid.cpp:1112-1296 | a selected slice that a pass with -S does not fail on is signed: -e reads back the entitlements it was signed with, and -s changes nothing |
| SlicePass.SignedRoom | ldid.cpp:1199-1295 | a room -S filled holds a blob that -e and -s read back |
| Buffer.Store32 | ldid.cpp:1091-1092 | a 32-bit store into the array is Bytes.Put32 on its contents |
| Buffer.Load32 | ldid.cpp:1160 | a 32-bit load from the array is Bytes.Get32 on its contents |
| Buffer.Write | ldid.cpp:1058 | memcpy into the array is Bytes.Splice on its contents |
| Buffer.Clear | ldid.cpp:1294 | memset to zero is a splice of zeros |

## Left out

- SHA-1 and the Jenkins `hash` used by -T are parameters (`Generator.Sha1`, `Mutators.Hasher`). Nothing is assumed about them beyond the digest length.
- Files, mmap, the temporary file and its rename, chown and chmod are left out. So are the argument parser, the usage text and the per-file error count. A slice arrives as a byte sequence or array, with its flags as a `SlicePass.Request`.
- -a printing `cpu=0x…:0x…` (ldid.cpp:1123-1124) is output only and is not modelled.
- The identifier is the bytes of a C string, so it holds no NUL. `flag_I` or the basename choice (ldid.cpp:948) is not modelled.
- MachO.GetLoadCommands: the model asks for well-formed commands (a chain of cmdsize steps inside the command area, each command large enough for the fields ldid reads). ldid checks none of this and reads out of bounds on a malformed file.
- SlicePass.Run: the precondition `Fits` asks that -e, -s and -S stay inside the slice. ldid reads and writes out of bounds otherwise.
- SuperBlob.ExtractEntitlements: the precondition asks that each entitlements blob lies inside the slice. ldid's fwrite reads past it otherwise.
- SuperBlob.Rehash: the precondition `Rehashable` asks that each CodeDirectory's hashes and pages lie inside the slice. Through `DirectoryFits` it also asks that the hashes start after the SuperBlob's index table and that the pages end at or below the hashes (`Generator.PagesBelow`). This excludes the overlaps in which ldid would hash bytes it has already rewritten in place.
- Relocator.Relocate: the precondition asks that the slices fit the 32-bit fields, and that there are 16 free bytes after the commands when a signature command is appended. ldid checks neither.
- Generator.Sign: checks that the signature fits datasize before writing anything. ldid writes first and then aborts at ldid.cpp:1289-1291. Since the aborted file is never renamed over the original, nothing observable differs.
- SlicePass.Pass: -D stores into the slice as if the mapping were always writable. ldid maps it writable only for -T, -s or -S, and faults otherwise (see "Findings"; the code as written is `SlicePass.PassAsWritten`).
- A slice with two LC_CODE_SIGNATURE commands is modelled as the code reads it. The second pass points the first one (ldid.cpp:1062-1068); the first and third passes use the last.
- Relocator.Record: stores the cputype and cpusubtype as read in the slice's byte order, the intended value. The as-written byte reversal is shown by Relocator.CPUTypeAsWrittenReversed (see "Findings").
- Relocator.RelocatedTable: takes the list of Jobs as given. No member builds it from the input's Fat.GetSlices, so a plan's align is not tied to the align field of the input's fat record (ldid.cpp:1013-1014).


## Findings

| source | as written | input that shows it | evidently intended | confidence | as-written member | corrected member |
|---|---|---|---|---|---|---|
| ldid.cpp:1014-1019 | a slice starts at `Align(offset, 1 << align)` | a one-slice fat file with align 0, signed, whose limit is 1 to 4 bytes past a multiple of 16: the slice starts at 28 and its fat size runs 12 bytes past the file the output is truncated to | slice starts aligned to at least 16, so every slice lies inside the output | not executed | Planner.FirstSliceOverrun | Planner.LayoutSound |
| ldid.cpp:1049-1050 | `fat_arch->cputype = Swap(source->cputype)` and the same for cpusubtype: the raw field, not the slice's value | a big-endian PowerPC slice (cputype 18) in a fat file is listed with cputype 0x12000000 | the record holds the slice's cputype and cpusubtype | not executed | Relocator.CPUTypeAsWrittenReversed | Relocator.Record |
| ldid.cpp:1095-1105 | `size` is already byte-swapped when `vmsize = Align(size, 0x1000)` is computed | a byte-swapped slice whose __LINKEDIT starts at file offset 0 and must reach 0x1001: vmsize reads back 0x1001, not a page multiple | vmsize is filesize rounded up to a page in the slice's byte order (0x2000) | not executed | Linkedit.Resize32SwappedVmsize | Linkedit.ResizeLinkedit |
| ldid.cpp:1189-1195 | `if (pages != 1) for (i = 0; i != pages - 1; ++i)` with a 32-bit `pages`, here and again at ldid.cpp:1246-1247 | -s on a CodeDirectory whose nCodeSlots is 0: the loop runs 2^32 - 1 times, reading 4 GiB past the slice | no full page is hashed when there are no pages | not executed | Generator.EmptyDirectoryOverrun | Generator.HashPages |
| ldid.cpp:1109 | `Map mapping(temp ?: path, flag_T \|\| flag_s \|\| flag_S)`: without -T, -s or -S the file is mapped read-only and private (ldid.cpp:813-817) | `ldid -D` alone on a slice with an LC_ENCRYPTION_INFO (or `-D -e`, `-D -r`): the store `encryption->cryptid = 0` at ldid.cpp:1154 writes to a read-only page | -D is among the flags that map the file for writing, and clears cryptid | not executed | SlicePass.DecryptReadOnly | SlicePass.DecryptClears |
