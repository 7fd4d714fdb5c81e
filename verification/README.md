# Object files and archives in BFD: a verified model

This project models the parts of the Binary File Descriptor library (bfd/ in gdb-7.11) that
combine the most state and arithmetic, and proves what they are for: the a.out linker's symbol
table, header elimination and relocation; the layout of a.out files; the reader and writer of
archives; the in-memory file; the section list; and two targets' relocation arithmetic.

## How it is organised

The code that changes things step by step is imperative here too. Each loop or update is a
method, proved against a function of its inputs or of the old state; lemmas about that function
then say what the code promises. `dafny verify dfyconfig.toml` checks everything.

| files | what they model |
|---|---|
| `CBytes` | bytes, fixed-width words, endianness |
| `MemoryFile` | the buffer behind an in-memory BFD (bfdio.c) |
| `SectionList` | the doubly linked section list (bfd-in2.h) |
| `Tic30Reloc`, `ArmReloc` | relocation arithmetic (aout-tic30.c, aout-arm.c) |
| `AoutLayout` | OMAGIC, NMAGIC and ZMAGIC layout (aoutx.h) |
| `LinkModel`, `SymbolWalk`, `SymbolInvariants`, `SymbolOutput`, `FinalLink` | the linker's symbol table: one step, its invariants, which symbols are written and as what, the whole link in place (aoutx.h) |
| `HeaderScan`, `HeaderTree` | removing duplicate headers: the scans, and the recursive rewrite they implement (aoutx.h) |
| `LinkRelocs`, `RelocSections`, `RelocValues`, `RelocLoops`, `RelocExtSections`, `RelocSymbols` | relocation in partial and final links, and the symbols its relocs name (aoutx.h) |
| `ArchiveSymbols`, `NearestLine` | deciding whether a member is needed; finding a source line (aoutx.h) |
| `ArText`, `ArHeader` | numbers, padded fields, member headers (archive.c) |
| `ArNames`, `ArNameReading`, `ArBsd44` | long member names, written and read back (archive.c) |
| `ArMap` | symbol maps as bytes: BSD, COFF and 64-bit (archive.c, archive64.c) |
| `ArLayout`, `ArWriter` | member positions and writing an archive (archive.c, archive64.c) |
| `ArOpen`, `ArElements` | opening an archive, the element cache, stepping (archive.c) |
| `ArFormat` | archives byte for byte: marks, headers, maps, name tables, and what a reader refuses (archive.c, archive64.c) |
| `ArRoundTrip`, `ArBsd44RoundTrip` | the way from members to an archive and back, with a name table and with BSD 4.4 names (archive.c) |

## Where the code does not do what it promises

Each of these is a lemma or a contract that says exactly when the promise is kept.

- A 24-bit TMS320C30 field is documented to overflow outside -2^24 to 2^24 - 1. The code also
  complains when a negative and a positive number add up to a small non-negative one, such as
  -4 bytes (one word back) and 5 (`Tic30Reloc.BitfieldComplaint`, `Tic30Reloc.FalseComplaint`).
- The ARM linker writes the negated relocs without negating their negative size, and they do not
  read back, except the little-endian 32-bit one against a symbol (`ArmReloc.PutRelocThenHowto`).
- In an NMAGIC file a BSS without a fixed address is put where the data ended before they were
  padded to the BSS's alignment, so it follows them only if no padding was needed; and the padding
  is an int, so the data end on the alignment only if it is below 2^31
  (`AoutLayout.AoutFile.AdjustNMagic`, `AoutLayout.BssOverlapsPadding`, `AoutLayout.PaddingIsCut`).
- In a mapped-contiguous ZMAGIC file only gaps are to be filled. The test for a positive gap is on
  an unsigned value, so the text is also cut down or wrapped around when the data begin before
  its end: it grows to the data exactly if they do not (`AoutLayout.AoutFile.PlaceData`,
  `AoutLayout.FillsGap`, `AoutLayout.TextIsCut`).
- Setting N_EXT on a weak type turns weak data into weak BSS and weak absolute into weak text
  (`LinkModel.ExternalBitOnWeakTypes`).
- A header right behind an indirect symbol or a warning is taken for its target and not looked up,
  unless that symbol is itself taken for a target or discarded as a local label without an entry;
  otherwise it is (`HeaderTree.HeaderIsSeen`). A debugging symbol of type 0x2a, N_MAIN, is such a
  symbol (`HeaderTree.IndirectLookalikePassesHeader`). A header's end can be lost the same way
  (`HeaderTree.SkippedEndIsLost`).
- Of several definitions of a symbol the first that is met is written as its file has it, so a weak
  one keeps its type and address although the linker settled on a strong one in a later file: the
  record is right exactly if the definition met first is the one settled on
  (`SymbolInvariants.FirstDefinitionStays`, `SymbolInvariants.WeakDefinitionStays`).
- Pc-relative relocs differ between linking once and linking with -r first by a skew that depends
  on the section's address; two links agree exactly when it is a multiple of 2^32
  (`RelocSections.FieldAfterTwoLinks`, `RelocExtSections.FieldAfterTwoExtLinks`).
- A reloc has three bytes for a symbol's index, and names the right record exactly below 2^24; the
  first index beyond names symbol 0 (`RelocSymbols.LateSymbolsAreMistaken`,
  `RelocSymbols.FirstMistaken`). One against an entry that stands for no symbol gets the index -2
  (`FinalLink.FinalLink.RelocIndex`), which in three bytes is 0xfffffe
  (`RelocSymbols.NoSymbolIsNamed`).
- A name in the header is read back exactly if it stands there (`ArNameReading.ShortNameReads`):
  an SVR4 name that fills the field is cut at a blank (`ArNameReading.FullNameIsCut`), and "#1" put
  in a header that referred to a name table can become the announcement of a BSD 4.4 name
  (`ArNameReading.NumberOneIsMisread`).
- A name in the table is read back exactly if it has no newline, backslash or, without the SVR4
  slash, final slash (`ArNameReading.EntryConverts`). The place of a nested member is read back
  exactly if its digits leave a blank in the field, or what digits stand behind the field complete
  it; where the field has 16 bytes, the date stands behind it (`ArNameReading.PlaceReadIsExact`,
  `ArNameReading.DateIsReadAlong`).
- An archive without a name table is opened as written exactly if its first member's header does not
  look like that of a name table nor, without a map, like that of a map, nor, behind a COFF map,
  like that of a second one (`ArOpen.OpensAsWritten`, `ArOpen.OpensWithoutMap`). So a first member
  called "ARFILENAMES" is swallowed in SVR4 style (`ArRoundTrip.ArfilenamesIsTakenForTable`).
- With BSD 4.4 names a short name's header is left as it came from another archive, and is found
  exactly if it holds the name and the size in whatever way they are read
  (`ArBsd44RoundTrip.KeptHeaderReads`); a reference like "/123" to an SVR4 name table is not put
  right and loses the name (`ArBsd44RoundTrip.OldReferenceLosesName`).
- The symbol map's offsets are right exactly when the map and the name table together stay below
  4 GB, because their sum is an unsigned int (`ArOpen.MapIsExact`); and a BSD map in a thin
  archive counts contents that are not there (`ArLayout.AdvanceIsExact`).
- Stepping through an archive stops behind a member without contents, and in a thin archive at one
  that cannot be followed; it gets everywhere exactly otherwise (`ArElements.AllAreVisited`).

## What is assumed

- Allocation succeeds, and sizes and positions of files in memory stay below 2^63.
- A mask of the form 2^k - 1 is a remainder, and its complement what is left of it.
- In the linker, strings are kept in the records instead of by their index in the string table,
  and entries of the hash table are numbered so that indirect and warning links go downwards:
  they are acyclic, as the linker's own resolution needs them to be. Debugging symbols have no
  hash entry, which is how the input files are read.
- The relocs of one section patch fields that do not overlap. Addends are kept unwrapped; every
  statement about them is modulo 2^32.
- N_TEXT symbols looked at for ".o" have a name of at least two characters.
- The round trips of whole archives are about archives that open as they were written; what that
  takes is stated exactly (`ArOpen.OpensAsWritten`, `ArOpen.OpensWithoutMap`, `ArOpen.MapIsExact`).
- File names are C strings, those of an archive's members are distinct strings in memory, and
  names written behind a header are shorter than 2 GB.
- In archives, `adjust` and `canOpen` stand for path adjustment and for opening a thin archive's
  file; dates, owners and modes are the 32 bytes `stamp`, or part of the header a member brings.

## Model

| member | source | states |
|---|---|---|
| `MemoryFile.RunKeepsLastWrites` | gdb-7.11/bfd/bfdio.c:468-575 | After any run of reads, writes and seeks, each byte is the one the last write to its place put there; places never written read as zero |
| `MemoryFile.BeyondTheEndNothingWasWritten` | gdb-7.11/bfd/bfdio.c:468-575 | No write of the run reached a place beyond the end |
| `MemoryFile.InMemoryBfd.MemoryRead` | gdb-7.11/bfd/bfdio.c:468-487 | Reading gives the bytes at the position, cut off at the end |
| `MemoryFile.InMemoryBfd.MemoryWrite` | gdb-7.11/bfd/bfdio.c:488-516 | Writing overwrites or extends at the position, keeps capacity at the size rounded up to 128 and zeros between, and leaves the position to its caller |
| `MemoryFile.InMemoryBfd.MemorySeek` | gdb-7.11/bfd/bfdio.c:523-575 | Seeking past the end extends a writable file with zeros and stops a read-only one at its end; a negative target moves to 0 and fails |
| `MemoryFile.InMemoryBfd.Bread` | gdb-7.11/bfd/bfdio.c:176-204 | A read is the read step of the simple file, position included |
| `MemoryFile.InMemoryBfd.Bwrite` | gdb-7.11/bfd/bfdio.c:205-226 | A write is the write step of the simple file |
| `MemoryFile.InMemoryBfd.Bseek` | gdb-7.11/bfd/bfdio.c:278-355 | A seek is the seek step of the simple file, with its shortcuts and its failure path |
| `MemoryFile.InMemoryBfd.Perform` | gdb-7.11/bfd/bfdio.c:176-355 | Over every sequence of operations, buffer and results refine the simple file, and the invariant on size, capacity and position holds |
| `MemoryFile.WrittenIsReadBack` | gdb-7.11/bfd/bfdio.c:176-355 | What is written at a place is read back from it, after seeking there again or seeking back by its length |
| `SectionList.Unlink` | gdb-7.11/bfd/bfd-in2.h:1687-1702 | Taking a section out leaves links in both directions that describe the rest, and no link points back at a section that is out |
| `SectionList.Link` | gdb-7.11/bfd/bfd-in2.h:1703-1770 | Putting one in at any position does, whatever stale links the section carried |
| `SectionList.Bfd.Remove` | gdb-7.11/bfd/bfd-in2.h:1687-1702 | Removes exactly the section, which keeps its own links |
| `SectionList.Bfd.Append` | gdb-7.11/bfd/bfd-in2.h:1703-1721 | Adds the section at the end |
| `SectionList.Bfd.Prepend` | gdb-7.11/bfd/bfd-in2.h:1722-1740 | Adds it at the front |
| `SectionList.Bfd.InsertAfter` | gdb-7.11/bfd/bfd-in2.h:1741-1755 | Adds it right behind the given section |
| `SectionList.Bfd.InsertBefore` | gdb-7.11/bfd/bfd-in2.h:1756-1770 | Adds it right before the given section |
| `SectionList.Bfd.RemovedFromList` | gdb-7.11/bfd/bfd-in2.h:1771-1772 | Of a section that was ever in the list, true exactly when it is not in it now |
| `SectionList.Bfd.WalkForward` | gdb-7.11/bfd/bfd-in2.h:1687-1772 | Following next from the head visits the list in order |
| `SectionList.Bfd.WalkBackward` | gdb-7.11/bfd/bfd-in2.h:1687-1772 | Following prev from the tail visits the same list backwards |
| `Tic30Reloc.CheckOverflow` | gdb-7.11/bfd/aout-tic30.c:394-521 | The check complains about a pc-relative sum outside the signed range, and about a 24-bit sum whose unsigned reading does not fit and whose signed reading is not in -2^24 to -1 |
| `Tic30Reloc.RelocateContents` | gdb-7.11/bfd/aout-tic30.c:394-521 | The field becomes the sum modulo 2^bitsize, the status is the overflow check's, and no other byte changes |
| `Tic30Reloc.FinalLinkRelocate` | gdb-7.11/bfd/aout-tic30.c:523-545 | An address beyond the section's limit is refused untouched; otherwise, also in the section's last bytes, the relocation is value plus addend, less the place for a pc-relative one |
| `Tic30Reloc.PcrelFieldIsExact` | gdb-7.11/bfd/aout-tic30.c:229-241 | A pc-relative field decodes to the exact sum if and only if no overflow is reported |
| `Tic30Reloc.BothReadingsGiveTheField` | gdb-7.11/bfd/aout-tic30.c:394-521 | The signed and the unsigned reading of a 24-bit sum give the same field |
| `Tic30Reloc.BitfieldComplaint` | gdb-7.11/bfd/bfd-in2.h:2443-2460 | The complaint agrees with the documented range if and only if the sum is not one of opposite signs that lands in 0 to 2^24 - 1 |
| `Tic30Reloc.FalseComplaint` | gdb-7.11/bfd/aout-tic30.c:394-521 | -4 on a field of 5 is reported although the sum is 4 |
| `ArmReloc.FixPcrel26` | gdb-7.11/bfd/aout-arm.c:234-289 | A word-aligned displacement is accepted exactly in -2^25 to 2^25 - 1 and then decodes from the stored field; the opcode and all other bytes stay; early exits change nothing |
| `ArmReloc.CheckRange` | gdb-7.11/bfd/aout-arm.c:270-280 | The bit tests on a wrapped 64-bit displacement decide the signed range |
| `ArmReloc.SwapOutThenHowto` | gdb-7.11/bfd/aout-arm.c:364-454 | Every kind of reloc, with any 24-bit index and either byte order, is read back as it was written out |
| `ArmReloc.RecordOnDisk` | gdb-7.11/bfd/aout-arm.c:364-454 | The bytes of a record: the index most significant byte first, and each flag and the length in its bits, for either byte order |
| `ArmReloc.PutRelocThenHowto` | gdb-7.11/bfd/aout-arm.c:139-184 | The linker's own coding reads back if and only if the size is not negative, or it is the little-endian 32-bit negated reloc against a symbol |
| `AoutLayout.TextPadEndsOnPage` | gdb-7.11/bfd/aoutx.h:955-1014 | Padded text ends on a page boundary in memory if and only if its address was set by the user, or the default address, or the header for relocatable output, is page-aligned |
| `AoutLayout.AoutFile.PadText` | gdb-7.11/bfd/aoutx.h:955-1014 | Position, address and padded size of the text, in wrapping 64-bit arithmetic |
| `AoutLayout.AoutFile.PlaceData` | gdb-7.11/bfd/aoutx.h:1016-1039 | Data follow the text in the file; a contiguous image makes text and data as far apart in the file as in memory, and is made by filling a gap, so that the text grows to where the data begin, if and only if the data do not begin before the text ends |
| `AoutLayout.FillsGap` | gdb-7.11/bfd/aoutx.h:1027-1031 | The size given to the text is not less than it was and reaches to the data if and only if there is a gap or none is needed |
| `AoutLayout.TextIsCut` | gdb-7.11/bfd/aoutx.h:1027-1031 | Text of 0x1000 bytes at 0x10000 with data at 0x10800 is cut to 0x800 bytes |
| `AoutLayout.AoutFile.SizeData` | gdb-7.11/bfd/aoutx.h:1045-1070 | If the BSS directly follows, a_data + a_bss is the larger of a_data and data plus BSS; otherwise a_bss is the BSS's size |
| `AoutLayout.AoutFile.AdjustZMagic` | gdb-7.11/bfd/aoutx.h:955-1070 | All of these together for a ZMAGIC file, each from the addresses and sizes it was given |
| `AoutLayout.AoutFile.AdjustNMagic` | gdb-7.11/bfd/aoutx.h:1072-1112 | Padded data end on the BSS's alignment if and only if the padding is below 2^31; a default BSS follows them if and only if the data's end was already a multiple of the alignment, or of 2^32 |
| `AoutLayout.AoutFile.AdjustOMagic` | gdb-7.11/bfd/aoutx.h:895-953 | Data follow text in the file; padding closes the gap before the BSS exactly when it is below 2^31 |
| `AoutLayout.IntPad` | gdb-7.11/bfd/aoutx.h:1096-1097 | The padding as an int closes the gap to the boundary exactly below 2^31, and is nothing exactly for multiples of the boundary's low 32 bits |
| `AoutLayout.BssOverlapsPadding` | gdb-7.11/bfd/aoutx.h:1093-1105 | One byte of data before a BSS aligned to 16 is padded by 15 bytes that the BSS overlaps |
| `AoutLayout.PaddingIsCut` | gdb-7.11/bfd/aoutx.h:1096-1097 | Aligned to 2^32, the padding of one byte becomes -1 |
| `AoutLayout.AlignIs` | gdb-7.11/bfd/libbfd-in.h:35-38 | BFD_ALIGN gives the next multiple of the boundary, or all ones if that is beyond the address space |
| `AoutLayout.AlignPowerPads` | gdb-7.11/bfd/bfd-in2.h:281-282 | Aligning adds what is missing to the next multiple, also when the sum wraps |
| `LinkModel.ExternalBitOnWeakTypes` | gdb-7.11/bfd/aoutx.h:3590-3657 | N_EXT marks every ordinary type and leaves a weak type alone if and only if it is weak text or weak BSS |
| `HeaderScan.SumString` | gdb-7.11/bfd/aoutx.h:5129-5141 | The character loop that steps back over digits adds up the string without its file numbers |
| `HeaderScan.TotalIsSum` | gdb-7.11/bfd/aoutx.h:5129-5141 | The checksum of a string is the sum of its characters as signed 8-bit numbers, without those digits that only digits separate from an open parenthesis |
| `HeaderScan.OneCharacterCounts` | gdb-7.11/bfd/aoutx.h:5129-5141 | Exchanging one character for another moves it by their difference |
| `HeaderScan.FileNumberIsIgnored` | gdb-7.11/bfd/aoutx.h:5129-5141 | Changing the digits behind any open parenthesis does not change the checksum |
| `HeaderScan.ScanHeader` | gdb-7.11/bfd/aoutx.h:5106-5145 | The first scan adds up, modulo 2^64, the symbols directly in the header and none of a nested one |
| `HeaderScan.MarkHeader` | gdb-7.11/bfd/aoutx.h:5174-5202 | The second scan marks the header's own symbols and its end and nothing else |
| `HeaderTree.TotalOfForest` | gdb-7.11/bfd/aoutx.h:5106-5145 | Scanning across a balanced run adds the run's own symbols at depth 0 and nothing deeper |
| `HeaderTree.MarksOfForest` | gdb-7.11/bfd/aoutx.h:5174-5202 | Marking across one marks its own symbols at depth 0 and nothing deeper |
| `HeaderTree.FlatIsRewrite` | gdb-7.11/bfd/aoutx.h:4825-5231 | Over any forest of headers and plain symbols in which no header is taken for a target, in any context, the flat loop leaves the state and symbol map of the recursive rewrite and touches nothing outside |
| `HeaderTree.WriteSymbolsIsRewrite` | gdb-7.11/bfd/aoutx.h:4770-5249 | Writing a balanced input file in which no header is taken for a target is rewriting its tree |
| `HeaderTree.CalmIsUnpassed` | gdb-7.11/bfd/aoutx.h:4850-4975 | None is, whatever is discarded, where plain symbols follow indirect symbols and warnings |
| `HeaderTree.FirstOneIsKept` | gdb-7.11/bfd/aoutx.h:5147-5202 | In pre-order, a header is kept exactly when none before it has its name and checksum, and is an N_EXCL otherwise |
| `HeaderTree.RewriteWrites` | gdb-7.11/bfd/aoutx.h:5099-5203 | The rewrite writes one record per header, in pre-order and with that verdict, also inside dropped headers, and balanced output at any depth |
| `HeaderTree.DuplicatesAreExcluded` | gdb-7.11/bfd/aoutx.h:4825-5231 | So does the loop, for a whole input file in which no header and no end is taken for a target |
| `HeaderTree.BothHeadersAreKept` | gdb-7.11/bfd/aoutx.h:5099-5203 | Two headers of one name, one with "x:t1" and one with "y:t1" in it, are both written, with their checksums 343 and 344 and their stabs |
| `HeaderTree.SkippedEndIsLost` | gdb-7.11/bfd/aoutx.h:4859-4908 | An end behind an indirect symbol whose entry was written before is not written |
| `HeaderTree.HeaderIsSeen` | gdb-7.11/bfd/aoutx.h:4850-4975 | A header behind any symbol is looked up, and recorded if new, if and only if that symbol is no indirect symbol and no warning, or is taken for a target itself, or is discarded as a local label without an entry |
| `HeaderTree.IndirectLookalikePassesHeader` | gdb-7.11/bfd/aoutx.h:4946-4975 | A header behind a 0x2a symbol that is not taken for a target itself is written without being looked up or recorded |
| `SymbolInvariants.AtMostOneRecord` | gdb-7.11/bfd/aoutx.h:3552-3670 | In every coherent state, two records of the same hash entry are the same record |
| `SymbolInvariants.StepKeeps` | gdb-7.11/bfd/aoutx.h:4825-5231 | One symbol keeps the state coherent, writes at most one record and gets a slot that is a stripped marker or the index of the right record |
| `SymbolInvariants.WriteSymbolsKeeps` | gdb-7.11/bfd/aoutx.h:4770-5249 | After an input file, every slot of the symbol map is right, and at most one record more than symbols was written |
| `SymbolInvariants.WriteOtherKeeps` | gdb-7.11/bfd/aoutx.h:3552-3670 | Writing a hash entry keeps the state coherent and the records so far |
| `SymbolInvariants.NeedKeeps` | gdb-7.11/bfd/aoutx.h:4067-4085 | An entry needed after all gets its one record and its index if and only if it stands for a symbol, and -2 otherwise |
| `SymbolInvariants.TraverseCompletes` | gdb-7.11/bfd/aoutx.h:5543-5545 | After the traversal, every entry that stands for a symbol and is not stripped has an index |
| `SymbolInvariants.IndexStays` | gdb-7.11/bfd/aoutx.h:3659-3667 | An index once given never changes and keeps naming the entry's record, with the entry's type and address if the traversal wrote it |
| `SymbolInvariants.ReferenceIsResolved` | gdb-7.11/bfd/aoutx.h:4990-5090 | An input file's reference is written with the type and address of the entry it resolves to, the ones the traversal would have written |
| `SymbolInvariants.FirstDefinitionStays` | gdb-7.11/bfd/aoutx.h:4900-5072 | The definition of an entry that is met first is written with its own type and moved address and stays the entry's record in every later state; except where N_EXT changes a weak type, it is what the entry's own record would have been if and only if that definition is the one the linker settled on |
| `SymbolInvariants.WeakDefinitionStays` | gdb-7.11/bfd/aoutx.h:4900-5072 | A weak text symbol at 0x1010 met before the strong one at 0x2020 stays weak and at 0x1010 |
| `SymbolOutput.WrittenExactly` | gdb-7.11/bfd/aoutx.h:4825-5231 | Over a whole file, a symbol has a record if and only if it is not part of a duplicate header and either is passed through as a target, or is not skipped as one, its entry is not written, -S, -s or a keep list does not take it and, without an entry, -x or -X does not; that record is its only one, and the symbol map leads to it |
| `SymbolOutput.RecordKeeps` | gdb-7.11/bfd/aoutx.h:4846-4905 | A record has its symbol's other and desc fields, and the entry's name if there is one; a target has its own name, type and value |
| `SymbolOutput.LocalRecord` | gdb-7.11/bfd/aoutx.h:4936-5064 | Text, data and BSS symbols, weak ones and stabs of these kinds among them, keep their type and move with their section; absolute symbols, other stabs, warnings and indirect symbols keep type and value; set elements move |
| `SymbolOutput.ReferenceRecord` | gdb-7.11/bfd/aoutx.h:5007-5058 | A reference is written with the type and value of its entry's kind, in numbers |
| `SymbolOutput.TableRecord` | gdb-7.11/bfd/aoutx.h:3552-3670 | So is an entry that stands for a symbol, if it was not written and the strip option spares it or a reloc needs it, and nothing else is |
| `SymbolOutput.FileRecord` | gdb-7.11/bfd/aoutx.h:4788-4822 | The file itself gets a text symbol at the start of its text, unless everything is stripped, its name is not kept, or all local symbols are discarded |
| `SymbolOutput.NextSymbol` | gdb-7.11/bfd/aoutx.h:4900-4975 | The next symbol is passed through behind a warning or an indirect symbol without definition, and skipped behind an indirect symbol with one or one whose entry was written |
| `FinalLink.FileGrows` | gdb-7.11/bfd/aoutx.h:5226-5246 | Writing more records where the last ones end gives a file that holds them all and nothing else |
| `FinalLink.FinalLink.CopySymbol` | gdb-7.11/bfd/aoutx.h:5090-5225 | The end of the loop body, in place: the slot, then the header look-up and marks, then the record |
| `FinalLink.FinalLink.VisitEntry` | gdb-7.11/bfd/aoutx.h:4850-5225 | The loop body in place is the step function, on flags, symbol map and output buffer |
| `FinalLink.FinalLink.WalkSymbols` | gdb-7.11/bfd/aoutx.h:4825-5231 | The loop is the walk, with the records waiting in a buffer that has room for them |
| `FinalLink.FinalLink.WriteSymbols` | gdb-7.11/bfd/aoutx.h:4770-5249 | State, hash pointers and map are those of the walk; the records are flushed right behind those in the file, and every slot is right |
| `FinalLink.FinalLink.WriteOtherSymbol` | gdb-7.11/bfd/aoutx.h:3552-3670 | Record, index and file position move together |
| `FinalLink.FinalLink.RelocIndex` | gdb-7.11/bfd/aoutx.h:4064-4110 | The index put in a reloc is the symbol's slot, or that of its entry's record, written now if it had been stripped: it names that record if and only if the entry has one or stands for a symbol, and is -2 otherwise; without an entry the reloc is unattached |
| `FinalLink.FinalLink.LinkOrderIndex` | gdb-7.11/bfd/aoutx.h:3711-3740 | A link-order reloc names the record of its symbol if and only if the entry has one or stands for a symbol |
| `FinalLink.FinalLink.LinkInput` | gdb-7.11/bfd/aoutx.h:5254-5312 | An input file with its relocs keeps the invariants and loses no symbol |
| `FinalLink.FinalLink.Link` | gdb-7.11/bfd/aoutx.h:5440-5605 | Over a whole link the string table starts right behind the last record, and every symbol not stripped has exactly its record, with the entry's type and address if the traversal wrote it |
| `FinalLink.MaxSymCount` | gdb-7.11/bfd/aoutx.h:5385-5400 | The buffers are sized by the largest input file |
| `LinkRelocs.TwoLinksOfStd` | gdb-7.11/bfd/aoutx.h:4022-4227 | What two links add to a field is what one link adds, plus the skew of the reloc |
| `LinkRelocs.TwoLinksOfExt` | gdb-7.11/bfd/aoutx.h:4348-4634 | Likewise for the value of a reloc that carries its addend |
| `LinkRelocs.SectionIndexMeansSection` | gdb-7.11/bfd/aoutx.h:3897-3910 | The section index a partial link writes is decoded to the same section by the next one |
| `RelocSymbols.UndefinedResolvesAlike` | gdb-7.11/bfd/aoutx.h:4064-4110 | An undefined symbol whose reloc is given the index of its entry's record resolves in the next link as it would have in one, below 2^24 symbols |
| `RelocSymbols.LateSymbolsAreMistaken` | gdb-7.11/bfd/aoutx.h:4103-4118 | The index put in a standard or extended reloc is that of the entry's own record if and only if it is below 2^24 |
| `RelocSymbols.FirstMistaken` | gdb-7.11/bfd/aoutx.h:4103-4118 | The index 2^24 is written as 0, which is another record |
| `RelocSections.PatchAllAt` | gdb-7.11/bfd/aoutx.h:4022-4227 | With fields that do not overlap, each is patched once, from its original value |
| `RelocSections.PatchAllOutside` | gdb-7.11/bfd/aoutx.h:4022-4227 | No byte outside the fields changes |
| `RelocSections.FieldAfterTwoLinks` | gdb-7.11/bfd/aoutx.h:4022-4227 | A field holds the same 32 bits after -r and a final link as after one final link if and only if the skew is a multiple of 2^32; the skew is zero unless a pc-relative reloc is against a symbol |
| `RelocSections.SectionAfterTwoLinks` | gdb-7.11/bfd/aoutx.h:4022-4227 | Without skew, the whole section's bytes are the same |
| `RelocLoops.RelocateStdPartial` | gdb-7.11/bfd/aoutx.h:4022-4160 | The -r loop rewrites relocs and contents in place; each field is moved by the address of a known symbol or by its section's move, less the section's own move if pc-relative, and each reloc is against the known symbol's section |
| `RelocLoops.RelocateStdFinal` | gdb-7.11/bfd/aoutx.h:4161-4227 | The final loop adds to each field its symbol's address, less the section's own address if pc-relative, or its target section's move, less the section's own |
| `RelocLoops.RelocateExtPartial` | gdb-7.11/bfd/aoutx.h:4348-4505 | The -r loop for extended relocs changes each addend as that of standard relocs changes a field, unless it counts from the field, and index and kind likewise |
| `RelocLoops.RelocateExtFinal` | gdb-7.11/bfd/aoutx.h:4506-4634 | The final loop fills each field with addend and address, less the section's own address and, if it counts from there, the field's if pc-relative |
| `RelocValues.CallIsRelative` | gdb-7.11/bfd/reloc.c:1350-1385 | A pc-relative call of 0x3000 from 0x1020 is 0x1fe0 |
| `RelocExtSections.FieldAfterTwoExtLinks` | gdb-7.11/bfd/aoutx.h:4348-4634 | The same exactness for extended relocs, with and without pcrel_offset |
| `RelocExtSections.SectionAfterTwoExtLinks` | gdb-7.11/bfd/aoutx.h:4348-4634 | Without skew, the whole section's bytes are the same |
| `ArchiveSymbols.CheckArSymbols` | gdb-7.11/bfd/aoutx.h:3207-3393 | The scan asks for the member at the first symbol that satisfies the link, by the numbers of the types, and at none if there is none; up to there only declared commons have changed |
| `ArchiveSymbols.AfterMeans` | gdb-7.11/bfd/aoutx.h:3325-3372 | A declared entry is common with the maximum of the old and all declared sizes, and its alignment comes from the first of them; every other entry is unchanged |
| `ArchiveSymbols.WantedStays` | gdb-7.11/bfd/aoutx.h:3245-3256 | Declarations do not change which symbols the link is waiting for |
| `ArchiveSymbols.CeilLog2IsLeast` | gdb-7.11/bfd/libbfd.c:893-915 | bfd_log2 gives the least power of two that is not below the size |
| `ArchiveSymbols.Log2` | gdb-7.11/bfd/libbfd.c:903-915 | The shifting loop computes it |
| `NearestLine.Scan` | gdb-7.11/bfd/aoutx.h:2660-2776 | Line, file and directory are those of the last nearest line symbol at or below the offset, unless a later file starts in between; likewise the function; every symbol reached is handled once |
| `NearestLine.FindNearestLine` | gdb-7.11/bfd/aoutx.h:2631-2829 | A non-zero line is the nearest symbol's, the file name is the one in force there, behind its directory unless it is absolute, and the function name ends at its colon |
| `NearestLine.BestIsNearest` | gdb-7.11/bfd/aoutx.h:2660-2776 | The best candidate when the scan ends is nearest among all symbols it reached |
| `ArText.DecimalLength` | gdb-7.11/bfd/archive.c:189-209 | A number prints in at most k digits exactly below 10^k |
| `ArText.SizeReadsBack` | gdb-7.11/bfd/archive.c:189-209 | Exactly the sizes below 10^10 fit their field, and they read back |
| `ArHeader.SlashPaddedName` | gdb-7.11/bfd/archive.c:529-583 | An SVR4 name in the header is read as it is, whatever else is left in the field, if and only if, filling the field, it has no blank; or else no NUL is left behind it, it is not empty in an archive with a name table, and it is not "#1" before a digit |
| `ArHeader.BlankPaddedName` | gdb-7.11/bfd/archive.c:529-583 | A BSD name is if and only if it has no blank, is not empty in an archive with a name table, and no NUL or slash is left behind it |
| `ArNames.Measure` | gdb-7.11/bfd/archive.c:1607-1680 | The first pass counts exactly the bytes of a member's table entry, and puts short headers right |
| `ArNames.StoreOne` | gdb-7.11/bfd/archive.c:1695-1778 | The second pass stores exactly that entry at the running position, and points the header to it |
| `ArNames.ConstructExtendedNameTable` | gdb-7.11/bfd/archive.c:1591-1781 | The buffer measured first is filled exactly; every header holds its name or the offset of its entry, shared by neighbours from one archive |
| `ArNameReading.CleanUp` | gdb-7.11/bfd/archive.c:1355-1373 | The in-place loop over newlines, slashes and backslashes does what its byte-by-byte description says |
| `ArNameReading.EntryConverts` | gdb-7.11/bfd/archive.c:1355-1373 | An entry of the table is cleaned up to its name and a NUL, in either style, if and only if the name has no newline or backslash and, without the SVR4 slash, does not end in one |
| `ArNameReading.EntryAt` | gdb-7.11/bfd/archive.c:1695-1778 | Every name that needs one has its entry at its offset |
| `ArNameReading.PlaceReadIsExact` | gdb-7.11/bfd/archive.c:448-459 | The number read for a nested member's place is the place if and only if its digits leave a blank in the field, or the digits behind the field are the ones that were cut off |
| `ArNameReading.DateIsReadAlong` | gdb-7.11/bfd/archive.c:1759-1770 | In a 16-byte field, the place 100,000,000 behind the offset 12,345 is read with the date's digits |
| `ArNameReading.LongNameReads` | gdb-7.11/bfd/archive.c:430-463 | A header with a reference leads back to the member's name if and only if that survives the table, with the place as above; it fails if and only if the digits found are no long |
| `ArNameReading.ShortNameReads` | gdb-7.11/bfd/archive.c:529-583 | A name that the builder left or put in any header is read back if and only if it stands there, as above |
| `ArNameReading.FullNameIsCut` | gdb-7.11/bfd/archive.c:558-583 | Of "fifteen letters" in a 15-byte field only the first word is read |
| `ArNameReading.NumberOneIsMisread` | gdb-7.11/bfd/archive.c:1669-1684 | "#1" put right in a header that held "/1234" announces a BSD 4.4 name |
| `ArNameReading.MemberHeaderReads` | gdb-7.11/bfd/archive.c:482-610 | Reading any member's header, wherever it is in a file, gives its name, its size and the place of its contents, and a nested member's place if and only if that survives; it fails if and only if that is no long |
| `ArBsd44.ConstructBsd44Names` | gdb-7.11/bfd/archive.c:1786-1825 | Exactly the names that are too long or have blanks are announced, with their length rounded up to four |
| `ArBsd44.WriteHeader` | gdb-7.11/bfd/archive.c:1841-1886 | Header, name and padding as written, with the name counted in the size |
| `ArBsd44.Bsd44NameReads` | gdb-7.11/bfd/archive.c:535-557 | A header that announces a name rightly, newly or from an earlier archive, reads back as name and size, and leaves the file at the contents |
| `ArMap.ReadCoffEntries` | gdb-7.11/bfd/archive.c:990-1075 | The COFF reader names entries in sequence and leaves those without strings empty |
| `ArMap.ReadElf64Entries` | gdb-7.11/bfd/archive64.c:40-139 | The 64-bit reader, likewise, without stopping |
| `ArMap.ReadBsdEntries` | gdb-7.11/bfd/archive.c:916-985 | The BSD reader takes each name from its place among the strings |
| `ArMap.CoffRoundTrip` | gdb-7.11/bfd/archive.c:990-1075 | A COFF map reads back as the same names and offsets, padding and following bytes included |
| `ArMap.Elf64RoundTrip` | gdb-7.11/bfd/archive64.c:40-139 | So does a 64-bit map |
| `ArMap.BsdRoundTrip` | gdb-7.11/bfd/archive.c:916-985 | So does a BSD map in either byte order |
| `ArLayout.MemberAt` | gdb-7.11/bfd/archive.c:2240-2282 | Each member's bytes are found at the sum of the lengths before it |
| `ArLayout.AdvanceIsExact` | gdb-7.11/bfd/archive.c:2521-2535 | A map writer's step over a member is its written length if and only if the format suits it |
| `ArLayout.ComputedIsStart` | gdb-7.11/bfd/archive.c:2457-2551 | The positions a map writer works out are where the members are put |
| `ArLayout.MisfitMovesTheRest` | gdb-7.11/bfd/archive.c:2457-2551 | The first member a format does not suit throws off the next position |
| `ArLayout.BaseIsExact` | gdb-7.11/bfd/archive.c:2464-2477 | The first member's position, added up in unsigned ints, is right if and only if map and name table are below 4 GB |
| `ArWriter.ArchiveWriter.CollectMap` | gdb-7.11/bfd/archive.c:2307-2407 | The collected symbols are the exported ones of the object members, in order, with the places of their names |
| `ArWriter.ArchiveWriter.WriteBsdArmap` | gdb-7.11/bfd/archive.c:2457-2574 | Writes the BSD map for the positions worked out, or fails exactly if one does not fit four bytes |
| `ArWriter.ArchiveWriter.WriteCoffArmap` | gdb-7.11/bfd/archive.c:2644-2748 | Likewise the COFF map, in thin archives too |
| `ArWriter.ArchiveWriter.WriteElf64Armap` | gdb-7.11/bfd/archive64.c:152-249 | Likewise the 64-bit map, which never fails |
| `ArWriter.ArchiveWriter.ComputeAndWriteArmap` | gdb-7.11/bfd/archive.c:2307-2453 | Leading old maps are dropped from the archive, and the map is that of the members left |
| `ArWriter.ArchiveWriter.WriteNames` | gdb-7.11/bfd/archive.c:2217-2238 | The name table is written behind its header, padded to even |
| `ArWriter.ArchiveWriter.WriteMembers` | gdb-7.11/bfd/archive.c:2240-2282 | The members follow each other, their contents copied a buffer at a time and padded, or left out of a thin archive |
| `ArWriter.ArchiveWriter.WriteArchiveContents` | gdb-7.11/bfd/archive.c:2148-2277 | The whole file is magic, map, names and members, and writing fails exactly for the stated reasons; it begins with "!<arch>" or "!<thin>" and a newline |
| `ArOpen.MapIsExact` | gdb-7.11/bfd/archive.c:2457-2551 | A symbol's stored offset is its member's position if and only if map and name table are below 4 GB |
| `ArOpen.MapLeadsToMembers` | gdb-7.11/bfd/archive.c:2148-2277 | In the written file, every offset in the map is where that member is |
| `ArOpen.OpensAsWritten` | gdb-7.11/bfd/archive.c:817-852 | Opening the written file gives its kind, the map with every name and offset, the name table, and the first member's position, if and only if there is a name table or the first member looks like none and, behind a COFF map, not like a second map |
| `ArOpen.NoTableIsSeen` | gdb-7.11/bfd/archive.c:1302-1330 | A position without a name table's mark is left as it is; one with it gives a table or fails |
| `ArOpen.SecondIsSeen` | gdb-7.11/bfd/archive.c:1096-1112 | Something behind a COFF map is skipped if and only if it is a readable header that begins with a slash and a blank and does not wrap to nothing |
| `ArOpen.NoMapIsSeen` | gdb-7.11/bfd/archive.c:1126-1179 | No map is seen if and only if what follows the magic has no map's name, "#1/20" being one together with the name behind its header |
| `ArOpen.OpensWithoutMap` | gdb-7.11/bfd/archive.c:817-852 | An archive written without a map is opened with its name table and first position if and only if its first member looks like neither a map nor a name table |
| `ArFormat.OpensByFirstEight` | gdb-7.11/bfd/archive.c:817-852 | A file is opened only if it begins with one of the three magic strings, and as thin if and only if it begins with that of thin archives |
| `ArFormat.MappedOnDisk` | gdb-7.11/bfd/archive.c:2148-2277 | A mapped archive byte for byte: magic, the map's name, date and owner, its size in decimal, the two bytes that end the header, and count, offsets, places and names in the format's own order of bytes |
| `ArFormat.TableOnDisk` | gdb-7.11/bfd/archive.c:2217-2238 | The name table's header and bytes, with a newline behind an odd one |
| `ArFormat.MemberOnDisk` | gdb-7.11/bfd/archive.c:2240-2282 | A member's header and contents, with a newline behind odd ones; in a thin archive only the header |
| `ArFormat.TableEntry` | gdb-7.11/bfd/archive.c:1695-1778 | Exactly long names, and those of a thin archive that are not shared, go in the table, and end in a slash and a newline or a newline |
| `ArFormat.ReferenceOnDisk` | gdb-7.11/bfd/archive.c:1745-1778 | A reference is the pad character and the offset in decimal, with a colon and the place for a nested member if there is room, then blanks |
| `ArFormat.NameOnHeader` | gdb-7.11/bfd/archive.c:1669-1684 | A short name stands at the start of the header, cut at the field, with the pad character behind it |
| `ArFormat.Bsd44OnDisk` | gdb-7.11/bfd/archive.c:1786-1886 | An announced name is "#1/" and a length in the field, and the name with NULs behind the header |
| `ArFormat.MarkTellsMap` | gdb-7.11/bfd/archive.c:1126-1179 | A map is read if and only if the sixteen bytes behind the magic, given in numbers, say so, or too few follow |
| `ArFormat.TableMarks` | gdb-7.11/bfd/archive.c:1319-1327 | A name table is taken for one if and only if its sixteen bytes, given in numbers, are those of either kind |
| `ArFormat.OldMapsAreDropped` | gdb-7.11/bfd/archive.c:2320-2333 | Of an archive that gets a map exactly the leading members called __.SYMDEF are left out |
| `ArFormat.SymbolInMap` | gdb-7.11/bfd/archive.c:2345-2407 | Each visible symbol of an object file that is defined, or common, is in the map, at the place that counts those before it |
| `ArFormat.MapLength` | gdb-7.11/bfd/archive.c:2345-2407 | And no others are |
| `ArFormat.CoffRefused` | gdb-7.11/bfd/archive.c:990-1062 | A COFF map is refused if and only if the count, the offsets it announces or the size are more than is there |
| `ArFormat.Elf64Refused` | gdb-7.11/bfd/archive64.c:40-110 | Likewise a 64-bit map |
| `ArFormat.BsdRefused` | gdb-7.11/bfd/archive.c:916-985 | Likewise a BSD map |
| `ArFormat.EntriesRead` | gdb-7.11/bfd/archive.c:1071-1086 | Each entry of a COFF map that is read has a name and the offset that stands in the map, or, behind the end of the strings, neither |
| `ArFormat.NumberIsRead` | gdb-7.11/bfd/archive.c:510-520 | A number in a header: white space, at most one sign, and the value of the digits behind it as far as they go; not found if and only if there is no digit |
| `ArFormat.NumbersAreCut` | gdb-7.11/bfd/archive.c:430-460 | A reference's numbers are refused if and only if they do not fit 64 bits with a sign; the length of an announced name is the number read, modulo 2^32 with a sign |
| `ArFormat.HeaderRefused` | gdb-7.11/bfd/archive.c:482-530 | A header without a table or announcement is refused if and only if the file ends in it, its last two bytes are wrong, or its size has no digit |
| `ArFormat.CleanedByte` | gdb-7.11/bfd/archive.c:1355-1373 | What the clean-up makes of each byte of a name table, by its neighbours |
| `ArElements.VisitFrom` | gdb-7.11/bfd/archive.c:786-815 | On any bytes stepping ends, and each position is at least a header beyond the one before |
| `ArElements.ArchiveBfd.GetEltAtFilepos` | gdb-7.11/bfd/archive.c:643-742 | A position in the cache gives the same element again; another is read and added under its position |
| `ArElements.ArchiveBfd.CloseElement` | gdb-7.11/bfd/archive.c:2782-2800 | Closing an element removes its own entry and no other |
| `ArElements.ArchiveBfd.CloseArchive` | gdb-7.11/bfd/archive.c:2759-2781 | Closing an archive closes every element still open |
| `ArElements.ArchiveBfd.OpenrNextArchivedFile` | gdb-7.11/bfd/archive.c:786-815 | The next element comes from the wrapped and rounded position, which is refused unless it lies further on |
| `ArElements.ArchiveBfd.VisitAll` | gdb-7.11/bfd/archive.c:786-815 | Stepping through the cache visits the positions described |
| `ArElements.VisitsMembers` | gdb-7.11/bfd/archive.c:786-815 | Where each member's header reads rightly or leads nowhere, the members are visited in order as far as the first that is empty or leads nowhere |
| `ArElements.AllAreVisited` | gdb-7.11/bfd/archive.c:803-811 | All of them if and only if each can be followed and the archive is thin or none but the last is empty |
| `ArRoundTrip.WriteArchive` | gdb-7.11/bfd/archive.c:2148-2277 | Name table and archive in one go, from members, headers and contents, with or without a map |
| `ArRoundTrip.SymbolLeadsToItsMember` | gdb-7.11/bfd/archive.c:747-754 | Opening a written archive and following any entry of its map leads to the member that exports the symbol, with its name, size and contents, if and only if what its header holds for a place is a long |
| `ArRoundTrip.SteppingVisitsTheMembers` | gdb-7.11/bfd/archive.c:772-815 | Stepping through a written archive, with or without a map, visits the members that were put in, and all of them if and only if nothing stops it |
| `ArRoundTrip.ArfilenamesIsTakenForTable` | gdb-7.11/bfd/archive.c:1317-1330 | The name ARFILENAMES stands in its header, but an archive that begins with it and has no name table opens with one or not at all |
| `ArBsd44RoundTrip.WriteBsd44Archive` | gdb-7.11/bfd/archive.c:2148-2277 | Long names announced and the archive written, from members, headers and contents, or nothing if a size with its name does not fit |
| `ArBsd44RoundTrip.Bsd44MemberIsFound` | gdb-7.11/bfd/archive.c:535-583 | Where a BSD 4.4 member was written, its name announced newly or by an earlier archive or held by its header in whatever way that is read, it is found with its name, size and contents |
| `ArBsd44RoundTrip.KeptHeaderReads` | gdb-7.11/bfd/archive.c:1841-1886 | A member whose header is kept as it came is found if and only if the header holds its name and its size |
| `ArBsd44RoundTrip.OldReferenceLosesName` | gdb-7.11/bfd/archive.c:1786-1825 | One whose header refers to an SVR4 name table is not |
| `ArBsd44RoundTrip.FirstIsPlain` | gdb-7.11/bfd/archive.c:817-852 | A first member whose header announces its name or has no slash in its field looks like no name table and no second map, and like no map unless its name begins as one's does |
| `ArBsd44RoundTrip.Bsd44SymbolLeadsToItsMember` | gdb-7.11/bfd/archive.c:747-754 | Following any entry of such an archive's map leads to the member that exports the symbol |
| `ArBsd44RoundTrip.Bsd44SteppingVisitsTheMembers` | gdb-7.11/bfd/archive.c:772-815 | Stepping through such an archive, with or without a map, meets every member as it was put in, and visits all of them if and only if none but the last is empty |

## Left out

- The dynamic-linking hooks of the a.out linker, set and constructor symbols beyond the value they get, and archive elements of the linker's own callbacks.
- RELOC_BASE10, RELOC_BASE13, RELOC_BASE22, RELOC_SPARC_REV32 and the jump-table relocs of extended formats, which only some SPARC targets use.
- Reloc overflow callbacks, and fields other than 32 bits, in `aout_link_input_section_std` and `_ext`; the field arithmetic is treated for two targets instead.
- `RelocLoops.RelocateExtPartial`: addends are not cut to 32 bits when stored, because everything said about them is modulo 2^32.
- `HeaderTree.WriteSymbolsIsRewrite`: does not cover links that strip or discard debugging symbols, nor a header that is taken for the target of the indirect symbol or warning right before it, of which `HeaderTree.HeaderIsSeen` says that it is not looked up; `FinalLink` covers every input.
- The TMS320C30 LDP, 16-bit and 32-bit relocs: easier cases of the same code.
- Other ARM and TIC30 target code, core files, other targets, hash table and string table internals.
- Timestamps: `bfd_update_armap_timestamp` and the loop around it; dates are part of `stamp`.
- Path adjustment for thin archives and the directory prefix put before their members' names.
- `ArElements.ArchiveBfd.GetEltAtFilepos`: an element of a nested archive is reported with the place to look, not opened: it lives in the nested archive's own cache.
- The HP-UX map variants, the i960 byte order, and names of a BSD map that point outside it.
- `ArBsd44.ConstructBsd44Names`: what is read of a header taken over from another BSD 4.4 archive whose announced length is wrong, which the writer only asserts; and thin archives with BSD 4.4 names.
- `FinalLink.FinalLink.LinkInput`: the relocs of an input are given as the symbols they refer to, in order; reading them from the section is the business of `RelocLoops`.
- `_bfd_generic_read_ar_hdr_mag` with a magic of its own, which one target passes.
