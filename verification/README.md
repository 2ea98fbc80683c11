# kcov ELF parser and source filter, in Dafny

This project models two parts of kcov.

The first is the address-resolution logic of kcov's ELF parser:
- how a binary is registered (`addFile`, `checkFile`);
- the section scan of `parseOneElf`, which collects executable segments, the GNU build-id, the `.gnu_debuglink` name and CRC, and the gcov data-file names embedded in `.rodata`;
- the search for line information (`parseOneDwarf`): inline, then build-id file, then debug-link candidates, then the checksum database;
- the CRC-32 used to accept a debug-link file;
- the relocation state machine (`parse`, `doParse`, `setMainFileRelocation`);
- the path every reported address takes through `onLine`: validation against the executable segments, translation by the first declared segment that contains it, then the relocation.

The second is the source filter: the include/exclude pattern and path rules, and the root rewriting of `mangleSourcePath`.

The parser's member variables are fields of an immutable `Parser` record. Every operation is a pure function from one `Parser` to the next. What the parser tells its listeners is appended to a trace of `Event`s. Each event is tagged with the index of the listener that receives it, so the trace records both what was said and to whom, in registration order.

Libraries, the filesystem and configuration are fields of the `Env`, `FileSystem` and `Config` records. These fields are arbitrary functions, so every property holds whatever they return. This covers libelf, libdw, the gcno reader, the address verifier, `read_file`, `file_exists`, `lstat`, `dirname`, `get_real_path` and the checksum database.

C++ `uint64_t` arithmetic is written out modulo 2^64 (`Words.Wrap64`). This applies to segment ends, translation and relocation. The 32-bit counter of rejected breakpoints wraps modulo 2^32.

Modules:
- `Words`: bytes, 64-bit words, little-endian 32-bit reads.
- `Strings`: `find`, prefix, `replace`.
- `Segments`: `Segment` and address translation.
- `Events`: `File`, `FileFlags` and listener fan-out.
- `CrcRegister` and `Crc32`: the debug-link CRC.
- `Sections`: the section scan.
- `DebugInfo`: build-id and debug-link file lookup.
- `ElfParser`: the parser's state machine.
- `Filters`: `filter.cc`.

## Model

| member | source | states |
|---|---|---|
| Segments.ContainsIffInRange | src/parsers/elf-parser.cc:77-80 | When `paddr + size` does not wrap, a segment contains exactly the addresses in `[paddr, paddr + size)` |
| Segments.WrappingSegmentContainsNothing | src/parsers/elf-parser.cc:77-80 | When `paddr + size` wraps past 2^64, the 64-bit end lies below `paddr`, so the segment contains no address |
| Segments.AdjustAddress | src/parsers/elf-parser.cc:89-95 | An address inside the segment keeps its offset from the base but moves from the physical to the virtual base (mod 2^64); an address outside is returned unchanged |
| Segments.AdjustRoundTrip | src/parsers/elf-parser.cc:89-95 | Translation inside a segment is undone by the inverse translation from the virtual to the physical base |
| Segments.AdjustInjective | src/parsers/elf-parser.cc:89-95 | Two distinct addresses of one segment never translate to the same address |
| Segments.FirstContaining | src/parsers/elf-parser.cc:684-690 | The search of the segment list gives nothing iff no segment contains the address; otherwise it gives the first index whose segment contains it |
| Segments.FirstContainingUnique | src/parsers/elf-parser.cc:684-690 | At most one index is the first segment containing an address |
| Segments.AdjustAddressBySegment | src/parsers/elf-parser.cc:682-694 | The address is unchanged when no declared segment contains it; otherwise it is translated by the first segment, in list order, that contains it |
| Segments.AdjustBySegmentDisjoint | src/parsers/elf-parser.cc:682-694 | When no two segments contain the address, translating by any segment that contains it is what the list translation does |
| Events.LineFanOut | src/parsers/elf-parser.cc:705-708 | One report makes exactly one event per line listener; the i-th goes to listener i and carries the same path, line and address |
| Events.FileFanOut | src/parsers/elf-parser.cc:217-220 | One announcement makes exactly one event per file listener, the i-th to listener i, all carrying the same `File` |
| Strings.Find | src/filter.cc:82 | `std::string::find`: the position of the first occurrence of the pattern, or nothing iff it occurs nowhere |
| Strings.FindZeroIffPrefix | src/filter.cc:188 | `find` returns 0 iff the pattern is a prefix of the string |
| Strings.FindEmpty | src/filter.cc:123 | The empty pattern is found at position 0 of every string |
| Strings.ReplaceRange | src/filter.cc:85 | `replace(index, n, t)` keeps the part before `index`, puts `t` in place of the `n` replaced characters, and keeps the rest |
| CrcRegister.FoldAppend | src/parsers/elf-parser.cc:817-818 | The byte loop over `a ++ b` is the loop over `a` followed by the loop over `b` |
| CrcRegister.CrcChainsFor | src/parsers/elf-parser.cc:816-820 | For any step function, complementing on entry and on exit lets two calls chain into one call over the concatenated bytes |
| Crc32.TableFromPolynomial | src/parsers/elf-parser.cc:759-813 | Every entry of the 256-word table is eight shift-and-xor steps of the reflected polynomial 0xEDB88320 applied to its index |
| Crc32.TableEntry128IsPolynomial | src/parsers/elf-parser.cc:786 | Example: table entry 128 is the reflected polynomial 0xEDB88320 |
| Crc32.ComputeDebugLinkCrc32 | src/parsers/elf-parser.cc:757-821 | The table-driven loop computes the CRC: complement, one table step per byte, complement |
| Crc32.CrcOfEmpty | src/parsers/elf-parser.cc:816-820 | The CRC of no bytes is the CRC passed in; in particular `debugLinkCrc32(0, [])` is 0 |
| Crc32.CrcChaining | src/parsers/elf-parser.cc:816-820 | `debugLinkCrc32(debugLinkCrc32(c, a), b) == debugLinkCrc32(c, a ++ b)` |
| Crc32.CrcCheckValue | src/parsers/elf-parser.cc:757-821 | The CRC of the ASCII bytes "123456789" is 0xCBF43926, the check value of the IEEE 802.3 CRC-32 |
| Sections.BuildIdHex | src/parsers/elf-parser.cc:583-586 | Each descriptor byte yields two lowercase hex digits, so the string is twice as long as the descriptor |
| Sections.BuildIdHexRoundTrip | src/parsers/elf-parser.cc:583-586 | Decoding the hex string gives back the descriptor bytes: high nibble first, then low nibble |
| Sections.BuildIdHexInjective | src/parsers/elf-parser.cc:583-586 | Distinct descriptors give distinct build-id strings |
| Sections.NoteBuildId | src/parsers/elf-parser.cc:560-587 | A build-id comes only from a first note whose name is "GNU" and whose type is `NT_GNU_BUILD_ID`; it has `n_descsz` bytes |
| Sections.NoteBuildIdRoundTrip | src/parsers/elf-parser.cc:577-587 | For a well-formed GNU build-id note, the descriptor is read back exactly, whatever follows the note in the section |
| Sections.CrcOffset | src/parsers/elf-parser.cc:597-601 | The CRC offset is the end of the terminated name rounded up to the next multiple of four |
| Sections.DebugLinkOf | src/parsers/elf-parser.cc:591-604 | The link name is the NUL-free prefix up to the first NUL; the CRC is the little-endian word at the aligned offset after it |
| Sections.DebugLinkRoundTrip | src/parsers/elf-parser.cc:591-604 | A section of name, NUL, zero padding and CRC is read back as that name and that CRC |
| Sections.Rewind | src/parsers/elf-parser.cc:540-542 | The backward walk stops at the nearest NUL at or before the marker, or at the start of the section |
| Sections.WalkBack | src/parsers/elf-parser.cc:540-542 | The walk-back loop stops where `Rewind` says |
| Sections.GcdaNameAt | src/parsers/elf-parser.cc:533-548 | A name is recorded at a position only where the bytes are "gcda\0"; the name always ends in "gcda" |
| Sections.GcdaNameAtIsCString | src/parsers/elf-parser.cc:538-548 | A recorded name is the NUL-free C string between an interior NUL (not the first byte) and the marker; such a NUL before a marker always yields a name |
| Sections.GcdaNameRoundTrip | src/parsers/elf-parser.cc:538-548 | A NUL-free stem after an interior NUL and followed by the marker is recorded as exactly stem + "gcda" |
| Sections.NameAtPosition | src/parsers/elf-parser.cc:533-550 | One turn of the scan loop records what `GcdaNameAt` says for that position |
| Sections.ScanGcda | src/parsers/elf-parser.cc:529-558 | With the bound corrected, the scan loop records the names of every marker position in order |
| Sections.ScanGcdaBelow | src/parsers/elf-parser.cc:532-557 | The scan loop up to a bound records, in order, the name found at each position below that bound |
| Sections.ScanGcdaAsWritten | src/parsers/elf-parser.cc:532-557 | The loop with the bound as written, `d_size - 5`, records the names of the positions below that bound, in order |
| Sections.AsWrittenMissesOnlyLastPosition | src/parsers/elf-parser.cc:532 | The bound as written loses at most one name: the one whose marker starts at the last position where it fits; every other name is found, in order |
| Sections.ScannedGcdaNames | src/parsers/elf-parser.cc:529-557 | The names the `.rodata` scan records: as written for a section of five bytes or more, none for a shorter one; all end in "gcda" |
| Sections.GcdaNamesBelowEndInGcda | src/parsers/elf-parser.cc:535-550 | Every recorded name ends in "gcda" |
| Sections.GcnoTwin | src/parsers/elf-parser.cc:620-625 | The gcno name keeps everything but the last two characters, which become "no" |
| Sections.GcnoTwinOfGcda | src/parsers/elf-parser.cc:623-625 | The twin of `stem.gcda` is `stem.gcno` |
| Sections.GcnoCandidates | src/parsers/elf-parser.cc:617-629 | Only gcno twins that exist are kept; every existing twin is kept |
| Sections.GcnoCandidatesOfOne | src/parsers/elf-parser.cc:617-629 | A single data file gives its gcno twin exactly when the twin exists |
| Sections.GcnoCandidatesAppend | src/parsers/elf-parser.cc:617-629 | The twins keep the order of the data files, one per data file whose twin exists, duplicates included |
| Sections.GcdaFile | src/parsers/elf-parser.cc:556 | A data file is announced with checksum 0 and the `FLG_TYPE_COVERAGE_DATA` flag (corrected) |
| Sections.GcdaAnnouncementLosesItsFlag | src/parsers/elf-parser.cc:556 | As written, the announced file carries flag `FLG_NONE` and checksum 2 |
| Sections.AsWrittenBoundOverruns | src/parsers/elf-parser.cc:532 | With fewer than five bytes, `d_size - 5` wraps to a bound far beyond the section |
| Sections.ShortSectionHasNoNames | src/parsers/elf-parser.cc:532 | The corrected scan examines no position of a section shorter than the marker |
| Sections.GcdaNamesAsWritten | src/parsers/elf-parser.cc:532-557 | The loop as written, for sections of at least five bytes, records only names ending in "gcda" |
| Sections.AsWrittenMissesFinalMarker | src/parsers/elf-parser.cc:532 | As written, the section "\0\0xgcda\0" yields no name: its only marker is at the last position |
| Sections.IntendedScanFindsFinalMarker | src/parsers/elf-parser.cc:532 | The corrected scan finds "xgcda" in that same section |
| Sections.ExecutableIffBothFlags | src/parsers/elf-parser.cc:606-607 | A section becomes a segment iff both `SHF_ALLOC` and `SHF_EXECINSTR` are set |
| Sections.SegmentOf | src/parsers/elf-parser.cc:609 | The section's segment has `sh_addr` as both physical and virtual base, so it translates nothing |
| Sections.GcdaEvents | src/parsers/elf-parser.cc:551-556 | Every announcement is a file event built as the source builds it, named after the data file (so with checksum 2 and no flag) |
| Sections.GcdaEventsOfOne | src/parsers/elf-parser.cc:551-556 | One name is announced once to each file listener, in registration order |
| Sections.GcdaEventsAppend | src/parsers/elf-parser.cc:535-557 | Names are announced in the order they are found |
| Sections.GcdaContribution | src/parsers/elf-parser.cc:529 | Only a readable `.rodata` section with gcov scanning on yields data-file names, and they all end in "gcda" |
| Sections.NoteContribution | src/parsers/elf-parser.cc:560-587 | Only a `SHT_NOTE` section yields build-id digits, and always an even number of them |
| Sections.SectionLink | src/parsers/elf-parser.cc:590-604 | Only a section named `.gnu_debuglink` carries a debug link |
| Sections.GcdaStep | src/parsers/elf-parser.cc:529-557 | The `.rodata` scan appends the section's data-file names to the list and their announcements to the events, changes nothing else, and does nothing with gcov off |
| Sections.NoteStep | src/parsers/elf-parser.cc:560-588 | A note section appends exactly its build-id digits (two per descriptor byte) to the build-id string and changes nothing else |
| Sections.DebugLinkStep | src/parsers/elf-parser.cc:590-604 | A debug-link section appends its link name to the link name and replaces the CRC with its own; nothing else changes, and other sections change neither |
| Sections.SegmentStep | src/parsers/elf-parser.cc:606-613 | An executable section appends its segment to the executable list, and to the declared list only when that list was empty at the start |
| Sections.ScanSection | src/parsers/elf-parser.cc:528-613 | One readable section does what the four checks do: its build-id digits, link name, data-file names and announcements are appended, its link CRC replaces the old one, and its segment is added |
| Sections.FirstUnreadable | src/parsers/elf-parser.cc:519-526 | The index of the first section whose data cannot be read: every earlier section is readable |
| Sections.ScanSections | src/parsers/elf-parser.cc:485-614 | The scan succeeds iff every section is readable; it keeps names ending in "gcda" and the build-id's even length |
| Sections.GcdaNamesOf | src/parsers/elf-parser.cc:529-557 | Reference: the data-file names of a run of sections, section by section; with gcov off there are none |
| Sections.LastLinkCrc | src/parsers/elf-parser.cc:590-604 | Reference: the CRC left after a run of sections is the last link's; with no link it is the starting value |
| Sections.ScanCollectsBuildId | src/parsers/elf-parser.cc:560-588 | The scan appends the build-id digits of the sections before the first unreadable one, in section order |
| Sections.ScanCollectsDebugLink | src/parsers/elf-parser.cc:590-604 | The scan appends the link names of the sections before the first unreadable one, in section order |
| Sections.LastLinkCrcCons | src/parsers/elf-parser.cc:590-604 | Overwriting the CRC section by section from the front leaves the last link's CRC |
| Sections.ScanKeepsLastLinkCrc | src/parsers/elf-parser.cc:590-604 | The stored CRC is that of the last debug link before the first unreadable section, or the starting CRC when there is none |
| Sections.LastLinkCrcIsLast | src/parsers/elf-parser.cc:590-604 | A link followed by no other link determines the CRC kept, whatever came before it |
| Sections.ScanCollectsGcdaNames | src/parsers/elf-parser.cc:529-557 | The data-file list grows by the names found in the sections before the first unreadable one, in order |
| Sections.ScanAnnouncesGcdaNames | src/parsers/elf-parser.cc:529-557 | The events the scan sends are exactly the announcements of the names it records, in the same order |
| Sections.ScanCollectsExecSegments | src/parsers/elf-parser.cc:606-613 | The scan appends exactly the segments of the executable sections before the first unreadable one, in order |
| Sections.ScanSetsUpDeclaredSegments | src/parsers/elf-parser.cc:484-613 | With no declared segments at the start, the same segments go to the declared list |
| Sections.ScanKeepsDeclaredSegments | src/parsers/elf-parser.cc:610-612 | With declared segments, the scan leaves them as they were |
| Sections.ScanWithoutGcovIsSilent | src/parsers/elf-parser.cc:529 | With gcov off, the scan records no data files and sends no events |
| DebugInfo.BuildIdPath | src/parsers/elf-parser.cc:398-402 | The path is `/usr/lib/debug/.build-id/`, then two digits, `/`, the remaining digits, and `.debug` |
| DebugInfo.BuildIdPathRoundTrip | src/parsers/elf-parser.cc:398-402 | The build-id can be read back from its path |
| DebugInfo.BuildIdPathInjective | src/parsers/elf-parser.cc:398-402 | Distinct build-ids are looked up in distinct files |
| DebugInfo.BuildIdPathExample | src/parsers/elf-parser.cc:398-402 | Example: build-id "deadbeef" is looked up at `/usr/lib/debug/.build-id/de/adbeef.debug` |
| DebugInfo.TryDebugLink | src/parsers/elf-parser.cc:712-731 | A candidate is returned iff it exists, can be read, and the CRC of its contents equals the stored CRC; otherwise the result is "" |
| DebugInfo.DebugLinkCandidates | src/parsers/elf-parser.cc:739-753 | The three candidates, in order: `dir/name`, `dir/.debug/name`, `/usr/lib/debug/realdir/name` |
| DebugInfo.LookupDebuglinkFile | src/parsers/elf-parser.cc:733-754 | The result is "" iff no candidate is accepted; otherwise it is the first accepted candidate |
| DebugInfo.SameDirectoryWins | src/parsers/elf-parser.cc:743-746 | A matching file next to the binary wins, whatever the other locations hold |
| ElfParser.NewParser | src/parsers/elf-parser.cc:125-143 | A new parser treats its first file as the main file, has no checksum, no segments, no gcno files and has sent nothing |
| ElfParser.RegisterLineListener | src/parsers/elf-parser.cc:640-643 | Registration adds one line listener and changes nothing else |
| ElfParser.RegisterFileListener | src/parsers/elf-parser.cc:645-648 | Registration adds one file listener and changes nothing else |
| ElfParser.MatchParser | src/parsers/elf-parser.cc:175-183 | A perfect match iff the data starts with the four bytes of `ELFMAG` |
| ElfParser.MatchDependsOnMagicOnly | src/parsers/elf-parser.cc:179 | Data agreeing in the first four bytes match alike |
| ElfParser.AddressIsValid | src/parsers/elf-parser.cc:655-680 | Invalid when no executable segment contains the address. Otherwise the first containing segment decides: with verification on, the verifier judges the offset from its base, and only a rejection bumps the 32-bit counter |
| ElfParser.OnLine | src/parsers/elf-parser.cc:698-709 | Only the trace and the counter change. The counter is the one `addressIsValid` leaves, so it moves only on a rejection by the verifier. A rejected address sends nothing, and one outside every executable segment changes nothing. Events are only appended |
| ElfParser.OnLineAcceptedKeepsCounter | src/parsers/elf-parser.cc:663-672 | An accepted address leaves the rejection counter unchanged, with verification on or off |
| ElfParser.OnLineReportsTranslated | src/parsers/elf-parser.cc:698-709 | For an accepted address, listener k receives the mangled path, the line, and the address translated by the first declared segment that contains it, plus the relocation (mod 2^64) |
| ElfParser.DeclaredSegmentMovesLine | src/parsers/elf-parser.cc:698-709 | Example: with declared segment {physical 0x1000, virtual 0x5000, size 0x100}, an accepted line at 0x1000..0x10ff reaches every listener at that address + 0x4000 |
| ElfParser.OnLineCountsRejections | src/parsers/elf-parser.cc:663-672 | A rejection by the verifier sends nothing and bumps the counter by one, mod 2^32 |
| ElfParser.ForEachLine | src/parsers/elf-parser.cc:434-443 | Reporting a batch of lines only appends events and changes the counter; what each entry reports is stated by `ElfParser.ForEachLineAppend` with `ElfParser.OnLine` |
| ElfParser.ForEachLineAppend | src/parsers/elf-parser.cc:434-437 | Reporting two batches one after the other is reporting them together |
| ElfParser.ForEachLineOutsideSegments | src/parsers/elf-parser.cc:700-701 | Lines whose addresses lie outside every executable segment leave the parser as it was |
| ElfParser.DatabaseEntries | src/parsers/elf-parser.cc:434-437 | Each stored address becomes line 1 of the unnamed file, in order |
| ElfParser.DebugSources | src/parsers/elf-parser.cc:394-417 | The binary itself is always the first source tried, and at most three are tried |
| ElfParser.FirstOpening | src/parsers/elf-parser.cc:394-417 | Nothing is found iff no candidate opens; otherwise the result is the table of the first that opens |
| ElfParser.DwarfSearch | src/parsers/elf-parser.cc:394-417 | Inline line information wins over every separate debug file |
| ElfParser.DwarfSearchOrder | src/parsers/elf-parser.cc:394-417 | The step-by-step search finds the first source that opens, in this order: binary, build-id file, debug-link file |
| ElfParser.ParseOneDwarf | src/parsers/elf-parser.cc:385-451 | The new relocation is recorded in every case. It fails iff no source opens, the database holds no address for the current checksum, and this is the main file. Apart from the relocation, only the trace and the rejection counter can change |
| ElfParser.ParseOneDwarfGoesThroughOnLine | src/parsers/elf-parser.cc:419-443 | The found lines, or else the database addresses as line 1 of "", all go through `onLine` in order |
| ElfParser.DatabaseFallbackIsValidated | src/parsers/elf-parser.cc:419-440 | Database addresses outside every executable segment are dropped: nothing is reported |
| ElfParser.GcnoEvents | src/parsers/elf-parser.cc:371-382 | Each basic block yields one report per line listener: n listeners and m blocks give n·m events |
| ElfParser.GcnoEventsOfOne | src/parsers/elf-parser.cc:376-381 | A single block reaches every line listener, in registration order, at its address plus the relocation (mod 2^64), with no validation or translation |
| ElfParser.GcnoEventsAppend | src/parsers/elf-parser.cc:371-382 | Blocks are reported in list order: the reports for `a ++ b` are those for `a` followed by those for `b` |
| ElfParser.ParseGcnoFiles | src/parsers/elf-parser.cc:338-347 | Only events are appended: the reports of the gcno files, in list order |
| ElfParser.GcnoFileEvents | src/parsers/elf-parser.cc:338-347 | Each readable gcno file contributes at least one report per block and line listener |
| ElfParser.GcnoFileEventsOfOne | src/parsers/elf-parser.cc:349-382 | A gcno file yields the reports of its blocks when it can be read and nothing when it cannot |
| ElfParser.GcnoFileEventsAppend | src/parsers/elf-parser.cc:338-347 | gcno files are reported in list order |
| ElfParser.GcnoBypassesOnLine | src/parsers/elf-parser.cc:377-381 | The gcno reports depend neither on the segments, the filter nor the verification flag: they bypass `onLine` |
| ElfParser.ParseOneElf | src/parsers/elf-parser.cc:453-638 | An unreadable file changes nothing. Identity, settings, relocation and counter never change. gcno files are only appended, and a failed scan adds none |
| ElfParser.ParseOneElfCollectsSegments | src/parsers/elf-parser.cc:484-613 | The executable segments grow by exactly those of the readable prefix. The declared list is set up only when it was empty. Success iff every section is readable |
| ElfParser.ParseOneElfCollectsDebugRefs | src/parsers/elf-parser.cc:560-604 | The build-id and the link name grow by those of the readable prefix, in order; the CRC is the last link's |
| ElfParser.ParseOneElfAnnouncesDataFiles | src/parsers/elf-parser.cc:529-557 | Every data-file name found in the readable prefix is announced, in order, and nothing else is sent |
| ElfParser.ParseOneElfAddsGcnoTwins | src/parsers/elf-parser.cc:615-627 | After a complete scan, the existing gcno twins of the data-file names are appended in the order the names were found |
| ElfParser.ParseOneElfWithoutGcov | src/parsers/elf-parser.cc:529 | With gcov off, no data file is announced and no gcno file is added |
| ElfParser.DoParse | src/parsers/elf-parser.cc:301-317 | Succeeds iff `lstat` succeeds; on failure nothing changes. On success the segments, debug record and gcno list are those the section scan left. In gcov mode with gcno files it reports their blocks at the given relocation and leaves the stored relocation alone; otherwise the result is the line search (`parseOneDwarf`) at the given relocation on the scanned parser |
| ElfParser.SetMainFileRelocation | src/parsers/elf-parser.cc:319-336 | Static: nothing happens and the call succeeds. Shared: it is `doParse` at the given relocation, so it succeeds iff `lstat` succeeds, and the line search records the relocation or the gcno blocks are reported at it |
| ElfParser.Parse | src/parsers/elf-parser.cc:282-299 | After `parse` no file is the main file |
| ElfParser.ParseDefersSharedMain | src/parsers/elf-parser.cc:287-291 | A shared main file with shared-library parsing on is not parsed: nothing changes but the main-file flag |
| ElfParser.ParseSharedMainAtZero | src/parsers/elf-parser.cc:287-296 | Without shared-library parsing, a shared main file is parsed at relocation 0 and `parse` succeeds |
| ElfParser.ParseOtherAtZero | src/parsers/elf-parser.cc:292-296 | Every other file is parsed at relocation 0 and `parse` returns what `doParse` returned |
| ElfParser.CheckFile | src/parsers/elf-parser.cc:225-280 | Fails iff the file cannot be opened, libelf refuses it, or its kind is none (for the main file, see "Left out"). Class and type are taken from the main file only: shared iff `e_type` is `ET_DYN`, 32-bit iff the class byte is `ELFCLASS32`, the old class kept when there is no class byte. The current checksum is read in that class. The first non-zero checksum is sticky |
| ElfParser.SegmentsOf | src/parsers/elf-parser.cc:203-207 | Each declared segment becomes one segment without bytes, in order |
| ElfParser.AddFile | src/parsers/elf-parser.cc:185-223 | The first call fixes the verification flag. Each call resets build-id, link and executable segments and installs the declared segments. It succeeds iff `checkFile` does, and leaves the identity `checkFile` gives for the new file name. Relocation, counter, link CRC and gcno list are untouched. On success it announces the file, with its current checksum, as main binary or shared library |
| ElfParser.AddFilesKeepChecksumAndVerifyFlag | src/parsers/elf-parser.cc:185-280 | Once recorded, the checksum and the verification flag survive any run of `addFile` calls |
| Filters.PatternIncludeFile | src/filter.cc:108-137 | With no patterns, accept. Otherwise accept iff (there is no include pattern or some include pattern is a substring) and no exclude pattern is a substring |
| Filters.EmptyPatternHandlerAcceptsAll | src/filter.cc:110-111 | A handler without patterns accepts every file |
| Filters.PatternExclusionWins | src/filter.cc:127-136 | A file containing an exclude pattern is rejected, whatever the includes |
| Filters.EmptyPatternMatchesAll | src/filter.cc:123 | The empty include pattern accepts every file; the empty exclude pattern rejects every file |
| Filters.MakePathHandler | src/filter.cc:149-162 | Every configured include and exclude path is canonicalised, in order |
| Filters.SourcePathTestIsUnderPath | src/filter.cc:188-189 | The source's test (`find == 0` and the string ends there or continues with '/') holds iff the path lies under the pattern |
| Filters.UnderPathIffBoundary | src/filter.cc:188-189 | A path lies under a pattern iff it equals it or extends it at a '/' |
| Filters.PathBoundaryExample | src/filter.cc:188-189 | Example: `/a/bc` is not under `/a/b`; `/a/b/c` and `/a/b` are |
| Filters.PathIncludeFile | src/filter.cc:169-206 | The canonical path is accepted iff (there is no include path or it lies under one) and it lies under no exclude path |
| Filters.PathExclusionWins | src/filter.cc:194-203 | A path under an exclude path is rejected, whatever the includes |
| Filters.RunFilters | src/filter.cc:63-74 | The dummy filter accepts everything. Otherwise the path rule applies if configured, then the pattern rule if configured; an unconfigured rule accepts |
| Filters.FilterWithoutPaths | src/filter.cc:63-74 | Without include or exclude paths the filter is the pattern rule alone |
| Filters.MangleSourcePath | src/filter.cc:76-91 | The dummy filter returns the path. Otherwise the result is the canonical path unless both roots are set and the old root occurs; then its first occurrence is replaced and the result re-canonicalised |
| Filters.MangleMovesRoot | src/filter.cc:80-87 | If the canonical path starts with the old root, and canonicalising the rewritten path leaves it unchanged, the path moves to the same place under the new root |

## Left out

- Logging, warnings and `error`/`panic_if` are not modelled. This includes the stale local counter printed at src/parsers/elf-parser.cc:447.
- The `running-mode` key set in `addFile` (src/parsers/elf-parser.cc:214-215) and the `handle-solibs` capability toggle in `checkFile` are not modelled. They write global configuration and do not feed back into the parser.
- The address verifier's setup and its instruction decoding are not modelled. `verify(data, size, offset)` is the parameter `Env.verifier`.
- The DWARF reader, the gcno reader and `gcovGetAddress` are not modelled. They are the parameters `Env.dwarfLines` and `Env.gcnoLines`, which give the line entries of a file (gcno entries with their addresses already computed).
- libelf is not modelled. `elf_begin`/`elf_kind`/`elf_getident`/`e_type`, the two checksums, `elf_memory` and the section-header iteration are parameters: `Env.elfHeader` and `Env.sectionTable`.
- `read_file`, `file_exists`, `lstat`, `dirname` and `get_real_path` are parameters of `FileSystem` and `Env`. The checksum database reader is the parameter `Env.database`.
- Configuration keys (`verify`, `parse-solibs`, `gcov`, the pattern and path lists, the two path prefixes) are record fields.
- Listener objects are not modelled, only their number. The listeners of each kind are indices in registration order.
- Out-of-bounds reads the C++ code does not guard against are bounds-checked in the model:
  - a note header, name or descriptor past the section's end gives no build-id;
  - a debug link without a NUL or too short for its CRC is ignored, and a `.gnu_debuglink` section without a buffer is skipped;
  - fewer than four bytes do not match the ELF magic.
- Little-endian byte order is assumed for the `memcpy` of the debug-link CRC and the note header words.
- The bytes of an executable segment are the section's range of the file image, cut at the image's end.
- DebugInfo.BuildIdPath: requires at least two characters. Build-id strings always have an even length, so a non-empty one has two. A one-character string, which `substr(2)` would reject with an exception, cannot occur.
- ElfParser.GcnoFileEvents: states only a lower bound on the number of events. The order and content of gcno reports are stated by `ElfParser.GcnoFileEventsOfOne`, `ElfParser.GcnoFileEventsAppend`, `ElfParser.GcnoEvents` and `ElfParser.GcnoBypassesOnLine`.
- Sections.ScannedGcdaNames: a section shorter than five bytes yields no names. There the source's wrapped bound reads past the section, and what it would find is undefined.
- ElfParser.CheckFile: a main file of kind `ELF_K_NONE` is undefined in the source, which reads `e_type` through the null header `elf64_getehdr` (or `elf32_getehdr`) returns for it (src/parsers/elf-parser.cc:263). The model treats it as a clean failure and takes the shared flag from the `eType` libelf is assumed to report.
- ElfParser.Parse: its own contract states only the main-file flag. The three cases are stated by `ElfParser.ParseDefersSharedMain`, `ElfParser.ParseSharedMainAtZero` and `ElfParser.ParseOtherAtZero`.
- `doParse` discards the results of `parseOneElf` and `parseOneDwarf` (src/parsers/elf-parser.cc:308, 314-316), and the model does the same.
- The bit-serial CRC (one shift per bit over the whole message) is not proved equal to the table-driven one. Only each table entry is proved equal to eight bit steps on its index.

## Findings

| source | as written | input that shows it | evidently intended | confidence | as-written member | corrected member |
|---|---|---|---|---|---|---|
| src/parsers/elf-parser.cc:532 | `for (size_t i = 0; i < data->d_size - 5; i++)` never examines position `d_size - 5`, the last one where the five marker bytes fit | a `.rodata` section "\0\0xgcda\0" (8 bytes): its only marker starts at position 3 = 8 - 5 | examine every position `i` with `i + 5 <= d_size`, so that "xgcda" is found | not executed; high | Sections.AsWrittenMissesFinalMarker | Sections.IntendedScanFindsFinalMarker |
| src/parsers/elf-parser.cc:532 | for a section shorter than five bytes, `d_size - 5` wraps around in `size_t` and the loop reads far past the section | a `.rodata` section of 3 bytes gives the bound 2^64 - 2 | no position is examined in a section too short for a marker | not executed; high | Sections.AsWrittenBoundOverruns | Sections.ShortSectionHasNoNames |
| src/parsers/elf-parser.cc:556 | `File(file, IFileParser::FLG_TYPE_COVERAGE_DATA)` passes the flag as the second constructor argument, which is the checksum, so the file is announced with checksum 2 and flag `FLG_NONE` | any gcda name found in `.rodata` | checksum 0 and flag `FLG_TYPE_COVERAGE_DATA`, as in `File(file, 0, IFileParser::FLG_TYPE_COVERAGE_DATA)` | not executed; high | Sections.GcdaAnnouncementLosesItsFlag | Sections.GcdaFile |

The section scan of the model keeps the source's behaviour: `Sections.GcdaStep` records the names of the loop as written (`Sections.ScannedGcdaNames`) and announces them with the checksum and the flag swapped (`Sections.GcdaEvents`). The corrected halves (`Sections.GcdaNames`, `Sections.ScanGcda`, `Sections.GcdaFile`) state the intended behaviour, and `Sections.AsWrittenMissesOnlyLastPosition` bounds the difference to one name per section. A section shorter than five bytes is the one case where the model cannot follow the source (see "Left out").
