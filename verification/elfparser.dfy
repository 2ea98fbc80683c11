/** The ELF parser's state machine: registering a binary (`addFile`), the
    relocation-dependent decision of when to parse it (`parse`,
    `setMainFileRelocation`, `doParse`), the section scan (`parseOneElf`),
    the search for line information (`parseOneDwarf`, `parseGcnoFiles`) and
    the validation and translation of every reported address (`onLine`).

    Every library, filesystem and configuration call is a field of `Env` or
    `Config`; the parser's member variables are the fields of `Parser`, and
    what it tells its listeners is appended to `Parser.trace`.
 */
module ElfParser {
  import opened Words
  import opened Strings
  import opened Segments
  import opened Events
  import opened Sections
  import opened DebugInfo
  import opened Filters

  const U32_LIMIT: int := 0x1_0000_0000

  /** A C++ `unsigned int`. */
  type u32 = x: int | 0 <= x < U32_LIMIT

  /** `ELFMAG`: the first four bytes of every ELF file. */
  const ELFMAG: seq<byte> := [0x7f, 0x45, 0x4c, 0x46]
  const ELFCLASS32: byte := 1
  const ET_DYN: nat := 3

  /** The configuration keys the parser reads. */
  datatype Config = Config(verify: bool, parseSolibs: bool, gcov: bool)

  /** What libelf says about a file opened for checking: whether
      `elf_begin` failed, whether `elf_kind` is `ELF_K_NONE`, the class byte
      of `e_ident` when the identification is long enough, `e_type`, and the
      checksums libelf computes for the 32-bit and the 64-bit reading. */
  datatype ElfHeader =
    | ElfBeginFailed
    | ElfHeader(kindNone: bool, classByte: Option<byte>, eType: nat, checksum32: u64, checksum64: u64)

  /** The section table of an in-memory image: `elf_memory` may fail, the
      section-name string table may be missing, or the sections are listed in
      file order (headers already widened to 64 bits). */
  datatype SectionTable = NotElf | NoStringTable | SectionList(secs: seq<Section>)

  /** One line-table entry, as the DWARF reader and the gcno reader report
      them. */
  datatype LineEntry = LineEntry(file: string, line: nat, addr: u64)

  /** The program-header segments announced for a shared library. */
  datatype DeclaredSegment = DeclaredSegment(paddr: u64, vaddr: u64, size: u64)

  /** The world outside the parser. */
  datatype Env = Env(
    fs: FileSystem,
    canOpen: string -> bool,
    elfHeader: string -> ElfHeader,
    lstatOk: string -> bool,
    sectionTable: seq<byte> -> SectionTable,
    dwarfLines: string -> Option<seq<LineEntry>>,
    database: u64 -> seq<u64>,
    gcnoLines: string -> Option<seq<LineEntry>>,
    verifier: (seq<byte>, u64, u64) -> bool)

  /** The fields `checkFile` writes: which file this is, its checksums, and
      the class and type taken from the main file. */
  datatype Identity = Identity(
    filename: string,
    checksum: u64,
    currentChecksum: u64,
    elfIs32Bit: bool,
    elfIsShared: bool,
    isMainFile: bool)

  /** Fields fixed once set up: the verification flag read by the first
      `addFile`, the filter, and the number of listeners of each kind. */
  datatype Settings = Settings(
    initialized: bool,
    verifyAddresses: bool,
    filter: Filter,
    lineListeners: nat,
    fileListeners: nat)

  /** Where separate debug information may be found: the build-id as hex,
      the debug-link name and the CRC stored next to it. */
  datatype DebugRefs = DebugRefs(buildId: string, debuglink: string, debuglinkCrc: bv32)

  /** `ElfInstance`'s member variables, grouped, plus the events sent to the
      listeners so far. */
  datatype Parser = Parser(
    ident: Identity,
    settings: Settings,
    debug: DebugRefs,
    relocation: u64,
    invalidBreakpoints: u32,
    curSegments: seq<Segment>,
    executableSegments: seq<Segment>,
    gcnoFiles: seq<string>,
    trace: seq<Event>)

  /** The build-id string is made of pairs of hex digits. */
  predicate Valid(p: Parser)
  {
    |p.debug.buildId| % 2 == 0
  }

  /** The constructor, followed by `setupParser(filter)`. */
  function NewParser(filter: Filter): (p: Parser)
    ensures Valid(p) && p.ident.isMainFile && !p.settings.initialized && p.ident.checksum == 0
    ensures p.trace == [] && p.curSegments == [] && p.executableSegments == [] && p.gcnoFiles == []
  {
    Parser(Identity("", 0, 0, true, false, true), Settings(false, false, filter, 0, 0),
           DebugRefs("", "", 0), 0, 0, [], [], [], [])
  }

  function RegisterLineListener(p: Parser): (r: Parser)
    ensures r.settings.lineListeners == p.settings.lineListeners + 1
    ensures r.(settings := p.settings) == p
  {
    p.(settings := p.settings.(lineListeners := p.settings.lineListeners + 1))
  }

  function RegisterFileListener(p: Parser): (r: Parser)
    ensures r.settings.fileListeners == p.settings.fileListeners + 1
    ensures r.(settings := p.settings) == p
  {
    p.(settings := p.settings.(fileListeners := p.settings.fileListeners + 1))
  }


  // ---------------------------------------------------------------------
  // matchParser

  datatype Match = MatchNone | MatchPerfect

  /** `matchParser`: a perfect match exactly for data that starts with the
      ELF magic. */
  function MatchParser(data: seq<byte>): (m: Match)
    ensures m == MatchPerfect <==> IsPrefix(ELFMAG, data)
  {
    if |data| >= 4 && data[..4] == ELFMAG then MatchPerfect else MatchNone
  }

  /** Only the first four bytes decide the match. */
  lemma MatchDependsOnMagicOnly(a: seq<byte>, b: seq<byte>)
    requires |a| >= 4 && |b| >= 4 && a[..4] == b[..4]
    ensures MatchParser(a) == MatchParser(b)
  {
  }

  // ---------------------------------------------------------------------
  // Address validation and translation

  /** The address listeners see: translated by the first declared segment
      containing it, plus the relocation, in 64-bit arithmetic. */
  function ReportedAddress(p: Parser, addr: u64): u64
  {
    Wrap64(AdjustAddressBySegment(p.curSegments, addr) + p.relocation)
  }

  /** `addressIsValid`: the address must lie in an executable segment and,
      with verification on, the verifier must accept its offset from the
      first such segment's base; each rejection by the verifier bumps the
      32-bit counter.  The result is the verdict and the new counter. */
  function AddressIsValid(p: Parser, env: Env, addr: u64): (r: (bool, u32))
    ensures NoneContains(p.executableSegments, addr) ==> r == (false, p.invalidBreakpoints)
    ensures forall i :: IsFirstContaining(p.executableSegments, addr, i) ==>
              var seg := p.executableSegments[i];
              var ok := !p.settings.verifyAddresses || env.verifier(seg.data, seg.size, Wrap64(addr - seg.vaddr));
              r.0 == ok && r.1 == (if ok then p.invalidBreakpoints else (p.invalidBreakpoints + 1) % U32_LIMIT)
  {
    match FirstContaining(p.executableSegments, addr)
    case None => (false, p.invalidBreakpoints)
    case Some(i) =>
      var seg := p.executableSegments[i];
      if !p.settings.verifyAddresses then (true, p.invalidBreakpoints)
      else if env.verifier(seg.data, seg.size, Wrap64(addr - seg.vaddr)) then (true, p.invalidBreakpoints)
      else (false, (p.invalidBreakpoints + 1) % U32_LIMIT)
  }

  /** `onLine`: a valid address is sent to every line listener, in
      registration order, with the mangled source path; an invalid one only
      updates the counter. */
  function OnLine(p: Parser, env: Env, file: string, line: nat, addr: u64): (r: Parser)
    ensures r.(trace := p.trace, invalidBreakpoints := p.invalidBreakpoints) == p
    ensures NoneContains(p.executableSegments, addr) ==> r == p
    ensures !p.settings.verifyAddresses ==> r.invalidBreakpoints == p.invalidBreakpoints
    ensures r.invalidBreakpoints == AddressIsValid(p, env, addr).1
    ensures !AddressIsValid(p, env, addr).0 ==> r.trace == p.trace
    ensures IsPrefix(p.trace, r.trace)
  {
    var (ok, counter) := AddressIsValid(p, env, addr);
    if !ok then p.(invalidBreakpoints := counter)
    else
      var rp := MangleSourcePath(p.settings.filter, env.fs.realPath, file);
      p.(trace := p.trace + LineFanOut(p.settings.lineListeners, rp, line, ReportedAddress(p, addr)))
  }

  /** What every listener receives for an accepted address: the mangled
      path, the line, and the address translated by the first declared
      segment containing it (or unchanged) plus the relocation. */
  lemma OnLineReportsTranslated(p: Parser, env: Env, file: string, line: nat, addr: u64, k: nat)
    requires AddressIsValid(p, env, addr).0
    requires k < p.settings.lineListeners
    ensures |OnLine(p, env, file, line, addr).trace| == |p.trace| + p.settings.lineListeners
    ensures OnLine(p, env, file, line, addr).trace[|p.trace| + k]
            == LineEvent(k, MangleSourcePath(p.settings.filter, env.fs.realPath, file), line,
                         Wrap64((match FirstContaining(p.curSegments, addr)
                                 case Some(i) => AdjustAddress(p.curSegments[i], addr)
                                 case None => addr) + p.relocation))
  {
    var r := OnLine(p, env, file, line, addr);
    var rp := MangleSourcePath(p.settings.filter, env.fs.realPath, file);
    var fan := LineFanOut(p.settings.lineListeners, rp, line, ReportedAddress(p, addr));
    assert r.trace == p.trace + fan;
    assert r.trace[|p.trace| + k] == fan[k];
  }

  /** A line inside the executable range `[0x1000, 0x1100)` of a library
      whose declared segment maps physical 0x1000 to virtual 0x5000 reaches
      every listener moved into the `0x5xxx` range. */
  lemma DeclaredSegmentMovesLine(p: Parser, env: Env, file: string, line: nat, addr: u64, k: nat)
    requires p.curSegments == [Segment([], 0x1000, 0x5000, 0x100)] && p.relocation == 0
    requires 0x1000 <= addr < 0x1100
    requires AddressIsValid(p, env, addr).0
    requires k < p.settings.lineListeners
    ensures OnLine(p, env, file, line, addr).trace[|p.trace| + k].addr == addr + 0x4000
  {
    OnLineReportsTranslated(p, env, file, line, addr, k);
    assert IsFirstContaining(p.curSegments, addr, 0);
    assert FirstContaining(p.curSegments, addr) == Some(0);
  }

  /** An accepted address leaves the rejection counter as it was, with
      verification on or off. */
  lemma OnLineAcceptedKeepsCounter(p: Parser, env: Env, file: string, line: nat, addr: u64)
    requires AddressIsValid(p, env, addr).0
    ensures OnLine(p, env, file, line, addr).invalidBreakpoints == p.invalidBreakpoints
  {
    var i := FirstContaining(p.executableSegments, addr).value;
    assert IsFirstContaining(p.executableSegments, addr, i);
  }

  /** A rejection by the verifier sends nothing and bumps the counter. */
  lemma OnLineCountsRejections(p: Parser, env: Env, file: string, line: nat, addr: u64, i: nat)
    requires IsFirstContaining(p.executableSegments, addr, i)
    requires p.settings.verifyAddresses
    requires var seg := p.executableSegments[i];
             !env.verifier(seg.data, seg.size, Wrap64(addr - seg.vaddr))
    ensures OnLine(p, env, file, line, addr) == p.(invalidBreakpoints := (p.invalidBreakpoints + 1) % U32_LIMIT)
  {
    var v := AddressIsValid(p, env, addr);
    assert v == (false, (p.invalidBreakpoints + 1) % U32_LIMIT);
  }

  /** `forEachLine` and the database loop: `onLine` for each entry in turn. */
  function ForEachLine(p: Parser, env: Env, lines: seq<LineEntry>): (r: Parser)
    ensures r.(trace := p.trace, invalidBreakpoints := p.invalidBreakpoints) == p
    ensures IsPrefix(p.trace, r.trace)
    decreases |lines|
  {
    if |lines| == 0 then p
    else ForEachLine(OnLine(p, env, lines[0].file, lines[0].line, lines[0].addr), env, lines[1..])
  }

  /** Reporting two batches one after the other is reporting them together. */
  lemma {:induction false} ForEachLineAppend(p: Parser, env: Env, a: seq<LineEntry>, b: seq<LineEntry>)
    ensures ForEachLine(p, env, a + b) == ForEachLine(ForEachLine(p, env, a), env, b)
    decreases |a|
  {
    if |a| == 0 {
      assert a + b == b;
    } else {
      assert (a + b)[1..] == a[1..] + b;
      ForEachLineAppend(OnLine(p, env, a[0].file, a[0].line, a[0].addr), env, a[1..], b);
    }
  }

  /** Entries none of whose addresses lie in an executable segment send
      nothing and leave the parser as it was. */
  lemma {:induction false} ForEachLineOutsideSegments(p: Parser, env: Env, lines: seq<LineEntry>)
    requires forall k :: 0 <= k < |lines| ==> NoneContains(p.executableSegments, lines[k].addr)
    ensures ForEachLine(p, env, lines) == p
    decreases |lines|
  {
    if |lines| > 0 {
      assert NoneContains(p.executableSegments, lines[0].addr);
      ForEachLineOutsideSegments(p, env, lines[1..]);
    }
  }

  /** The database fallback: every stored address as line 1 of an unnamed
      file. */
  function DatabaseEntries(addrs: seq<u64>): (r: seq<LineEntry>)
    ensures |r| == |addrs|
    ensures forall k :: 0 <= k < |addrs| ==> r[k] == LineEntry("", 1, addrs[k])
  {
    seq(|addrs|, k requires 0 <= k < |addrs| => LineEntry("", 1, addrs[k]))
  }

  // ---------------------------------------------------------------------
  // Debug-information search

  /** The files tried for line information, in order: the binary itself,
      its build-id file, its debug-link file.  A debug link that resolves to
      nothing is still opened (as the empty path) except for the main file. */
  function DebugSources(p: Parser, env: Env): (c: seq<string>)
    requires Valid(p)
    ensures 1 <= |c| <= 3 && c[0] == p.ident.filename
  {
    var d := p.debug;
    var link := LookupDebuglinkFile(env.fs, p.ident.filename, d.debuglink, d.debuglinkCrc);
    [p.ident.filename]
    + (if |d.buildId| > 0 then [BuildIdPath(d.buildId)] else [])
    + (if |d.debuglink| > 0 && !(link == "" && p.ident.isMainFile) then [link] else [])
  }

  /** The line table of the first source that opens. */
  function FirstOpening(open: string -> Option<seq<LineEntry>>, c: seq<string>): (r: Option<seq<LineEntry>>)
    ensures r.None? <==> forall k :: 0 <= k < |c| ==> open(c[k]).None?
    ensures r.Some? ==> exists k :: 0 <= k < |c| && r == open(c[k]) && forall j :: 0 <= j < k ==> open(c[j]).None?
  {
    if |c| == 0 then None
    else if open(c[0]).Some? then open(c[0])
    else
      var r := FirstOpening(open, c[1..]);
      assert forall k :: 1 <= k < |c| ==> c[k] == c[1..][k - 1];
      r
  }

  /** The search in `parseOneDwarf`, step by step as the source makes it:
      the binary, then its build-id file, then its debug link. */
  function DwarfSearch(p: Parser, env: Env): (r: Option<seq<LineEntry>>)
    requires Valid(p)
    ensures env.dwarfLines(p.ident.filename).Some? ==> r == env.dwarfLines(p.ident.filename)
  {
    var d := p.debug;
    var inline := env.dwarfLines(p.ident.filename);
    var byId := if inline.None? && |d.buildId| > 0 then env.dwarfLines(BuildIdPath(d.buildId)) else inline;
    if byId.None? && |d.debuglink| > 0 then
      var path := LookupDebuglinkFile(env.fs, p.ident.filename, d.debuglink, d.debuglinkCrc);
      if path == "" && p.ident.isMainFile then None else env.dwarfLines(path)
    else byId
  }

  /** One step of the search: the head if it opens, else the rest. */
  lemma FirstOpeningCons(open: string -> Option<seq<LineEntry>>, x: string, rest: seq<string>)
    ensures FirstOpening(open, [x] + rest) == if open(x).Some? then open(x) else FirstOpening(open, rest)
  {
    assert ([x] + rest)[0] == x;
    assert ([x] + rest)[1..] == rest;
  }

  lemma FirstOpeningOfOne(open: string -> Option<seq<LineEntry>>, tail: seq<string>)
    requires |tail| <= 1
    ensures FirstOpening(open, tail) == if |tail| == 1 then open(tail[0]) else None
  {
    if |tail| == 1 {
      assert tail == [tail[0]] + [];
      FirstOpeningCons(open, tail[0], []);
    }
  }

  lemma FirstOpeningOfTwo(open: string -> Option<seq<LineEntry>>, mid: seq<string>, tail: seq<string>)
    requires |mid| <= 1
    ensures FirstOpening(open, mid + tail)
            == if |mid| == 1 && open(mid[0]).Some? then open(mid[0]) else FirstOpening(open, tail)
  {
    if |mid| == 1 {
      assert mid + tail == [mid[0]] + tail;
      FirstOpeningCons(open, mid[0], tail);
    } else {
      assert mid + tail == tail;
    }
  }

  /** The first of at most three candidates that opens, written out. */
  lemma FirstOpeningOfThree(open: string -> Option<seq<LineEntry>>, a: string, mid: seq<string>, tail: seq<string>)
    requires |mid| <= 1 && |tail| <= 1
    ensures FirstOpening(open, [a] + mid + tail)
            == if open(a).Some? then open(a)
               else if |mid| == 1 && open(mid[0]).Some? then open(mid[0])
               else if |tail| == 1 then open(tail[0])
               else None
  {
    assert [a] + mid + tail == [a] + (mid + tail);
    FirstOpeningCons(open, a, mid + tail);
    FirstOpeningOfTwo(open, mid, tail);
    FirstOpeningOfOne(open, tail);
  }

  /** The step-by-step search finds exactly the first source, in the
      documented order, that opens. */
  lemma DwarfSearchOrder(p: Parser, env: Env)
    requires Valid(p)
    ensures DwarfSearch(p, env) == FirstOpening(env.dwarfLines, DebugSources(p, env))
  {
    var d := p.debug;
    var link := LookupDebuglinkFile(env.fs, p.ident.filename, d.debuglink, d.debuglinkCrc);
    var mid := if |d.buildId| > 0 then [BuildIdPath(d.buildId)] else [];
    var tail := if |d.debuglink| > 0 && !(link == "" && p.ident.isMainFile) then [link] else [];
    FirstOpeningOfThree(env.dwarfLines, p.ident.filename, mid, tail);
  }

  /** `parseOneDwarf`: reset the counter, record the relocation, and report
      the first line table found; without one, report the checksum
      database's addresses.  Fails only for a main file with neither. */
  function ParseOneDwarf(p: Parser, env: Env, relocation: u64): (r: (Parser, bool))
    requires Valid(p)
    ensures Valid(r.0) && r.0.relocation == relocation
    ensures !r.1 <==> DwarfSearch(p, env).None? && |env.database(p.ident.currentChecksum)| == 0 && p.ident.isMainFile
    ensures r.0.(trace := p.trace, invalidBreakpoints := p.invalidBreakpoints, relocation := p.relocation) == p
  {
    var p1 := p.(invalidBreakpoints := 0, relocation := relocation);
    match DwarfSearch(p, env)
    case Some(lines) => (ForEachLine(p1, env, lines), true)
    case None =>
      var addrs := env.database(p.ident.currentChecksum);
      if |addrs| == 0 && p.ident.isMainFile then (p1, false)
      else (ForEachLine(p1, env, DatabaseEntries(addrs)), true)
  }

  /** Without line information the database addresses still go through
      `onLine`, so those outside every executable segment are dropped. */
  lemma DatabaseFallbackIsValidated(p: Parser, env: Env, relocation: u64)
    requires Valid(p)
    requires DwarfSearch(p, env).None?
    requires forall k :: 0 <= k < |env.database(p.ident.currentChecksum)| ==>
               NoneContains(p.executableSegments, env.database(p.ident.currentChecksum)[k])
    ensures ParseOneDwarf(p, env, relocation).0.trace == p.trace
  {
    var p1 := p.(invalidBreakpoints := 0, relocation := relocation);
    var entries := DatabaseEntries(env.database(p.ident.currentChecksum));
    ForEachLineOutsideSegments(p1, env, entries);
  }

  /** What `parseOneDwarf` reports goes through `onLine`, entry by entry in
      table order, with the counter reset and the new relocation in force:
      the lines of the first source that opens, or else the database's
      addresses as line 1 of an unnamed file. */
  lemma ParseOneDwarfGoesThroughOnLine(p: Parser, env: Env, relocation: u64)
    requires Valid(p)
    ensures var p1 := p.(invalidBreakpoints := 0, relocation := relocation);
            DwarfSearch(p, env).Some? ==>
              ParseOneDwarf(p, env, relocation).0 == ForEachLine(p1, env, DwarfSearch(p, env).value)
    ensures var p1 := p.(invalidBreakpoints := 0, relocation := relocation);
            DwarfSearch(p, env).None? && ParseOneDwarf(p, env, relocation).1 ==>
              ParseOneDwarf(p, env, relocation).0
              == ForEachLine(p1, env, DatabaseEntries(env.database(p.ident.currentChecksum)))
  {
  }

  /** `parseGcnoFiles`: every basic block of every readable gcno file goes
      straight to the listeners with the relocation added. */
  function GcnoEvents(n: nat, lines: seq<LineEntry>, relocation: u64): (r: seq<Event>)
    ensures |r| == n * |lines|
  {
    if |lines| == 0 then []
    else LineFanOut(n, lines[0].file, lines[0].line, Wrap64(lines[0].addr + relocation))
         + GcnoEvents(n, lines[1..], relocation)
  }

  /** One basic block is reported to every line listener, in order, at its
      address plus the relocation. */
  lemma GcnoEventsOfOne(n: nat, l: LineEntry, relocation: u64)
    ensures GcnoEvents(n, [l], relocation) == LineFanOut(n, l.file, l.line, Wrap64(l.addr + relocation))
  {
    assert GcnoEvents(n, [l][1..], relocation) == [];
  }

  /** The blocks are reported in list order: two runs of blocks give the
      reports of the first, then those of the second. */
  lemma {:induction false} GcnoEventsAppend(n: nat, a: seq<LineEntry>, b: seq<LineEntry>, relocation: u64)
    ensures GcnoEvents(n, a + b, relocation) == GcnoEvents(n, a, relocation) + GcnoEvents(n, b, relocation)
    decreases |a|
  {
    if |a| == 0 {
      assert a + b == b;
    } else {
      assert (a + b)[0] == a[0];
      assert (a + b)[1..] == a[1..] + b;
      GcnoEventsAppend(n, a[1..], b, relocation);
    }
  }

  /** The reports for one gcno file: none when it cannot be read. */
  function GcnoFileBlocks(env: Env, n: nat, file: string, relocation: u64): seq<Event>
  {
    match env.gcnoLines(file)
    case None => []
    case Some(lines) => GcnoEvents(n, lines, relocation)
  }

  function GcnoFileEvents(env: Env, n: nat, files: seq<string>, relocation: u64): (r: seq<Event>)
    ensures forall k :: 0 <= k < |files| && env.gcnoLines(files[k]).Some? ==> |r| >= n * |env.gcnoLines(files[k]).value|
  {
    if |files| == 0 then []
    else
      var rest := GcnoFileEvents(env, n, files[1..], relocation);
      assert forall k :: 1 <= k < |files| ==> files[k] == files[1..][k - 1];
      GcnoFileBlocks(env, n, files[0], relocation) + rest
  }

  /** One gcno file: its blocks when it can be read, nothing otherwise. */
  lemma GcnoFileEventsOfOne(env: Env, n: nat, file: string, relocation: u64)
    ensures GcnoFileEvents(env, n, [file], relocation)
            == match env.gcnoLines(file) case None => [] case Some(lines) => GcnoEvents(n, lines, relocation)
  {
    assert GcnoFileEvents(env, n, [file], relocation)
           == GcnoFileBlocks(env, n, file, relocation) + GcnoFileEvents(env, n, [file][1..], relocation);
    assert GcnoFileEvents(env, n, [file][1..], relocation) == [];
  }

  /** The files are reported in list order. */
  lemma {:induction false} GcnoFileEventsAppend(env: Env, n: nat, a: seq<string>, b: seq<string>, relocation: u64)
    ensures GcnoFileEvents(env, n, a + b, relocation)
            == GcnoFileEvents(env, n, a, relocation) + GcnoFileEvents(env, n, b, relocation)
    decreases |a|
  {
    if |a| == 0 {
      assert a + b == b;
    } else {
      assert (a + b)[0] == a[0];
      assert (a + b)[1..] == a[1..] + b;
      GcnoFileEventsAppend(env, n, a[1..], b, relocation);
    }
  }

  function ParseGcnoFiles(p: Parser, env: Env, relocation: u64): (r: Parser)
    ensures r.(trace := p.trace) == p
    ensures IsPrefix(p.trace, r.trace)
    ensures r.trace == p.trace + GcnoFileEvents(env, p.settings.lineListeners, p.gcnoFiles, relocation)
  {
    p.(trace := p.trace + GcnoFileEvents(env, p.settings.lineListeners, p.gcnoFiles, relocation))
  }

  /** The gcno events do not depend on the segments, the filter or the
      verification flag: they bypass `onLine`'s checks. */
  lemma GcnoBypassesOnLine(p: Parser, env: Env, relocation: u64, cur: seq<Segment>, exec: seq<Segment>, f: Filter, verify: bool)
    ensures var q := p.(curSegments := cur, executableSegments := exec,
                        settings := p.settings.(filter := f, verifyAddresses := verify));
            ParseGcnoFiles(q, env, relocation).trace == ParseGcnoFiles(p, env, relocation).trace
  {
  }

  // ---------------------------------------------------------------------
  // parseOneElf

  /** The scan state a section scan starts from. */
  function ScanStart(p: Parser): (st: ScanState)
    ensures GcdaNamesOk(st) && st.gcdaFiles == []
  {
    ScanState(p.debug.buildId, p.debug.debuglink, p.debug.debuglinkCrc, p.curSegments, p.executableSegments, [], p.trace)
  }

  function ScanContextOf(p: Parser, image: seq<byte>, cfg: Config): ScanContext
  {
    ScanContext(image, cfg.gcov, |p.curSegments| == 0, p.settings.fileListeners)
  }

  /** The parser fields the scan writes, taken back from the scan state. */
  function AfterScan(p: Parser, st: ScanState): (r: Parser)
    ensures r.ident == p.ident && r.settings == p.settings && r.gcnoFiles == p.gcnoFiles
    ensures r.relocation == p.relocation && r.invalidBreakpoints == p.invalidBreakpoints
  {
    p.(debug := DebugRefs(st.buildId, st.debuglink, st.debuglinkCrc),
       curSegments := st.curSegments, executableSegments := st.execSegments, trace := st.trace)
  }

  /** `parseOneElf`: read the file, scan its sections, and on success keep
      the `.gcno` twins that exist of the data files found.  A failure
      before the scan changes nothing; a section whose data cannot be read
      stops the scan, keeps what it collected and forgets the data files. */
  function ParseOneElf(p: Parser, env: Env, cfg: Config): (r: (Parser, bool))
    requires Valid(p)
    ensures Valid(r.0)
    ensures r.0.ident == p.ident && r.0.settings == p.settings
    ensures r.0.relocation == p.relocation && r.0.invalidBreakpoints == p.invalidBreakpoints
    ensures env.fs.readFile(p.ident.filename).None? ==> r == (p, false)
    ensures IsPrefix(p.gcnoFiles, r.0.gcnoFiles)
    ensures !r.1 ==> r.0.gcnoFiles == p.gcnoFiles
  {
    match env.fs.readFile(p.ident.filename)
    case None => (p, false)
    case Some(image) =>
      match env.sectionTable(image)
      case NotElf => (p, false)
      case NoStringTable => (p, false)
      case SectionList(secs) =>
        var (st, ok) := ScanSections(ScanStart(p), secs, ScanContextOf(p, image, cfg));
        var p1 := AfterScan(p, st);
        if !ok then (p1, false)
        else
          assert forall k :: 0 <= k < |st.gcdaFiles| ==> GcdaName(st.gcdaFiles[k]);
          (p1.(gcnoFiles := p.gcnoFiles + GcnoCandidates(st.gcdaFiles, env.fs.fileExists)), true)
  }

  /** The scan appends the executable sections before the first unreadable
      one to the executable segments, and to the declared segments only when
      none were declared; it succeeds when every section could be read. */
  lemma ParseOneElfCollectsSegments(p: Parser, env: Env, cfg: Config, image: seq<byte>, secs: seq<Section>)
    requires Valid(p)
    requires env.fs.readFile(p.ident.filename) == Some(image) && env.sectionTable(image) == SectionList(secs)
    ensures var segs := ExecSegments(secs[..FirstUnreadable(secs)], image);
            && ParseOneElf(p, env, cfg).0.executableSegments == p.executableSegments + segs
            && ParseOneElf(p, env, cfg).0.curSegments == (if |p.curSegments| == 0 then segs else p.curSegments)
    ensures ParseOneElf(p, env, cfg).1 <==> FirstUnreadable(secs) == |secs|
  {
    var ctx := ScanContextOf(p, image, cfg);
    ScanCollectsExecSegments(ScanStart(p), secs, ctx);
    if ctx.setupSegments {
      ScanSetsUpDeclaredSegments(ScanStart(p), secs, ctx);
    } else {
      ScanKeepsDeclaredSegments(ScanStart(p), secs, ctx);
    }
  }

  /** The build-id and the debug-link name grow by those of the sections
      before the first unreadable one, and the CRC is the last link's. */
  lemma ParseOneElfCollectsDebugRefs(p: Parser, env: Env, cfg: Config, image: seq<byte>, secs: seq<Section>)
    requires Valid(p)
    requires env.fs.readFile(p.ident.filename) == Some(image) && env.sectionTable(image) == SectionList(secs)
    ensures var pre := secs[..FirstUnreadable(secs)];
            var d := ParseOneElf(p, env, cfg).0.debug;
            && d.buildId == p.debug.buildId + BuildIdsOf(pre)
            && d.debuglink == p.debug.debuglink + LinkNamesOf(pre)
            && d.debuglinkCrc == LastLinkCrc(pre, p.debug.debuglinkCrc)
  {
    var ctx := ScanContextOf(p, image, cfg);
    ScanCollectsBuildId(ScanStart(p), secs, ctx);
    ScanCollectsDebugLink(ScanStart(p), secs, ctx);
    ScanKeepsLastLinkCrc(ScanStart(p), secs, ctx);
  }

  /** Every data-file name found in the sections before the first
      unreadable one is announced, in order. */
  lemma ParseOneElfAnnouncesDataFiles(p: Parser, env: Env, cfg: Config, image: seq<byte>, secs: seq<Section>)
    requires Valid(p)
    requires env.fs.readFile(p.ident.filename) == Some(image) && env.sectionTable(image) == SectionList(secs)
    ensures ParseOneElf(p, env, cfg).0.trace
            == p.trace + GcdaEvents(GcdaNamesOf(secs[..FirstUnreadable(secs)], cfg.gcov), p.settings.fileListeners)
  {
    ScanAnnouncesGcdaNames(ScanStart(p), secs, ScanContextOf(p, image, cfg));
  }

  lemma ParseOneElfGcnoOfScan(p: Parser, env: Env, cfg: Config, image: seq<byte>, secs: seq<Section>, names: seq<string>)
    requires Valid(p)
    requires env.fs.readFile(p.ident.filename) == Some(image) && env.sectionTable(image) == SectionList(secs)
    requires ScanSections(ScanStart(p), secs, ScanContextOf(p, image, cfg)).1
    requires ScanSections(ScanStart(p), secs, ScanContextOf(p, image, cfg)).0.gcdaFiles == names
    requires forall k :: 0 <= k < |names| ==> |names[k]| >= 2
    ensures ParseOneElf(p, env, cfg).0.gcnoFiles == p.gcnoFiles + GcnoCandidates(names, env.fs.fileExists)
  {
  }

  /** When the whole table was read, the existing `.gcno` twins of the
      data-file names are added to the gcno list in the order the names
      were found.  (When it was not, `ParseOneElf` keeps the list.) */
  lemma ParseOneElfAddsGcnoTwins(p: Parser, env: Env, cfg: Config, image: seq<byte>, secs: seq<Section>)
    requires Valid(p)
    requires env.fs.readFile(p.ident.filename) == Some(image) && env.sectionTable(image) == SectionList(secs)
    requires FirstUnreadable(secs) == |secs|
    ensures ParseOneElf(p, env, cfg).0.gcnoFiles
            == p.gcnoFiles + GcnoCandidates(GcdaNamesOf(secs, cfg.gcov), env.fs.fileExists)
  {
    var ctx := ScanContextOf(p, image, cfg);
    var names := GcdaNamesOf(secs, cfg.gcov);
    assert ScanSections(ScanStart(p), secs, ctx).0.gcdaFiles == names by {
      ScanCollectsGcdaNames(ScanStart(p), secs, ctx);
      assert secs[..|secs|] == secs;
    }
    ParseOneElfGcnoOfScan(p, env, cfg, image, secs, names);
  }

  /** With gcov off the scan announces no data files and adds no gcno files. */
  lemma ParseOneElfWithoutGcov(p: Parser, env: Env, cfg: Config, image: seq<byte>, secs: seq<Section>)
    requires Valid(p) && !cfg.gcov
    requires env.fs.readFile(p.ident.filename) == Some(image) && env.sectionTable(image) == SectionList(secs)
    ensures ParseOneElf(p, env, cfg).0.gcnoFiles == p.gcnoFiles
    ensures ParseOneElf(p, env, cfg).0.trace == p.trace
  {
    ScanWithoutGcovIsSilent(ScanStart(p), secs, ScanContextOf(p, image, cfg));
  }

  // ---------------------------------------------------------------------
  // doParse, setMainFileRelocation, parse

  /** `doParse`: nothing without `lstat`; otherwise scan the sections and
      then report the gcno blocks (gcov mode with twins known) or the line
      information.  The results of both steps are discarded. */
  function DoParse(p: Parser, env: Env, cfg: Config, relocation: u64): (r: (Parser, bool))
    requires Valid(p)
    ensures Valid(r.0)
    ensures r.1 <==> env.lstatOk(p.ident.filename)
    ensures !r.1 ==> r.0 == p
    ensures r.0.ident == p.ident && r.0.settings == p.settings
    ensures r.1 ==> r.0.debug == ParseOneElf(p, env, cfg).0.debug && r.0.gcnoFiles == ParseOneElf(p, env, cfg).0.gcnoFiles
    ensures r.1 ==> r.0.executableSegments == ParseOneElf(p, env, cfg).0.executableSegments
                    && r.0.curSegments == ParseOneElf(p, env, cfg).0.curSegments
    ensures r.1 && !(cfg.gcov && |ParseOneElf(p, env, cfg).0.gcnoFiles| > 0) ==>
              r.0 == ParseOneDwarf(ParseOneElf(p, env, cfg).0, env, relocation).0
    ensures r.1 && !(cfg.gcov && |ParseOneElf(p, env, cfg).0.gcnoFiles| > 0) ==> r.0.relocation == relocation
    ensures r.1 && cfg.gcov && |ParseOneElf(p, env, cfg).0.gcnoFiles| > 0 ==>
              var p1 := ParseOneElf(p, env, cfg).0;
              && r.0.relocation == p.relocation
              && r.0.trace == p1.trace + GcnoFileEvents(env, p.settings.lineListeners, p1.gcnoFiles, relocation)
  {
    if !env.lstatOk(p.ident.filename) then (p, false)
    else
      var p1 := ParseOneElf(p, env, cfg).0;
      if cfg.gcov && |p1.gcnoFiles| > 0 then (ParseGcnoFiles(p1, env, relocation), true)
      else (ParseOneDwarf(p1, env, relocation).0, true)
  }

  /** `setMainFileRelocation`: a shared main file is parsed now, at the
      relocation it was loaded at; a static one is not parsed again. */
  function SetMainFileRelocation(p: Parser, env: Env, cfg: Config, relocation: u64): (r: (Parser, bool))
    requires Valid(p)
    ensures Valid(r.0)
    ensures !p.ident.elfIsShared ==> r == (p, true)
    ensures p.ident.elfIsShared ==> (r.1 <==> env.lstatOk(p.ident.filename))
    ensures p.ident.elfIsShared ==> r == DoParse(p, env, cfg, relocation)
    ensures p.ident.elfIsShared && r.1 && !(cfg.gcov && |ParseOneElf(p, env, cfg).0.gcnoFiles| > 0) ==>
              r.0.relocation == relocation
    ensures p.ident.elfIsShared && r.1 && cfg.gcov && |ParseOneElf(p, env, cfg).0.gcnoFiles| > 0 ==>
              var p1 := ParseOneElf(p, env, cfg).0;
              r.0.trace == p1.trace + GcnoFileEvents(env, p.settings.lineListeners, p1.gcnoFiles, relocation)
  {
    if p.ident.elfIsShared then DoParse(p, env, cfg, relocation) else (p, true)
  }

  /** `parse`: a shared main file waits for its relocation unless shared
      libraries are not handled, in which case it is parsed at relocation 0;
      every other file is parsed at once.  Afterwards no file is the main
      file any more. */
  function Parse(p: Parser, env: Env, cfg: Config): (r: (Parser, bool))
    requires Valid(p)
    ensures Valid(r.0)
    ensures !r.0.ident.isMainFile
  {
    var (p1, out) :=
      if p.ident.isMainFile && p.ident.elfIsShared then
        (if !cfg.parseSolibs then (SetMainFileRelocation(p, env, cfg, 0).0, true) else (p, true))
      else DoParse(p, env, cfg, 0);
    (p1.(ident := p1.ident.(isMainFile := false)), out)
  }

  /** A shared main file with shared-library parsing on is left for
      `setMainFileRelocation`: nothing is reported yet. */
  lemma ParseDefersSharedMain(p: Parser, env: Env, cfg: Config)
    requires Valid(p) && p.ident.isMainFile && p.ident.elfIsShared && cfg.parseSolibs
    ensures Parse(p, env, cfg) == (p.(ident := p.ident.(isMainFile := false)), true)
  {
  }

  /** Without shared-library parsing a shared main file is parsed at once at
      relocation 0, and `parse` succeeds whatever that parse did. */
  lemma ParseSharedMainAtZero(p: Parser, env: Env, cfg: Config)
    requires Valid(p) && p.ident.isMainFile && p.ident.elfIsShared && !cfg.parseSolibs
    ensures var q := DoParse(p, env, cfg, 0).0;
            Parse(p, env, cfg) == (q.(ident := q.ident.(isMainFile := false)), true)
  {
  }

  /** Any other file is parsed at relocation 0 and `parse` reports whether
      that happened. */
  lemma ParseOtherAtZero(p: Parser, env: Env, cfg: Config)
    requires Valid(p) && !(p.ident.isMainFile && p.ident.elfIsShared)
    ensures var q := DoParse(p, env, cfg, 0).0;
            Parse(p, env, cfg) == (q.(ident := q.ident.(isMainFile := false)), env.lstatOk(p.ident.filename))
  {
  }

  // ---------------------------------------------------------------------
  // addFile, checkFile

  /** `checkFile`: open the file, let libelf look at it, take the class and
      the shared-object type from the main file only, and record the
      checksum (read in the main file's class).  The first non-zero
      checksum is kept for good.  A file of unknown kind still has its
      checksum recorded but fails the check. */
  function CheckFile(id: Identity, env: Env): (r: (Identity, bool))
    ensures !env.canOpen(id.filename) || env.elfHeader(id.filename).ElfBeginFailed? ==> r == (id, false)
    ensures r.1 <==> env.canOpen(id.filename) && env.elfHeader(id.filename).ElfHeader? && !env.elfHeader(id.filename).kindNone
    ensures r.0.filename == id.filename && r.0.isMainFile == id.isMainFile
    ensures id.checksum != 0 ==> r.0.checksum == id.checksum
    ensures id.checksum == 0 && env.canOpen(id.filename) && env.elfHeader(id.filename).ElfHeader? ==>
              r.0.checksum == r.0.currentChecksum
    ensures env.canOpen(id.filename) && env.elfHeader(id.filename).ElfHeader? ==>
              var h := env.elfHeader(id.filename);
              r.0.currentChecksum == (if r.0.elfIs32Bit then h.checksum32 else h.checksum64)
    ensures !id.isMainFile ==> r.0.elfIs32Bit == id.elfIs32Bit && r.0.elfIsShared == id.elfIsShared
    ensures id.isMainFile && env.canOpen(id.filename) && env.elfHeader(id.filename).ElfHeader? ==>
              var h := env.elfHeader(id.filename);
              && r.0.elfIsShared == (h.eType == ET_DYN)
              && r.0.elfIs32Bit == (if h.classByte.Some? then h.classByte.value == ELFCLASS32 else id.elfIs32Bit)
  {
    if !env.canOpen(id.filename) then (id, false)
    else
      match env.elfHeader(id.filename)
      case ElfBeginFailed => (id, false)
      case ElfHeader(kindNone, classByte, eType, checksum32, checksum64) =>
        var id1 :=
          if id.isMainFile then
            var is32 := if classByte.Some? then classByte.value == ELFCLASS32 else id.elfIs32Bit;
            id.(elfIs32Bit := is32, elfIsShared := eType == ET_DYN)
          else id;
        var current := if id1.elfIs32Bit then checksum32 else checksum64;
        (id1.(currentChecksum := current, checksum := if id1.checksum == 0 then current else id1.checksum),
         !kindNone)
  }

  /** The declared segments of a shared library, without bytes. */
  function SegmentsOf(ds: seq<DeclaredSegment>): (segs: seq<Segment>)
    ensures |segs| == |ds|
    ensures forall i :: 0 <= i < |ds| ==> segs[i] == Segment([], ds[i].paddr, ds[i].vaddr, ds[i].size)
  {
    seq(|ds|, i requires 0 <= i < |ds| => Segment([], ds[i].paddr, ds[i].vaddr, ds[i].size))
  }

  function DeclaredSegments(declared: Option<seq<DeclaredSegment>>): (segs: seq<Segment>)
  {
    match declared
    case None => []
    case Some(ds) => SegmentsOf(ds)
  }

  /** `addFile`: the first call fixes whether addresses are verified; every
      call starts the file afresh (no build-id, debug link or executable
      segments; the declared segments as given), checks it, and on success
      announces it to every file listener as the main binary or as a shared
      library. */
  function AddFile(p: Parser, env: Env, cfg: Config, filename: string, declared: Option<seq<DeclaredSegment>>): (r: (Parser, bool))
    ensures Valid(r.0) && r.0.settings.initialized && r.0.ident.filename == filename
    ensures r.0.settings == (if p.settings.initialized then p.settings else p.settings.(initialized := true, verifyAddresses := cfg.verify))
    ensures r.0.debug.buildId == "" && r.0.debug.debuglink == "" && r.0.executableSegments == []
    ensures r.0.curSegments == DeclaredSegments(declared)
    ensures (r.0.ident, r.1) == CheckFile(p.ident.(filename := filename), env)
    ensures r.0.relocation == p.relocation && r.0.invalidBreakpoints == p.invalidBreakpoints
    ensures r.0.gcnoFiles == p.gcnoFiles && r.0.debug.debuglinkCrc == p.debug.debuglinkCrc
    ensures p.ident.checksum != 0 ==> r.0.ident.checksum == p.ident.checksum
    ensures !r.1 ==> r.0.trace == p.trace
    ensures r.1 ==> r.0.trace == p.trace + FileFanOut(p.settings.fileListeners,
                      File(filename, r.0.ident.currentChecksum, if p.ident.isMainFile then FlgNone else FlgTypeSolib))
  {
    var settings := if p.settings.initialized then p.settings else p.settings.(initialized := true, verifyAddresses := cfg.verify);
    var (id, ok) := CheckFile(p.ident.(filename := filename), env);
    var p1 := p.(ident := id, settings := settings, debug := p.debug.(buildId := "", debuglink := ""),
                 curSegments := DeclaredSegments(declared), executableSegments := []);
    if !ok then (p1, false)
    else
      var flags := if id.isMainFile then FlgNone else FlgTypeSolib;
      (p1.(trace := p.trace + FileFanOut(settings.fileListeners, File(filename, id.currentChecksum, flags))), true)
  }

  /** A run of `addFile` calls, each without declared segments. */
  function AddFiles(p: Parser, env: Env, cfg: seq<Config>, files: seq<string>): (r: Parser)
    requires |cfg| == |files|
    decreases |files|
  {
    if |files| == 0 then p
    else AddFiles(AddFile(p, env, cfg[0], files[0], None).0, env, cfg[1..], files[1..])
  }

  /** Once a checksum has been recorded no later file replaces it, and the
      verification flag stays the one read by the first call. */
  lemma {:induction false} AddFilesKeepChecksumAndVerifyFlag(p: Parser, env: Env, cfg: seq<Config>, files: seq<string>)
    requires |cfg| == |files|
    requires p.settings.initialized && p.ident.checksum != 0
    ensures AddFiles(p, env, cfg, files).ident.checksum == p.ident.checksum
    ensures AddFiles(p, env, cfg, files).settings.verifyAddresses == p.settings.verifyAddresses
    decreases |files|
  {
    if |files| > 0 {
      AddFilesKeepChecksumAndVerifyFlag(AddFile(p, env, cfg[0], files[0], None).0, env, cfg[1..], files[1..]);
    }
  }
}
