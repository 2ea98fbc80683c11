/** The section-header scan of `parseOneElf`.  Each section arrives as a
    width-neutral record (the source already copies the 32- and 64-bit
    header fields into the same `uint64_t` locals) together with the bytes
    libelf hands back for it.  From the sections the scan collects:
      - the GNU build-id, as lowercase hex, from the first note header of
        every `SHT_NOTE` section;
      - the `.gnu_debuglink` file name and the CRC stored after it;
      - the names of gcov data files embedded in `.rodata`;
      - one address segment per section that is both allocated and
        executable (the `SHF_ALLOC` and `SHF_EXECINSTR` flags of the
        System V ABI object-file format).
 */
module Sections {
  import opened Words
  import opened Strings
  import opened Segments
  import opened Events

  const SHT_NOTE: u64 := 7
  const SHF_ALLOC: bv64 := 0x2
  const SHF_EXECINSTR: bv64 := 0x4
  const NT_GNU_BUILD_ID: bv32 := 3

  /** `sizeof(Elf32_Nhdr)`, which is also `sizeof(Elf64_Nhdr)`: three
      32-bit words. */
  const NOTE_HEADER_SIZE: nat := 12

  /** `ELF_NOTE_GNU` with the terminator `strcmp` compares as well. */
  const ELF_NOTE_GNU: seq<byte> := [0x47, 0x4e, 0x55, 0x00]

  /** What `elf_getdata` yields: nothing (an error), a descriptor with a
      null buffer (as for `SHT_NOBITS`), or the section's bytes. */
  datatype SectionData = GetDataFailed | NoBuffer | Buffer(bytes: seq<byte>)

  datatype Section = Section(
    name: string,
    shType: u64,
    flags: bv64,
    addr: u64,
    size: u64,
    offset: u64,
    data: SectionData)

  // ---------------------------------------------------------------------
  // C strings

  /** Index of the first NUL at or after `from`: where `strlen` stops. */
  function NulFrom(buf: seq<byte>, from: nat): (r: Option<nat>)
    decreases |buf| - from
    ensures r.Some? ==> from <= r.value < |buf| && buf[r.value] == 0
    ensures forall k :: from <= k < |buf| && (r.None? || k < r.value) ==> buf[k] != 0
  {
    if from >= |buf| then None
    else if buf[from] == 0 then Some(from)
    else NulFrom(buf, from + 1)
  }

  predicate NulFree(s: seq<byte>)
  {
    forall k :: 0 <= k < |s| ==> s[k] != 0
  }

  // ---------------------------------------------------------------------
  // Build-id

  const HEX_DIGITS: string := "0123456789abcdef"

  function HexDigit(n: nat): char
    requires n < 16
  {
    HEX_DIGITS[n]
  }

  /** The inverse of `HexDigit` on lowercase hex digits. */
  function HexValue(c: char): (r: Option<nat>)
    ensures r.Some? ==> r.value < 16
  {
    if '0' <= c <= '9' then Some(c as int - '0' as int)
    else if 'a' <= c <= 'f' then Some(c as int - 'a' as int + 10)
    else None
  }

  lemma HexValueOfDigit(n: nat)
    requires n < 16
    ensures HexValue(HexDigit(n)) == Some(n)
  {
  }

  predicate IsLowerHex(s: string)
  {
    forall k :: 0 <= k < |s| ==> HexValue(s[k]).Some?
  }

  function HighNibble(b: byte): (n: nat)
    ensures n < 16
  {
    ((b >> 4) & 0xf) as nat
  }

  function LowNibble(b: byte): (n: nat)
    ensures n < 16
  {
    (b & 0xf) as nat
  }

  lemma NibbleSplit(b: byte)
    ensures HighNibble(b) * 16 + LowNibble(b) == b as nat
  {
  }

  /** The build-id bytes as the hex string the source builds: two
      lowercase digits per byte, high nibble first. */
  function BuildIdHex(id: seq<byte>): (s: string)
    ensures |s| == 2 * |id|
    ensures IsLowerHex(s)
    decreases |id|
  {
    if |id| == 0 then ""
    else
      HexValueOfDigit(HighNibble(id[0]));
      HexValueOfDigit(LowNibble(id[0]));
      [HexDigit(HighNibble(id[0])), HexDigit(LowNibble(id[0]))] + BuildIdHex(id[1..])
  }

  /** Hex string back to bytes; `None` for an odd length or a character
      that is not a lowercase hex digit. */
  function HexDecode(s: string): (r: Option<seq<byte>>)
    decreases |s|
  {
    if |s| == 0 then Some([])
    else if |s| == 1 then None
    else
      match (HexValue(s[0]), HexValue(s[1]), HexDecode(s[2..]))
      case (Some(hi), Some(lo), Some(rest)) => Some([(hi * 16 + lo) as byte] + rest)
      case _ => None
  }

  /** The two digits written for a byte decode back to it. */
  lemma HexPairDecodes(b: byte)
    ensures HexValue(HexDigit(HighNibble(b))) == Some(HighNibble(b))
    ensures HexValue(HexDigit(LowNibble(b))) == Some(LowNibble(b))
    ensures (HighNibble(b) * 16 + LowNibble(b)) as byte == b
  {
    HexValueOfDigit(HighNibble(b));
    HexValueOfDigit(LowNibble(b));
    NibbleSplit(b);
  }

  /** The build-id string determines the build-id: decoding it gives back
      the note's descriptor bytes. */
  lemma {:induction false} BuildIdHexRoundTrip(id: seq<byte>)
    ensures HexDecode(BuildIdHex(id)) == Some(id)
    decreases |id|
  {
    if |id| > 0 {
      var s := BuildIdHex(id);
      HexPairDecodes(id[0]);
      assert s[2..] == BuildIdHex(id[1..]);
      BuildIdHexRoundTrip(id[1..]);
      assert [id[0]] + id[1..] == id;
    }
  }

  /** Different build-ids give different strings. */
  lemma BuildIdHexInjective(a: seq<byte>, b: seq<byte>)
    requires BuildIdHex(a) == BuildIdHex(b)
    ensures a == b
  {
    BuildIdHexRoundTrip(a);
    BuildIdHexRoundTrip(b);
  }

  /** The descriptor of the first note in a `SHT_NOTE` section when that
      note is named "GNU" and has type `NT_GNU_BUILD_ID`.  A header, name or
      descriptor that runs past the section's bytes yields nothing. */
  function NoteBuildId(buf: seq<byte>): (r: Option<seq<byte>>)
    ensures r.Some? ==> |buf| >= NOTE_HEADER_SIZE + |ELF_NOTE_GNU|
    ensures r.Some? ==> buf[NOTE_HEADER_SIZE..NOTE_HEADER_SIZE + |ELF_NOTE_GNU|] == ELF_NOTE_GNU
    ensures r.Some? ==> ReadLe32(buf, 8) == NT_GNU_BUILD_ID
    ensures r.Some? ==> |r.value| == ReadLe32(buf, 4) as nat
  {
    if |buf| < NOTE_HEADER_SIZE + |ELF_NOTE_GNU| then None
    else
      var namesz := ReadLe32(buf, 0) as nat;
      var descsz := ReadLe32(buf, 4) as nat;
      var ntype := ReadLe32(buf, 8);
      if buf[NOTE_HEADER_SIZE..NOTE_HEADER_SIZE + |ELF_NOTE_GNU|] != ELF_NOTE_GNU || ntype != NT_GNU_BUILD_ID then None
      else if NOTE_HEADER_SIZE + namesz + descsz > |buf| then None
      else Some(buf[NOTE_HEADER_SIZE + namesz..NOTE_HEADER_SIZE + namesz + descsz])
  }

  /** The note a linker writes for `--build-id`: name size 4, descriptor
      size, type 3, "GNU\0", then the descriptor. */
  function GnuBuildIdNote(id: seq<byte>, descsz: bv32): (note: seq<byte>)
    requires descsz as nat == |id|
    ensures |note| == NOTE_HEADER_SIZE + |ELF_NOTE_GNU| + |id|
  {
    EncodeLe32(4) + EncodeLe32(descsz) + EncodeLe32(NT_GNU_BUILD_ID) + ELF_NOTE_GNU + id
  }

  /** The three header words of a written note read back. */
  lemma NoteHeaderReadsBack(id: seq<byte>, descsz: bv32, rest: seq<byte>)
    requires descsz as nat == |id|
    ensures var buf := GnuBuildIdNote(id, descsz) + rest;
            && ReadLe32(buf, 0) == 4 && ReadLe32(buf, 4) == descsz && ReadLe32(buf, 8) == NT_GNU_BUILD_ID
  {
    var buf := GnuBuildIdNote(id, descsz) + rest;
    assert buf[0..4] == EncodeLe32(4);
    ReadLe32At(buf, 0, 4);
    assert buf[4..8] == EncodeLe32(descsz);
    ReadLe32At(buf, 4, descsz);
    assert buf[8..12] == EncodeLe32(NT_GNU_BUILD_ID);
    ReadLe32At(buf, 8, NT_GNU_BUILD_ID);
  }

  /** The name and the descriptor of a written note sit right after the
      header. */
  lemma NoteBodyReadsBack(id: seq<byte>, descsz: bv32, rest: seq<byte>)
    requires descsz as nat == |id|
    ensures var buf := GnuBuildIdNote(id, descsz) + rest;
            && buf[NOTE_HEADER_SIZE..NOTE_HEADER_SIZE + 4] == ELF_NOTE_GNU
            && buf[NOTE_HEADER_SIZE + 4..NOTE_HEADER_SIZE + 4 + |id|] == id
  {
  }

  /** The scan reads back the build-id of a well-formed GNU note, whatever
      follows it in the section. */
  lemma NoteBuildIdRoundTrip(id: seq<byte>, descsz: bv32, rest: seq<byte>)
    requires descsz as nat == |id|
    ensures NoteBuildId(GnuBuildIdNote(id, descsz) + rest) == Some(id)
  {
    NoteHeaderReadsBack(id, descsz, rest);
    NoteBodyReadsBack(id, descsz, rest);
  }

  // ---------------------------------------------------------------------
  // Debug link

  datatype DebugLink = DebugLink(name: seq<byte>, crc: bv32)

  /** Where the CRC sits after a name whose terminator ends at `end`: the
      next multiple of four. */
  function CrcOffset(end: nat): (off: nat)
    ensures off % 4 == 0
    ensures end <= off < end + 4
  {
    end + (if end % 4 != 0 then 4 - end % 4 else 0)
  }

  /** The contents of a `.gnu_debuglink` section: the file name up to its
      NUL, then the little-endian CRC-32 at the next 4-byte boundary.  A
      section without a NUL, or too short for the CRC, yields nothing. */
  function DebugLinkOf(buf: seq<byte>): (r: Option<DebugLink>)
    ensures r.Some? ==> NulFree(r.value.name) && |r.value.name| < |buf| && buf[|r.value.name|] == 0
    ensures r.Some? ==> buf[..|r.value.name|] == r.value.name
    ensures r.Some? ==> CrcOffset(|r.value.name| + 1) + 4 <= |buf|
    ensures r.Some? ==> r.value.crc == ReadLe32(buf, CrcOffset(|r.value.name| + 1))
  {
    match NulFrom(buf, 0)
    case None => None
    case Some(n) =>
      var off := CrcOffset(n + 1);
      if off + 4 > |buf| then None
      else Some(DebugLink(buf[..n], ReadLe32(buf, off)))
  }

  /** The section `objcopy --add-gnu-debuglink` writes: the name, its NUL,
      zero padding to a multiple of four, the CRC. */
  function EncodeDebugLink(link: DebugLink): (buf: seq<byte>)
    ensures |buf| == CrcOffset(|link.name| + 1) + 4
  {
    link.name + [0] + seq(CrcOffset(|link.name| + 1) - |link.name| - 1, _ => 0) + EncodeLe32(link.crc)
  }

  /** The first NUL after a NUL-free name is its terminator. */
  lemma NulAfterName(name: seq<byte>, rest: seq<byte>)
    requires NulFree(name)
    ensures NulFrom(name + [0] + rest, 0) == Some(|name|)
  {
    var buf := name + [0] + rest;
    assert buf[|name|] == 0;
    assert forall k :: 0 <= k < |name| ==> buf[k] == name[k];
  }

  /** The name of a written debug link ends at its own terminator. */
  lemma DebugLinkNameReadsBack(link: DebugLink, rest: seq<byte>)
    requires NulFree(link.name)
    ensures var buf := EncodeDebugLink(link) + rest;
            && NulFrom(buf, 0) == Some(|link.name|) && buf[..|link.name|] == link.name
  {
    var n := |link.name|;
    var buf := EncodeDebugLink(link) + rest;
    assert buf == link.name + [0] + buf[n + 1..];
    NulAfterName(link.name, buf[n + 1..]);
  }

  /** The CRC of a written debug link sits at the aligned offset. */
  lemma DebugLinkCrcReadsBack(link: DebugLink, rest: seq<byte>)
    ensures var buf := EncodeDebugLink(link) + rest;
            ReadLe32(buf, CrcOffset(|link.name| + 1)) == link.crc
  {
    var n := |link.name|;
    var pre := link.name + [0] + seq(CrcOffset(n + 1) - n - 1, _ => 0);
    var buf := EncodeDebugLink(link) + rest;
    MiddleSlice(pre, EncodeLe32(link.crc), rest);
    ReadLe32At(buf, |pre|, link.crc);
  }

  /** Reading back a written debug link gives the same name and CRC. */
  lemma DebugLinkRoundTrip(link: DebugLink, rest: seq<byte>)
    requires NulFree(link.name)
    ensures DebugLinkOf(EncodeDebugLink(link) + rest) == Some(link)
  {
    DebugLinkNameReadsBack(link, rest);
    DebugLinkCrcReadsBack(link, rest);
  }

  // ---------------------------------------------------------------------
  // gcov data file names in .rodata

  /** "gcda" and the terminating NUL. */
  const GCDA_MARKER: seq<byte> := [0x67, 0x63, 0x64, 0x61, 0x00]

  /** A name the scan can produce: at least the four characters "gcda",
      which it ends with. */
  predicate GcdaName(n: string)
  {
    |n| >= 4 && n[|n| - 4..] == "gcda"
  }

  /** The backward walk from the marker: down to the nearest NUL, but never
      below the start of the section. */
  function Rewind(buf: seq<byte>, k: nat): (r: nat)
    requires k < |buf|
    ensures r <= k
    ensures r == 0 || buf[r] == 0
    ensures forall m :: r < m <= k ==> buf[m] != 0
  {
    if k == 0 then 0
    else if buf[k] == 0 then k
    else Rewind(buf, k - 1)
  }

  /** The bytes from after a NUL through a marker's "gcda" spell a name
      ending in "gcda". */
  lemma MarkedNameEndsInGcda(buf: seq<byte>, j: nat, i: nat)
    requires OccursAt(buf, GCDA_MARKER, i) && j < i
    ensures GcdaName(BytesToString(buf[j + 1..i + 4]))
  {
    var name := BytesToString(buf[j + 1..i + 4]);
    assert buf[i..i + 5] == GCDA_MARKER;
    forall k | 0 <= k < 4 ensures name[|name| - 4 + k] == "gcda"[k] {
      assert buf[j + 1..i + 4][|name| - 4 + k] == buf[i + k] == GCDA_MARKER[k];
      assert "gcda"[k] as int == GCDA_MARKER[k] as int;
    }
  }

  /** When the rewind stopped at `j`, the name carries no NUL: the marker's
      first four bytes are letters. */
  lemma MarkedNameIsNulFree(buf: seq<byte>, j: nat, i: nat)
    requires OccursAt(buf, GCDA_MARKER, i) && j < i
    requires forall m :: j < m <= i ==> buf[m] != 0
    ensures NulFree(buf[j + 1..i + 4])
  {
    forall k | j + 1 <= k < i + 4 ensures buf[k] != 0 {
      if k > i {
        assert buf[k] == buf[i..i + 5][k - i];
      }
    }
  }

  /** The name recorded for a marker at `i`, if any: the C string that
      starts after the nearest NUL before the marker, which must not be the
      first byte of the section. */
  function GcdaNameAt(buf: seq<byte>, i: nat): (r: Option<string>)
    ensures r.Some? ==> OccursAt(buf, GCDA_MARKER, i)
    ensures r.Some? ==> GcdaName(r.value)
  {
    if !OccursAt(buf, GCDA_MARKER, i) then None
    else
      var j := Rewind(buf, i);
      if j == 0 then None
      else
        var name := BytesToString(buf[j + 1..i + 4]);
        MarkedNameEndsInGcda(buf, j, i);
        Some(name)
  }

  /** A recorded name is the NUL-free string between an interior NUL and
      the marker, and a marker with an interior NUL before it always yields
      a name. */
  lemma GcdaNameAtIsCString(buf: seq<byte>, i: nat)
    ensures var r := GcdaNameAt(buf, i);
            r.Some? ==> exists j :: 1 <= j < i && buf[j] == 0 && NulFree(buf[j + 1..i + 4])
                                    && r.value == BytesToString(buf[j + 1..i + 4])
    ensures OccursAt(buf, GCDA_MARKER, i) && (exists j :: 1 <= j < i && buf[j] == 0) ==> GcdaNameAt(buf, i).Some?
  {
    if OccursAt(buf, GCDA_MARKER, i) {
      var j := Rewind(buf, i);
      if j != 0 {
        MarkedNameIsNulFree(buf, j, i);
      }
    }
  }

  function OptionToSeq<T>(o: Option<T>): (s: seq<T>)
    ensures |s| <= 1
  {
    match o
    case None => []
    case Some(x) => [x]
  }

  /** Names for the markers at positions below `bound`, in position order. */
  function GcdaNamesBelow(buf: seq<byte>, bound: nat): (names: seq<string>)
    ensures |names| <= bound
  {
    if bound == 0 then []
    else GcdaNamesBelow(buf, bound - 1) + OptionToSeq(GcdaNameAt(buf, bound - 1))
  }

  /** The names the scan records: every position where a whole marker fits
      is examined. */
  function GcdaNames(buf: seq<byte>): seq<string>
  {
    if |buf| < |GCDA_MARKER| then [] else GcdaNamesBelow(buf, |buf| - |GCDA_MARKER| + 1)
  }

  /** Every recorded name ends in "gcda". */
  lemma {:induction false} GcdaNamesBelowEndInGcda(buf: seq<byte>, bound: nat)
    ensures forall k :: 0 <= k < |GcdaNamesBelow(buf, bound)| ==> GcdaName(GcdaNamesBelow(buf, bound)[k])
  {
    if bound > 0 {
      GcdaNamesBelowEndInGcda(buf, bound - 1);
    }
  }

  lemma GcdaNamesEndInGcda(buf: seq<byte>)
    ensures forall k :: 0 <= k < |GcdaNames(buf)| ==> GcdaName(GcdaNames(buf)[k])
  {
    if |buf| >= |GCDA_MARKER| {
      GcdaNamesBelowEndInGcda(buf, |buf| - |GCDA_MARKER| + 1);
    }
  }

  /** The backward walk is determined by where it may stop. */
  lemma RewindUnique(buf: seq<byte>, k: nat, g: nat)
    requires g <= k < |buf|
    requires g == 0 || buf[g] == 0
    requires forall m :: g < m <= k ==> buf[m] != 0
    ensures g == Rewind(buf, k)
  {
  }

  /** `GcdaNameAt` in terms of the backward walk alone. */
  lemma GcdaNameAtRewind(buf: seq<byte>, i: nat)
    requires i < |buf|
    ensures !OccursAt(buf, GCDA_MARKER, i) ==> GcdaNameAt(buf, i) == None
    ensures OccursAt(buf, GCDA_MARKER, i) && Rewind(buf, i) == 0 ==> GcdaNameAt(buf, i) == None
    ensures OccursAt(buf, GCDA_MARKER, i) && Rewind(buf, i) != 0 ==>
              GcdaNameAt(buf, i) == Some(BytesToString(buf[Rewind(buf, i) + 1..i + 4]))
  {
  }

  /** The source's backward walk from a marker, as a loop. */
  method WalkBack(buf: seq<byte>, i: nat) returns (g: nat)
    requires i < |buf|
    ensures g == Rewind(buf, i)
  {
    g := i;
    while g != 0 && buf[g] != 0
      invariant g <= i
      invariant forall m :: g < m <= i ==> buf[m] != 0
    {
      g := g - 1;
    }
    RewindUnique(buf, i, g);
  }

  /** The body of the source's loop for position `i`: compare with the
      marker, walk back to the nearest NUL, take the string after it. */
  method NameAtPosition(buf: seq<byte>, i: nat) returns (found: Option<string>)
    requires i + |GCDA_MARKER| <= |buf|
    ensures found == GcdaNameAt(buf, i)
  {
    found := None;
    GcdaNameAtRewind(buf, i);
    if OccursAt(buf, GCDA_MARKER, i) {
      var g := WalkBack(buf, i);
      if g != 0 {
        found := Some(BytesToString(buf[g + 1..i + 4]));
      }
    }
  }

  /** The source's loop over the positions below `bound`. */
  method ScanGcdaBelow(buf: seq<byte>, bound: nat) returns (names: seq<string>)
    requires bound == 0 || bound + |GCDA_MARKER| <= |buf| + 1
    ensures names == GcdaNamesBelow(buf, bound)
  {
    names := [];
    for i := 0 to bound
      invariant names == GcdaNamesBelow(buf, i)
    {
      names := ScanPosition(buf, i, names);
    }
  }

  /** The loop with the bound corrected to examine every position with room
      for a marker. */
  method ScanGcda(buf: seq<byte>) returns (names: seq<string>)
    ensures names == GcdaNames(buf)
  {
    var bound := if |buf| < |GCDA_MARKER| then 0 else |buf| - |GCDA_MARKER| + 1;
    names := ScanGcdaBelow(buf, bound);
    GcdaNamesBelowAll(buf);
  }

  /** The loop as written, `i < d_size - 5`, for a section long enough
      that the bound does not wrap. */
  method ScanGcdaAsWritten(buf: seq<byte>) returns (names: seq<string>)
    requires |buf| >= |GCDA_MARKER|
    ensures names == GcdaNamesAsWritten(buf)
  {
    names := ScanGcdaBelow(buf, |buf| - |GCDA_MARKER|);
  }

  /** One turn of the scan loop: the names so far, plus the one at `i`. */
  method ScanPosition(buf: seq<byte>, i: nat, names: seq<string>) returns (names': seq<string>)
    requires i + |GCDA_MARKER| <= |buf| && names == GcdaNamesBelow(buf, i)
    ensures names' == GcdaNamesBelow(buf, i + 1)
  {
    var found := NameAtPosition(buf, i);
    names' := names + OptionToSeq(found);
  }

  lemma GcdaNamesBelowAll(buf: seq<byte>)
    ensures GcdaNames(buf)
            == GcdaNamesBelow(buf, if |buf| < |GCDA_MARKER| then 0 else |buf| - |GCDA_MARKER| + 1)
  {
  }

  /** A string table entry "…gcda" preceded by a NUL that is not the first
      byte of the section is found, and its name is exactly that entry. */
  lemma GcdaNameRoundTrip(pre: seq<byte>, stem: seq<byte>, post: seq<byte>)
    requires |pre| >= 1 && NulFree(stem)
    ensures GcdaNameAt(pre + [0] + stem + GCDA_MARKER + post, |pre| + 1 + |stem|)
            == Some(BytesToString(stem + GCDA_MARKER[..4]))
  {
    var buf := pre + [0] + stem + GCDA_MARKER + post;
    var i := |pre| + 1 + |stem|;
    assert buf[i..i + 5] == GCDA_MARKER;
    assert forall m :: |pre| < m <= i ==> buf[m] != 0 by {
      forall m | |pre| < m <= i ensures buf[m] != 0 {
        if m < i {
          assert buf[m] == stem[m - |pre| - 1];
        }
      }
    }
    assert buf[|pre|] == 0;
    assert Rewind(buf, i) == |pre|;
    assert buf[|pre| + 1..i + 4] == stem + GCDA_MARKER[..4];
  }

  /** The `.gcno` file that belongs to a `.gcda` name: the last two
      characters become "no". */
  function GcnoTwin(gcda: string): (gcno: string)
    requires |gcda| >= 2
    ensures |gcno| == |gcda| && gcno[..|gcda| - 2] == gcda[..|gcda| - 2]
    ensures gcno[|gcda| - 2..] == "no"
  {
    gcda[..|gcda| - 2] + "no"
  }

  lemma GcnoTwinOfGcda(stem: string)
    ensures GcnoTwin(stem + "gcda") == stem + "gcno"
  {
    assert (stem + "gcda")[..|stem| + 2] == stem + "gc";
  }

  /** The `.gcno` twins of the recorded names that exist, in order. */
  function GcnoCandidates(gcda: seq<string>, fileExists: string -> bool): (gcno: seq<string>)
    requires forall k :: 0 <= k < |gcda| ==> |gcda[k]| >= 2
    ensures |gcno| <= |gcda|
    ensures forall k :: 0 <= k < |gcno| ==> fileExists(gcno[k])
    ensures forall k :: 0 <= k < |gcno| ==> exists m :: 0 <= m < |gcda| && gcno[k] == GcnoTwin(gcda[m])
    ensures forall m :: 0 <= m < |gcda| && fileExists(GcnoTwin(gcda[m])) ==> GcnoTwin(gcda[m]) in gcno
  {
    if |gcda| == 0 then []
    else
      var rest := GcnoCandidates(gcda[1..], fileExists);
      var twin := GcnoTwin(gcda[0]);
      assert forall m :: 1 <= m < |gcda| ==> gcda[m] == gcda[1..][m - 1];
      if fileExists(twin) then [twin] + rest else rest
  }

  /** A single data file gives its twin exactly when the twin exists. */
  lemma GcnoCandidatesOfOne(gcda: string, fileExists: string -> bool)
    requires |gcda| >= 2
    ensures GcnoCandidates([gcda], fileExists) == if fileExists(GcnoTwin(gcda)) then [GcnoTwin(gcda)] else []
  {
    assert [gcda][1..] == [];
  }

  /** The candidates keep the order of the data files, one per data file
      whose twin exists, duplicates included. */
  lemma {:induction false} GcnoCandidatesAppend(a: seq<string>, b: seq<string>, fileExists: string -> bool)
    requires forall k :: 0 <= k < |a| ==> |a[k]| >= 2
    requires forall k :: 0 <= k < |b| ==> |b[k]| >= 2
    ensures GcnoCandidates(a + b, fileExists) == GcnoCandidates(a, fileExists) + GcnoCandidates(b, fileExists)
    decreases |a|
  {
    if |a| == 0 {
      assert a + b == b;
    } else {
      assert (a + b)[0] == a[0];
      assert (a + b)[1..] == a[1..] + b;
      GcnoCandidatesAppend(a[1..], b, fileExists);
    }
  }

  /** The announcement of a found data file as the source writes it:
      `File(file, FLG_TYPE_COVERAGE_DATA)` binds the flag to the checksum
      parameter of the constructor, so the flags are left at `FLG_NONE`. */
  function GcdaFileAsWritten(name: string): (f: File)
    ensures f.name == name
  {
    File(name, FlagValue(FlgTypeCoverageData), FlgNone)
  }

  lemma GcdaAnnouncementLosesItsFlag(name: string)
    ensures GcdaFileAsWritten(name).flags == FlgNone
    ensures GcdaFileAsWritten(name).checksum == 2
  {
  }

  /** The announcement as evidently intended: no checksum, flagged as
      coverage data. */
  function GcdaFile(name: string): (f: File)
    ensures f.name == name && f.checksum == 0 && f.flags == FlgTypeCoverageData
  {
    File(name, 0, FlgTypeCoverageData)
  }

  // ---------------------------------------------------------------------
  // The loop bound as written

  /** `data->d_size - 5` in `size_t`. */
  function AsWrittenScanBound(size: nat): (bound: u64)
    requires size < U64_LIMIT
  {
    Wrap64(size - 5)
  }

  /** With fewer than five bytes the subtraction wraps and the loop walks
      far past the end of the section. */
  lemma AsWrittenBoundOverruns(size: nat)
    requires size < 5
    ensures AsWrittenScanBound(size) > size
    ensures AsWrittenScanBound(size) == U64_LIMIT + size - 5
  {
  }

  /** The corrected scan examines no position of a section too short to
      hold a marker. */
  lemma ShortSectionHasNoNames(buf: seq<byte>)
    requires |buf| < |GCDA_MARKER|
    ensures GcdaNames(buf) == []
  {
  }

  /** The names the loop as written records, for a section of at least five
      bytes: positions below `d_size - 5` only. */
  function GcdaNamesAsWritten(buf: seq<byte>): (names: seq<string>)
    requires |buf| >= |GCDA_MARKER|
    ensures forall k :: 0 <= k < |names| ==> GcdaName(names[k])
  {
    GcdaNamesBelowEndInGcda(buf, |buf| - |GCDA_MARKER|);
    GcdaNamesBelow(buf, |buf| - |GCDA_MARKER|)
  }

  /** The loop as written differs from the intended scan exactly by the
      last position where a marker fits. */
  lemma AsWrittenMissesOnlyLastPosition(buf: seq<byte>)
    requires |buf| >= |GCDA_MARKER|
    ensures GcdaNames(buf) == GcdaNamesAsWritten(buf) + OptionToSeq(GcdaNameAt(buf, |buf| - |GCDA_MARKER|))
  {
  }

  /** The names the parser records for a section: the loop as written, and
      nothing for a section shorter than the marker (where the source's
      bound wraps around). */
  function ScannedGcdaNames(buf: seq<byte>): (names: seq<string>)
    ensures forall k :: 0 <= k < |names| ==> GcdaName(names[k])
    ensures |buf| < |GCDA_MARKER| ==> names == []
  {
    if |buf| < |GCDA_MARKER| then [] else GcdaNamesAsWritten(buf)
  }

  /** The first three positions of the section "\0\0xgcda\0", which ends
      with a marker, hold no marker. */
  lemma NoMarkerInFirstThree(buf: seq<byte>)
    requires buf == [0, 0, 0x78] + GCDA_MARKER
    ensures GcdaNamesBelow(buf, 3) == []
  {
    assert !OccursAt(buf, GCDA_MARKER, 0) by { assert buf[0] != GCDA_MARKER[0]; }
    assert !OccursAt(buf, GCDA_MARKER, 1) by { assert buf[1] != GCDA_MARKER[0]; }
    assert !OccursAt(buf, GCDA_MARKER, 2) by { assert buf[2] != GCDA_MARKER[0]; }
    assert GcdaNamesBelow(buf, 1) == [];
    assert GcdaNamesBelow(buf, 2) == [];
  }

  /** The loop as written never looks at the marker that ends the section
      and records nothing. */
  lemma AsWrittenMissesFinalMarker()
    ensures GcdaNamesAsWritten([0, 0, 0x78] + GCDA_MARKER) == []
  {
    NoMarkerInFirstThree([0, 0, 0x78] + GCDA_MARKER);
  }

  /** The intended scan, up to and including the last position where a
      marker fits, records "xgcda". */
  lemma IntendedScanFindsFinalMarker()
    ensures GcdaNames([0, 0, 0x78] + GCDA_MARKER) == ["xgcda"]
  {
    var buf: seq<byte> := [0, 0, 0x78] + GCDA_MARKER;
    NoMarkerInFirstThree(buf);
    FinalMarkerName(buf);
    assert GcdaNamesBelow(buf, 4) == GcdaNamesBelow(buf, 3) + OptionToSeq(GcdaNameAt(buf, 3));
  }

  /** The marker at position 3 of that section names "xgcda". */
  lemma FinalMarkerName(buf: seq<byte>)
    requires buf == [0, 0, 0x78] + GCDA_MARKER
    ensures GcdaNameAt(buf, 3) == Some("xgcda")
  {
    GcdaNameRoundTrip([0], [0x78], []);
    assert buf == [0] + [0] + [0x78] + GCDA_MARKER + [];
    XgcdaSpelling();
  }

  lemma XgcdaSpelling()
    ensures BytesToString([0x78] + GCDA_MARKER[..4]) == "xgcda"
  {
    var s := BytesToString([0x78] + GCDA_MARKER[..4]);
    assert |s| == 5;
    assert s[0] == 'x' && s[1] == 'g' && s[2] == 'c' && s[3] == 'd' && s[4] == 'a';
  }

  // ---------------------------------------------------------------------
  // Executable sections

  /** Both `SHF_ALLOC` and `SHF_EXECINSTR` are set. */
  predicate IsExecutableSection(flags: bv64)
  {
    flags & (SHF_EXECINSTR | SHF_ALLOC) == SHF_EXECINSTR | SHF_ALLOC
  }

  lemma ExecutableIffBothFlags(flags: bv64)
    ensures IsExecutableSection(flags) <==> (flags & SHF_ALLOC != 0 && flags & SHF_EXECINSTR != 0)
  {
  }

  /** The bytes `[off, off + size)` of the file image, cut at its end. */
  function Clip(image: seq<byte>, off: nat, size: nat): (r: seq<byte>)
    ensures |r| <= size
  {
    var lo := if off < |image| then off else |image|;
    var hi := if off + size < |image| then off + size else |image|;
    image[lo..hi]
  }

  /** `Segment(fileData + sh_offset, sh_addr, sh_addr, sh_size)`: the same
      base on both sides, so it translates nothing. */
  function SegmentOf(sec: Section, image: seq<byte>): (seg: Segment)
    ensures seg.paddr == seg.vaddr == sec.addr && seg.size == sec.size
    ensures forall a: u64 :: AdjustAddress(seg, a) == a
  {
    Segment(Clip(image, sec.offset, sec.size), sec.addr, sec.addr, sec.size)
  }

  /** Reference: the segments of the executable sections, in order. */
  function ExecSegments(secs: seq<Section>, image: seq<byte>): (segs: seq<Segment>)
    ensures |segs| <= |secs|
  {
    if |secs| == 0 then []
    else (if IsExecutableSection(secs[0].flags) then [SegmentOf(secs[0], image)] else [])
         + ExecSegments(secs[1..], image)
  }

  /** Reference: the build-id digits of the sections, in order. */
  function BuildIdsOf(secs: seq<Section>): string
  {
    if |secs| == 0 then "" else NoteContribution(secs[0]) + BuildIdsOf(secs[1..])
  }

  /** Reference: the debug-link names of the sections, in order. */
  function LinkNamesOf(secs: seq<Section>): string
  {
    if |secs| == 0 then "" else LinkName(secs[0]) + LinkNamesOf(secs[1..])
  }

  /** Reference: the data-file names of the sections, in order. */
  function GcdaNamesOf(secs: seq<Section>, scanGcda: bool): (names: seq<string>)
    ensures forall k :: 0 <= k < |names| ==> GcdaName(names[k])
    ensures !scanGcda ==> names == []
  {
    if |secs| == 0 then [] else GcdaContribution(secs[0], scanGcda) + GcdaNamesOf(secs[1..], scanGcda)
  }

  /** Reference: the CRC of the last section that carries a debug link, or
      `crc` when none does. */
  function LastLinkCrc(secs: seq<Section>, crc: bv32): (r: bv32)
    ensures (forall k :: 0 <= k < |secs| ==> SectionLink(secs[k]).None?) ==> r == crc
    decreases |secs|
  {
    if |secs| == 0 then crc
    else match SectionLink(secs[|secs| - 1])
      case Some(link) => link.crc
      case None => LastLinkCrc(secs[..|secs| - 1], crc)
  }

  // ---------------------------------------------------------------------
  // The scan

  /** What the scan accumulates: the parser fields it writes, the local list
      of data-file names, and the events sent so far. */
  datatype ScanState = ScanState(
    buildId: string,
    debuglink: string,
    debuglinkCrc: bv32,
    curSegments: seq<Segment>,
    execSegments: seq<Segment>,
    gcdaFiles: seq<string>,
    trace: seq<Event>)

  /** Fixed for one scan: the file image, whether gcov scanning is on,
      whether the declared segments were empty at the start, and how many
      file listeners there are. */
  datatype ScanContext = ScanContext(image: seq<byte>, scanGcda: bool, setupSegments: bool, fileListeners: nat)

  predicate GcdaNamesOk(st: ScanState)
  {
    forall k :: 0 <= k < |st.gcdaFiles| ==> GcdaName(st.gcdaFiles[k])
  }

  /** Each found name announced to every file listener, with the
      announcement built as the source builds it. */
  function GcdaEvents(names: seq<string>, n: nat): (r: seq<Event>)
    ensures forall k :: 0 <= k < |r| ==> r[k].FileEvent? && r[k].file == GcdaFileAsWritten(r[k].file.name)
  {
    if |names| == 0 then []
    else FileFanOut(n, GcdaFileAsWritten(names[0])) + GcdaEvents(names[1..], n)
  }

  /** One name is announced once to every file listener, in order. */
  lemma GcdaEventsOfOne(name: string, n: nat)
    ensures GcdaEvents([name], n) == FileFanOut(n, GcdaFileAsWritten(name))
  {
    assert GcdaEvents([name][1..], n) == [];
  }

  /** Names are announced in the order they were found. */
  lemma {:induction false} GcdaEventsAppend(a: seq<string>, b: seq<string>, n: nat)
    ensures GcdaEvents(a + b, n) == GcdaEvents(a, n) + GcdaEvents(b, n)
    decreases |a|
  {
    if |a| == 0 {
      assert a + b == b;
    } else {
      assert (a + b)[0] == a[0];
      assert (a + b)[1..] == a[1..] + b;
      GcdaEventsAppend(a[1..], b, n);
    }
  }

  /** The data-file names a section yields: those in a readable `.rodata`
      section, when gcov scanning is on. */
  function GcdaContribution(sec: Section, scanGcda: bool): (names: seq<string>)
    ensures forall k :: 0 <= k < |names| ==> GcdaName(names[k])
    ensures !scanGcda || sec.name != ".rodata" ==> names == []
  {
    if scanGcda && sec.data.Buffer? && sec.name == ".rodata" then ScannedGcdaNames(sec.data.bytes) else []
  }

  /** The build-id digits a section yields: those of its first note, when
      that is a GNU build-id note of a `SHT_NOTE` section. */
  function NoteContribution(sec: Section): (s: string)
    ensures |s| % 2 == 0
    ensures sec.shType != SHT_NOTE ==> s == ""
  {
    if sec.shType == SHT_NOTE && sec.data.Buffer? then
      match NoteBuildId(sec.data.bytes)
      case Some(id) => BuildIdHex(id)
      case None => ""
    else ""
  }

  /** The debug link a section carries; only `.gnu_debuglink` carries one. */
  function SectionLink(sec: Section): (l: Option<DebugLink>)
    ensures l.Some? ==> sec.name == ".gnu_debuglink"
  {
    if sec.name == ".gnu_debuglink" && sec.data.Buffer? then DebugLinkOf(sec.data.bytes) else None
  }

  function LinkName(sec: Section): string
  {
    match SectionLink(sec)
    case Some(link) => BytesToString(link.name)
    case None => ""
  }

  /** The `.rodata` scan for data-file names: recorded and announced. */
  function GcdaStep(st: ScanState, sec: Section, ctx: ScanContext): (r: ScanState)
    ensures r.(gcdaFiles := st.gcdaFiles, trace := st.trace) == st
    ensures r.gcdaFiles == st.gcdaFiles + GcdaContribution(sec, ctx.scanGcda)
    ensures r.trace == st.trace + GcdaEvents(GcdaContribution(sec, ctx.scanGcda), ctx.fileListeners)
    ensures GcdaNamesOk(st) ==> GcdaNamesOk(r)
    ensures !ctx.scanGcda ==> r == st
  {
    if ctx.scanGcda && sec.data.Buffer? && sec.name == ".rodata" then
      var names := ScannedGcdaNames(sec.data.bytes);
      st.(gcdaFiles := st.gcdaFiles + names, trace := st.trace + GcdaEvents(names, ctx.fileListeners))
    else st
  }

  /** A GNU build-id note extends the build-id string. */
  function NoteStep(st: ScanState, sec: Section): (r: ScanState)
    ensures r.(buildId := st.buildId) == st
    ensures r.buildId == st.buildId + NoteContribution(sec)
    ensures |r.buildId| % 2 == |st.buildId| % 2
  {
    if sec.shType == SHT_NOTE && sec.data.Buffer? then
      match NoteBuildId(sec.data.bytes)
      case Some(id) => st.(buildId := st.buildId + BuildIdHex(id))
      case None => st
    else st
  }

  /** A `.gnu_debuglink` section extends the link name and sets its CRC. */
  function DebugLinkStep(st: ScanState, sec: Section): (r: ScanState)
    ensures r.(debuglink := st.debuglink, debuglinkCrc := st.debuglinkCrc) == st
    ensures r.debuglink == st.debuglink + LinkName(sec)
    ensures r.debuglinkCrc == if SectionLink(sec).Some? then SectionLink(sec).value.crc else st.debuglinkCrc
  {
    if sec.name == ".gnu_debuglink" && sec.data.Buffer? then
      match DebugLinkOf(sec.data.bytes)
      case Some(link) => st.(debuglink := st.debuglink + BytesToString(link.name), debuglinkCrc := link.crc)
      case None => st
    else st
  }

  /** An executable section becomes a segment. */
  function SegmentStep(st: ScanState, sec: Section, ctx: ScanContext): (r: ScanState)
    ensures r.(curSegments := st.curSegments, execSegments := st.execSegments) == st
    ensures r.execSegments == st.execSegments + (if IsExecutableSection(sec.flags) then [SegmentOf(sec, ctx.image)] else [])
    ensures r.curSegments == st.curSegments + (if IsExecutableSection(sec.flags) && ctx.setupSegments then [SegmentOf(sec, ctx.image)] else [])
  {
    if !IsExecutableSection(sec.flags) then st
    else
      var seg := SegmentOf(sec, ctx.image);
      st.(curSegments := if ctx.setupSegments then st.curSegments + [seg] else st.curSegments,
          execSegments := st.execSegments + [seg])
  }

  /** One pass of the loop body, for a section whose data could be read:
      the four checks in the source's order. */
  function ScanSection(st: ScanState, sec: Section, ctx: ScanContext): (r: ScanState)
    requires !sec.data.GetDataFailed?
    ensures GcdaNamesOk(st) ==> GcdaNamesOk(r)
    ensures r.execSegments == st.execSegments + (if IsExecutableSection(sec.flags) then [SegmentOf(sec, ctx.image)] else [])
    ensures r.curSegments == st.curSegments + (if IsExecutableSection(sec.flags) && ctx.setupSegments then [SegmentOf(sec, ctx.image)] else [])
    ensures !ctx.scanGcda ==> r.gcdaFiles == st.gcdaFiles && r.trace == st.trace
    ensures |r.buildId| % 2 == |st.buildId| % 2
    ensures r.buildId == st.buildId + NoteContribution(sec)
    ensures r.debuglink == st.debuglink + LinkName(sec)
    ensures r.debuglinkCrc == if SectionLink(sec).Some? then SectionLink(sec).value.crc else st.debuglinkCrc
    ensures r.gcdaFiles == st.gcdaFiles + GcdaContribution(sec, ctx.scanGcda)
    ensures r.trace == st.trace + GcdaEvents(GcdaContribution(sec, ctx.scanGcda), ctx.fileListeners)
  {
    SegmentStep(DebugLinkStep(NoteStep(GcdaStep(st, sec, ctx), sec), sec), sec, ctx)
  }

  /** Index of the first section whose data cannot be read, or the number
      of sections. */
  function FirstUnreadable(secs: seq<Section>): (n: nat)
    ensures n <= |secs|
    ensures n < |secs| ==> secs[n].data.GetDataFailed?
    ensures forall k :: 0 <= k < n ==> !secs[k].data.GetDataFailed?
  {
    if |secs| == 0 then 0
    else if secs[0].data.GetDataFailed? then 0
    else 1 + FirstUnreadable(secs[1..])
  }

  /** The section loop: it stops with failure at the first section whose
      data cannot be read, keeping what it collected before. */
  function ScanSections(st: ScanState, secs: seq<Section>, ctx: ScanContext): (r: (ScanState, bool))
    ensures r.1 <==> FirstUnreadable(secs) == |secs|
    ensures GcdaNamesOk(st) ==> GcdaNamesOk(r.0)
    ensures |r.0.buildId| % 2 == |st.buildId| % 2
    decreases |secs|
  {
    if |secs| == 0 then (st, true)
    else if secs[0].data.GetDataFailed? then (st, false)
    else ScanSections(ScanSection(st, secs[0], ctx), secs[1..], ctx)
  }

  /** The executable segments of a non-empty prefix: the first section's,
      then those of the rest of the prefix. */
  lemma ExecSegmentsOfPrefix(secs: seq<Section>, n: nat, image: seq<byte>)
    requires 0 < n <= |secs|
    ensures ExecSegments(secs[..n], image)
            == (if IsExecutableSection(secs[0].flags) then [SegmentOf(secs[0], image)] else [])
               + ExecSegments(secs[1..][..n - 1], image)
  {
    assert secs[..n][1..] == secs[1..][..n - 1];
    assert secs[..n][0] == secs[0];
  }

  /** One step of the section loop over a readable first section. */
  lemma ScanSectionsStep(st: ScanState, secs: seq<Section>, ctx: ScanContext)
    requires |secs| > 0 && !secs[0].data.GetDataFailed?
    ensures ScanSections(st, secs, ctx) == ScanSections(ScanSection(st, secs[0], ctx), secs[1..], ctx)
    ensures FirstUnreadable(secs) == 1 + FirstUnreadable(secs[1..])
  {
  }

  /** Splicing a list that grew by `x` into a list that grows further by
      the rest of the contribution. */
  lemma AppendChain<T>(a: seq<T>, x: seq<T>, a1: seq<T>, tail: seq<T>, whole: seq<T>, result: seq<T>)
    requires a1 == a + x && whole == x + tail && result == a1 + tail
    ensures result == a + whole
  {
  }

  /** The scan adds exactly the segments of the executable sections before
      the first unreadable one to the executable list. */
  lemma {:induction false} ScanCollectsExecSegments(st: ScanState, secs: seq<Section>, ctx: ScanContext)
    ensures ScanSections(st, secs, ctx).0.execSegments
            == st.execSegments + ExecSegments(secs[..FirstUnreadable(secs)], ctx.image)
    decreases |secs|
  {
    if |secs| == 0 {
    } else if secs[0].data.GetDataFailed? {
    } else {
      var st1 := ScanSection(st, secs[0], ctx);
      var n := FirstUnreadable(secs);
      var x := if IsExecutableSection(secs[0].flags) then [SegmentOf(secs[0], ctx.image)] else [];
      ScanSectionsStep(st, secs, ctx);
      ScanCollectsExecSegments(st1, secs[1..], ctx);
      ExecSegmentsOfPrefix(secs, n, ctx.image);
      AppendChain(st.execSegments, x, st1.execSegments, ExecSegments(secs[1..][..n - 1], ctx.image),
                  ExecSegments(secs[..n], ctx.image), ScanSections(st, secs, ctx).0.execSegments);
    }
  }

  /** When the scan sets up the declared list, the same segments go to it. */
  lemma {:induction false} ScanSetsUpDeclaredSegments(st: ScanState, secs: seq<Section>, ctx: ScanContext)
    requires ctx.setupSegments
    ensures ScanSections(st, secs, ctx).0.curSegments
            == st.curSegments + ExecSegments(secs[..FirstUnreadable(secs)], ctx.image)
    decreases |secs|
  {
    if |secs| == 0 {
    } else if secs[0].data.GetDataFailed? {
    } else {
      var st1 := ScanSection(st, secs[0], ctx);
      var n := FirstUnreadable(secs);
      var x := if IsExecutableSection(secs[0].flags) then [SegmentOf(secs[0], ctx.image)] else [];
      ScanSectionsStep(st, secs, ctx);
      ScanSetsUpDeclaredSegments(st1, secs[1..], ctx);
      ExecSegmentsOfPrefix(secs, n, ctx.image);
      AppendChain(st.curSegments, x, st1.curSegments, ExecSegments(secs[1..][..n - 1], ctx.image),
                  ExecSegments(secs[..n], ctx.image), ScanSections(st, secs, ctx).0.curSegments);
    }
  }

  /** Otherwise the declared list is left as it was. */
  lemma {:induction false} ScanKeepsDeclaredSegments(st: ScanState, secs: seq<Section>, ctx: ScanContext)
    requires !ctx.setupSegments
    ensures ScanSections(st, secs, ctx).0.curSegments == st.curSegments
    decreases |secs|
  {
    if |secs| > 0 && !secs[0].data.GetDataFailed? {
      ScanKeepsDeclaredSegments(ScanSection(st, secs[0], ctx), secs[1..], ctx);
    }
  }

  /** With gcov scanning off the scan records no data files and sends no
      events. */
  lemma {:induction false} ScanWithoutGcovIsSilent(st: ScanState, secs: seq<Section>, ctx: ScanContext)
    requires !ctx.scanGcda
    ensures ScanSections(st, secs, ctx).0.trace == st.trace
    ensures ScanSections(st, secs, ctx).0.gcdaFiles == st.gcdaFiles
    decreases |secs|
  {
    if |secs| > 0 && !secs[0].data.GetDataFailed? {
      ScanWithoutGcovIsSilent(ScanSection(st, secs[0], ctx), secs[1..], ctx);
    }
  }

  /** The reference lists of a non-empty prefix: the first section's
      contribution, then those of the rest of the prefix. */
  lemma ContributionsOfPrefix(secs: seq<Section>, n: nat, scanGcda: bool)
    requires 0 < n <= |secs|
    ensures BuildIdsOf(secs[..n]) == NoteContribution(secs[0]) + BuildIdsOf(secs[1..][..n - 1])
    ensures LinkNamesOf(secs[..n]) == LinkName(secs[0]) + LinkNamesOf(secs[1..][..n - 1])
    ensures GcdaNamesOf(secs[..n], scanGcda)
            == GcdaContribution(secs[0], scanGcda) + GcdaNamesOf(secs[1..][..n - 1], scanGcda)
  {
    assert secs[..n][1..] == secs[1..][..n - 1];
    assert secs[..n][0] == secs[0];
  }

  /** The build-id string grows by the notes of the sections before the
      first unreadable one, in order. */
  lemma {:induction false} ScanCollectsBuildId(st: ScanState, secs: seq<Section>, ctx: ScanContext)
    ensures ScanSections(st, secs, ctx).0.buildId == st.buildId + BuildIdsOf(secs[..FirstUnreadable(secs)])
    decreases |secs|
  {
    if |secs| == 0 {
    } else if secs[0].data.GetDataFailed? {
    } else {
      var st1 := ScanSection(st, secs[0], ctx);
      var n := FirstUnreadable(secs);
      ScanSectionsStep(st, secs, ctx);
      ScanCollectsBuildId(st1, secs[1..], ctx);
      ContributionsOfPrefix(secs, n, ctx.scanGcda);
      AppendChain(st.buildId, NoteContribution(secs[0]), st1.buildId, BuildIdsOf(secs[1..][..n - 1]),
                  BuildIdsOf(secs[..n]), ScanSections(st, secs, ctx).0.buildId);
    }
  }

  /** The debug-link name grows by the links of the sections before the
      first unreadable one, in order. */
  lemma {:induction false} ScanCollectsDebugLink(st: ScanState, secs: seq<Section>, ctx: ScanContext)
    ensures ScanSections(st, secs, ctx).0.debuglink == st.debuglink + LinkNamesOf(secs[..FirstUnreadable(secs)])
    decreases |secs|
  {
    if |secs| == 0 {
    } else if secs[0].data.GetDataFailed? {
    } else {
      var st1 := ScanSection(st, secs[0], ctx);
      var n := FirstUnreadable(secs);
      ScanSectionsStep(st, secs, ctx);
      ScanCollectsDebugLink(st1, secs[1..], ctx);
      ContributionsOfPrefix(secs, n, ctx.scanGcda);
      AppendChain(st.debuglink, LinkName(secs[0]), st1.debuglink, LinkNamesOf(secs[1..][..n - 1]),
                  LinkNamesOf(secs[..n]), ScanSections(st, secs, ctx).0.debuglink);
    }
  }

  /** The data-file list grows by the names found in the sections before
      the first unreadable one, in order. */
  lemma {:induction false} ScanCollectsGcdaNames(st: ScanState, secs: seq<Section>, ctx: ScanContext)
    ensures ScanSections(st, secs, ctx).0.gcdaFiles
            == st.gcdaFiles + GcdaNamesOf(secs[..FirstUnreadable(secs)], ctx.scanGcda)
    decreases |secs|
  {
    if |secs| == 0 {
    } else if secs[0].data.GetDataFailed? {
    } else {
      var st1 := ScanSection(st, secs[0], ctx);
      var n := FirstUnreadable(secs);
      ScanSectionsStep(st, secs, ctx);
      ScanCollectsGcdaNames(st1, secs[1..], ctx);
      ContributionsOfPrefix(secs, n, ctx.scanGcda);
      AppendChain(st.gcdaFiles, GcdaContribution(secs[0], ctx.scanGcda), st1.gcdaFiles,
                  GcdaNamesOf(secs[1..][..n - 1], ctx.scanGcda),
                  GcdaNamesOf(secs[..n], ctx.scanGcda), ScanSections(st, secs, ctx).0.gcdaFiles);
    }
  }

  /** The events the scan sends are exactly the announcements of the names
      it records, in the order it records them. */
  lemma {:induction false} ScanAnnouncesGcdaNames(st: ScanState, secs: seq<Section>, ctx: ScanContext)
    ensures ScanSections(st, secs, ctx).0.trace
            == st.trace + GcdaEvents(GcdaNamesOf(secs[..FirstUnreadable(secs)], ctx.scanGcda), ctx.fileListeners)
    decreases |secs|
  {
    if |secs| == 0 {
    } else if secs[0].data.GetDataFailed? {
    } else {
      var st1 := ScanSection(st, secs[0], ctx);
      var n := FirstUnreadable(secs);
      var x := GcdaContribution(secs[0], ctx.scanGcda);
      var rest := GcdaNamesOf(secs[1..][..n - 1], ctx.scanGcda);
      ScanSectionsStep(st, secs, ctx);
      ScanAnnouncesGcdaNames(st1, secs[1..], ctx);
      ContributionsOfPrefix(secs, n, ctx.scanGcda);
      GcdaEventsAppend(x, rest, ctx.fileListeners);
      AppendChain(st.trace, GcdaEvents(x, ctx.fileListeners), st1.trace, GcdaEvents(rest, ctx.fileListeners),
                  GcdaEvents(GcdaNamesOf(secs[..n], ctx.scanGcda), ctx.fileListeners),
                  ScanSections(st, secs, ctx).0.trace);
    }
  }

  /** The CRC one section leaves behind. */
  function CrcAfter(sec: Section, crc: bv32): bv32
  {
    match SectionLink(sec)
    case Some(link) => link.crc
    case None => crc
  }

  /** Looking for the last link from the back agrees with overwriting the
      CRC from the front. */
  lemma {:induction false} LastLinkCrcCons(sec: Section, rest: seq<Section>, crc: bv32)
    ensures LastLinkCrc([sec] + rest, crc) == LastLinkCrc(rest, CrcAfter(sec, crc))
    decreases |rest|
  {
    var all := [sec] + rest;
    if |rest| == 0 {
      assert all[..0] == [];
    } else {
      assert all[|all| - 1] == rest[|rest| - 1];
      assert all[..|all| - 1] == [sec] + rest[..|rest| - 1];
      LastLinkCrcCons(sec, rest[..|rest| - 1], crc);
    }
  }

  /** The stored CRC is the one of the last debug link among the sections
      before the first unreadable one; each link overwrites the last. */
  lemma {:induction false} ScanKeepsLastLinkCrc(st: ScanState, secs: seq<Section>, ctx: ScanContext)
    ensures ScanSections(st, secs, ctx).0.debuglinkCrc == LastLinkCrc(secs[..FirstUnreadable(secs)], st.debuglinkCrc)
    decreases |secs|
  {
    if |secs| == 0 {
      assert secs[..0] == [];
    } else if secs[0].data.GetDataFailed? {
      assert secs[..0] == [];
    } else {
      var st1 := ScanSection(st, secs[0], ctx);
      var n := FirstUnreadable(secs);
      ScanSectionsStep(st, secs, ctx);
      ScanKeepsLastLinkCrc(st1, secs[1..], ctx);
      assert st1.debuglinkCrc == CrcAfter(secs[0], st.debuglinkCrc);
      PrefixCons(secs, n);
      LastLinkCrcCons(secs[0], secs[1..][..n - 1], st.debuglinkCrc);
    }
  }

  lemma PrefixCons<T>(s: seq<T>, n: nat)
    requires 0 < n <= |s|
    ensures s[..n] == [s[0]] + s[1..][..n - 1]
  {
  }

  /** The last link's CRC is the one kept, whatever came before it. */
  lemma {:induction false} LastLinkCrcIsLast(secs: seq<Section>, k: nat, crc: bv32)
    requires k < |secs| && SectionLink(secs[k]).Some?
    requires forall m :: k < m < |secs| ==> SectionLink(secs[m]).None?
    ensures LastLinkCrc(secs, crc) == SectionLink(secs[k]).value.crc
    decreases |secs|
  {
    if k < |secs| - 1 {
      assert secs[..|secs| - 1][k] == secs[k];
      LastLinkCrcIsLast(secs[..|secs| - 1], k, crc);
    }
  }
}
