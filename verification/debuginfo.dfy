/** Where the parser looks for the debugging information of a binary that
    carries none itself: a file named after the binary's GNU build-id, and
    the file named by its `.gnu_debuglink` section, which is accepted only
    when its CRC-32 matches the one stored next to the name.
 */
module DebugInfo {
  import opened Words
  import opened Strings
  import opened Crc32

  // ---------------------------------------------------------------------
  // Build-id files

  const BUILD_ID_DIR: string := "/usr/lib/debug/.build-id/"
  const DEBUG_SUFFIX: string := ".debug"

  /** The separate debug file for a build-id: the first two hex digits name
      a directory, the rest name the file.  Build-id strings come in pairs
      of digits, so `id` has at least two characters whenever it is not
      empty. */
  function BuildIdPath(id: string): (p: string)
    requires |id| >= 2
    ensures |p| == |BUILD_ID_DIR| + |id| + 1 + |DEBUG_SUFFIX|
    ensures IsPrefix(BUILD_ID_DIR, p)
    ensures p[|p| - |DEBUG_SUFFIX|..] == DEBUG_SUFFIX
    ensures p[|BUILD_ID_DIR| + 2] == '/'
  {
    BUILD_ID_DIR + id[..2] + "/" + id[2..] + DEBUG_SUFFIX
  }

  /** Reads a build-id back out of a path of the shape `BuildIdPath`
      produces. */
  function BuildIdOfPath(p: string): (r: Option<string>)
  {
    var n := |BUILD_ID_DIR|;
    if |p| >= n + 3 + |DEBUG_SUFFIX| && p[..n] == BUILD_ID_DIR && p[n + 2] == '/'
       && p[|p| - |DEBUG_SUFFIX|..] == DEBUG_SUFFIX
    then Some(p[n..n + 2] + p[n + 3..|p| - |DEBUG_SUFFIX|])
    else None
  }

  /** The build-id can be recovered from its debug-file path. */
  lemma BuildIdPathRoundTrip(id: string)
    requires |id| >= 2
    ensures BuildIdOfPath(BuildIdPath(id)) == Some(id)
  {
    var p := BuildIdPath(id);
    var n := |BUILD_ID_DIR|;
    assert p[n..n + 2] == id[..2];
    assert p[n + 3..|p| - |DEBUG_SUFFIX|] == id[2..];
    assert id[..2] + id[2..] == id;
  }

  /** Distinct build-ids are looked up in distinct files. */
  lemma BuildIdPathInjective(a: string, b: string)
    requires |a| >= 2 && |b| >= 2 && BuildIdPath(a) == BuildIdPath(b)
    ensures a == b
  {
    BuildIdPathRoundTrip(a);
    BuildIdPathRoundTrip(b);
  }

  lemma BuildIdPathExample()
    ensures BuildIdPath("deadbeef") == "/usr/lib/debug/.build-id/de/adbeef.debug"
  {
  }

  // ---------------------------------------------------------------------
  // Debug-link files

  /** The filesystem as the lookup sees it: `file_exists`, `read_file`
      (which fails on an unreadable file), `dirname` and `get_real_path`. */
  datatype FileSystem = FileSystem(
    fileExists: string -> bool,
    readFile: string -> Option<seq<byte>>,
    dirname: string -> string,
    realPath: string -> string)

  /** A candidate is accepted when it exists, can be read, and the CRC-32 of
      its whole contents equals the CRC stored in the debug link. */
  predicate LinkAccepts(fs: FileSystem, path: string, crc: bv32)
  {
    && fs.fileExists(path)
    && fs.readFile(path).Some?
    && DebugLinkCrc32(0, fs.readFile(path).value) == crc
  }

  /** `tryDebugLink`: the path itself when accepted, the empty string
      otherwise; the CRC is computed by the table-driven loop. */
  method TryDebugLink(fs: FileSystem, path: string, crc: bv32) returns (r: string)
    ensures LinkAccepts(fs, path, crc) ==> r == path
    ensures !LinkAccepts(fs, path, crc) ==> r == ""
  {
    if !fs.fileExists(path) {
      return "";
    }
    match fs.readFile(path)
    case None =>
      return "";
    case Some(bytes) =>
      var c := ComputeDebugLinkCrc32(0, bytes);
      if c != crc {
        return "";
      }
      return path;
  }

  /** The three places a debug link is looked for, in order: next to the
      binary, in `.debug` next to the binary, and under `/usr/lib/debug`
      followed by the canonical directory of the binary. */
  function DebugLinkCandidates(fs: FileSystem, filename: string, link: string): (c: seq<string>)
    ensures |c| == 3
    ensures forall k :: 0 <= k < 3 ==> c[k] != ""
  {
    var dir := fs.dirname(filename);
    [dir + "/" + link, dir + "/.debug/" + link, "/usr/lib/debug/" + fs.realPath(dir) + "/" + link]
  }

  /** `lookupDebuglinkFile`: the first accepted candidate, or the empty
      string when none is accepted. */
  function LookupDebuglinkFile(fs: FileSystem, filename: string, link: string, crc: bv32): (r: string)
    ensures var c := DebugLinkCandidates(fs, filename, link);
            r == "" <==> forall k :: 0 <= k < 3 ==> !LinkAccepts(fs, c[k], crc)
    ensures var c := DebugLinkCandidates(fs, filename, link);
            r != "" ==> exists k :: && 0 <= k < 3 && r == c[k] && LinkAccepts(fs, c[k], crc)
                                    && forall j :: 0 <= j < k ==> !LinkAccepts(fs, c[j], crc)
  {
    var c := DebugLinkCandidates(fs, filename, link);
    if LinkAccepts(fs, c[0], crc) then c[0]
    else if LinkAccepts(fs, c[1], crc) then c[1]
    else if LinkAccepts(fs, c[2], crc) then c[2]
    else ""
  }

  /** A file next to the binary whose CRC matches wins over every other
      location, whatever those hold. */
  lemma SameDirectoryWins(fs: FileSystem, filename: string, link: string, crc: bv32)
    requires LinkAccepts(fs, fs.dirname(filename) + "/" + link, crc)
    ensures LookupDebuglinkFile(fs, filename, link, crc) == fs.dirname(filename) + "/" + link
  {
  }
}
