/** What the parser reports to its listeners.  Listeners are numbered in
    registration order; a report goes to every listener of its kind, in that
    order, so a trace of events records both what was reported and to whom.
 */
module Events {
  import opened Words

  /** `IFileParser::FileFlags`, with the numeric values of the enum. */
  datatype FileFlags = FlgNone | FlgTypeSolib | FlgTypeCoverageData

  function FlagValue(f: FileFlags): (v: nat)
    ensures v < 3
  {
    match f
    case FlgNone => 0
    case FlgTypeSolib => 1
    case FlgTypeCoverageData => 2
  }

  /** `IFileParser::File`: a file name, the checksum of its contents (0 when
      not known) and what kind of file it is. */
  datatype File = File(name: string, checksum: u64, flags: FileFlags)

  datatype Event =
    | LineEvent(listener: nat, source: string, line: nat, addr: u64)
    | FileEvent(listener: nat, file: File)

  /** One `onLine` call on each of `n` line listeners, in order. */
  function LineFanOut(n: nat, file: string, line: nat, addr: u64): (r: seq<Event>)
    ensures |r| == n
    ensures forall i :: 0 <= i < n ==> r[i] == LineEvent(i, file, line, addr)
  {
    seq(n, i requires 0 <= i < n => LineEvent(i, file, line, addr))
  }

  /** One `onFile` call on each of `n` file listeners, in order. */
  function FileFanOut(n: nat, f: File): (r: seq<Event>)
    ensures |r| == n
    ensures forall i :: 0 <= i < n ==> r[i] == FileEvent(i, f)
  {
    seq(n, i requires 0 <= i < n => FileEvent(i, f))
  }
}
