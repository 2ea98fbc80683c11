/** The source-file filter: substring include/exclude patterns, directory
    include/exclude paths, their conjunction, and the rewriting of a
    build-time root prefix into the prefix the sources now live under.

    Canonicalisation (`get_real_path`, a `realpath(3)` wrapper) is a
    filesystem query, so every operation here takes it as a parameter.
 */
module Filters {
  import opened Words
  import opened Strings

  /** `--include-pattern=` / `--exclude-pattern=` lists. */
  datatype PatternHandler = PatternHandler(includes: seq<string>, excludes: seq<string>)

  /** `--include-path=` / `--exclude-path=` lists, canonicalised when the
      handler is built. */
  datatype PathHandler = PathHandler(includes: seq<string>, excludes: seq<string>)

  /** The filter object the ELF parser consults: the permissive dummy or the
      configured one. */
  datatype Filter =
    | DummyFilter
    | Filter(patterns: PatternHandler, paths: PathHandler, origRoot: string, newRoot: string)

  // ---------------------------------------------------------------------
  // Reference definitions

  predicate SomeContained(file: string, pats: seq<string>)
  {
    exists k :: 0 <= k < |pats| && ContainsSub(file, pats[k])
  }

  /** A file passes the pattern rules when it has no include pattern or
      contains one of them, and contains none of the exclude patterns. */
  predicate PatternAccepts(h: PatternHandler, file: string)
  {
    && (|h.includes| == 0 || SomeContained(file, h.includes))
    && !SomeContained(file, h.excludes)
  }

  /** `s` is the directory `p` itself or lies beneath it. */
  predicate UnderPath(p: string, s: string)
  {
    s == p || IsPrefix(p + "/", s)
  }

  predicate SomeUnder(s: string, paths: seq<string>)
  {
    exists k :: 0 <= k < |paths| && UnderPath(paths[k], s)
  }

  /** A canonical path passes the path rules when it has no include path
      or lies under one, and lies under none of the exclude paths. */
  predicate PathAccepts(h: PathHandler, s: string)
  {
    && (|h.includes| == 0 || SomeUnder(s, h.includes))
    && !SomeUnder(s, h.excludes)
  }

  // ---------------------------------------------------------------------
  // Pattern handler

  /** `PatternHandler::isSetup` */
  predicate PatternIsSetup(h: PatternHandler)
  {
    !(|h.includes| == 0 && |h.excludes| == 0)
  }

  /** `PatternHandler::includeFile`: the two loops of the source, each
      pattern searched for as a substring of the file name. */
  method PatternIncludeFile(h: PatternHandler, file: string) returns (out: bool)
    ensures out <==> PatternAccepts(h, file)
  {
    if |h.includes| == 0 && |h.excludes| == 0 {
      return true;
    }
    out := true;
    if |h.includes| != 0 {
      out := false;
    }
    var k := 0;
    while k < |h.includes|
      invariant 0 <= k <= |h.includes|
      invariant out <==> (|h.includes| == 0 || exists j :: 0 <= j < k && ContainsSub(file, h.includes[j]))
    {
      if Find(file, h.includes[k]).Some? {
        out := true;
      }
      k := k + 1;
    }
    k := 0;
    while k < |h.excludes|
      invariant 0 <= k <= |h.excludes|
      invariant out <==> (&& (|h.includes| == 0 || SomeContained(file, h.includes))
                          && !exists j :: 0 <= j < k && ContainsSub(file, h.excludes[j]))
    {
      if Find(file, h.excludes[k]).Some? {
        out := false;
      }
      k := k + 1;
    }
  }

  /** A handler with neither includes nor excludes accepts every file. */
  lemma EmptyPatternHandlerAcceptsAll(file: string)
    ensures PatternAccepts(PatternHandler([], []), file)
  {
  }

  /** An exclude pattern found in the file rejects it, whatever the
      includes say. */
  lemma PatternExclusionWins(h: PatternHandler, file: string, k: nat)
    requires k < |h.excludes| && ContainsSub(file, h.excludes[k])
    ensures !PatternAccepts(h, file)
  {
  }

  /** The empty pattern is a substring of everything: as an include it
      admits every file, as an exclude it rejects every file. */
  lemma EmptyPatternMatchesAll(file: string)
    ensures PatternAccepts(PatternHandler([""], []), file)
    ensures !PatternAccepts(PatternHandler([], [""]), file)
  {
    FindEmpty(file);
    assert ContainsSub(file, [""][0]);
  }

  // ---------------------------------------------------------------------
  // Path handler

  /** The handler as built from the configured lists: every entry goes
      through the canonicalisation first. */
  function MakePathHandler(realPath: string -> string, includes: seq<string>, excludes: seq<string>): (h: PathHandler)
    ensures |h.includes| == |includes| && |h.excludes| == |excludes|
    ensures forall k :: 0 <= k < |includes| ==> h.includes[k] == realPath(includes[k])
    ensures forall k :: 0 <= k < |excludes| ==> h.excludes[k] == realPath(excludes[k])
  {
    PathHandler(seq(|includes|, k requires 0 <= k < |includes| => realPath(includes[k])),
                seq(|excludes|, k requires 0 <= k < |excludes| => realPath(excludes[k])))
  }

  /** `PathHandler::isSetup` */
  predicate PathIsSetup(h: PathHandler)
  {
    !(|h.includes| == 0 && |h.excludes| == 0)
  }

  /** The test the source applies to one configured path: the path is found
      at index 0 and the canonical file name either ends there or goes on
      with a '/'. */
  predicate SourcePathTest(pattern: string, s: string)
  {
    Find(s, pattern) == Some(0) && (|s| <= |pattern| || s[|pattern|] == '/')
  }

  /** The source's test is exactly the directory-boundary rule. */
  lemma SourcePathTestIsUnderPath(pattern: string, s: string)
    ensures SourcePathTest(pattern, s) <==> UnderPath(pattern, s)
  {
    FindZeroIffPrefix(s, pattern);
    if UnderPath(pattern, s) && s != pattern {
      assert s[..|pattern|] == (pattern + "/")[..|pattern|];
      assert s[|pattern|] == (pattern + "/")[|pattern|];
    }
    if SourcePathTest(pattern, s) && s != pattern {
      assert |s| > |pattern|;
      assert s[..|pattern| + 1] == s[..|pattern|] + [s[|pattern|]];
    }
  }

  /** `PathHandler::includeFile`: the canonical file name is tested against
      every include path, then every exclude path. */
  method PathIncludeFile(h: PathHandler, realPath: string -> string, file: string) returns (out: bool)
    ensures out <==> PathAccepts(h, realPath(file))
  {
    if |h.includes| == 0 && |h.excludes| == 0 {
      return true;
    }
    out := true;
    if |h.includes| != 0 {
      out := false;
    }
    var pathStr := realPath(file);
    var k := 0;
    while k < |h.includes|
      invariant 0 <= k <= |h.includes|
      invariant out <==> (|h.includes| == 0 || exists j :: 0 <= j < k && UnderPath(h.includes[j], pathStr))
    {
      SourcePathTestIsUnderPath(h.includes[k], pathStr);
      if Find(pathStr, h.includes[k]) == Some(0) && (|pathStr| <= |h.includes[k]| || pathStr[|h.includes[k]|] == '/') {
        out := true;
      }
      k := k + 1;
    }
    k := 0;
    while k < |h.excludes|
      invariant 0 <= k <= |h.excludes|
      invariant out <==> (&& (|h.includes| == 0 || SomeUnder(pathStr, h.includes))
                          && !exists j :: 0 <= j < k && UnderPath(h.excludes[j], pathStr))
    {
      SourcePathTestIsUnderPath(h.excludes[k], pathStr);
      if Find(pathStr, h.excludes[k]) == Some(0) && (|pathStr| <= |h.excludes[k]| || pathStr[|h.excludes[k]|] == '/') {
        out := false;
      }
      k := k + 1;
    }
  }

  /** A path that merely shares a textual prefix with a directory is not
      inside it: "/a/bc" is not under "/a/b", while "/a/b/c" is. */
  lemma PathBoundaryExample()
    ensures !UnderPath("/a/b", "/a/bc")
    ensures UnderPath("/a/b", "/a/b/c")
    ensures UnderPath("/a/b", "/a/b")
  {
    assert "/a/bc"[4] == 'c';
    assert ("/a/b" + "/")[4] == '/';
    assert "/a/b/c"[..5] == "/a/b" + "/";
  }

  /** The boundary rule in terms of the characters: `s` is under `p` iff
      it starts with `p` and then ends or continues with '/'. */
  lemma UnderPathIffBoundary(p: string, s: string)
    ensures UnderPath(p, s) <==> IsPrefix(p, s) && (|s| == |p| || s[|p|] == '/')
  {
    if UnderPath(p, s) && s != p {
      assert s[..|p|] == (p + "/")[..|p|];
      assert s[|p|] == (p + "/")[|p|];
    }
    if IsPrefix(p, s) && |s| > |p| && s[|p|] == '/' {
      assert s[..|p| + 1] == s[..|p|] + [s[|p|]];
    }
  }

  /** An exclude path that contains the file overrides every includes path. */
  lemma PathExclusionWins(h: PathHandler, s: string, k: nat)
    requires k < |h.excludes| && UnderPath(h.excludes[k], s)
    ensures !PathAccepts(h, s)
  {
  }

  // ---------------------------------------------------------------------
  // The filter

  /** What `runFilters` decides: each configured handler must accept, and
      an unconfigured handler accepts everything. */
  predicate FilterAccepts(f: Filter, realPath: string -> string, file: string)
  {
    match f
    case DummyFilter => true
    case Filter(patterns, paths, _, _) =>
      && (!PathIsSetup(paths) || PathAccepts(paths, realPath(file)))
      && (!PatternIsSetup(patterns) || PatternAccepts(patterns, file))
  }

  /** `runFilters`: the path handler first; the pattern handler is
      consulted only when the path handler has not already rejected. */
  method RunFilters(f: Filter, realPath: string -> string, file: string) returns (out: bool)
    ensures out <==> FilterAccepts(f, realPath, file)
    ensures f.DummyFilter? ==> out
  {
    match f
    case DummyFilter =>
      return true;
    case Filter(patterns, paths, _, _) =>
      out := true;
      if PathIsSetup(paths) {
        out := PathIncludeFile(paths, realPath, file);
      }
      if out && PatternIsSetup(patterns) {
        out := PatternIncludeFile(patterns, file);
        return;
      }
  }

  /** An unconfigured handler imposes nothing, so the filter degenerates to
      the handler that is configured. */
  lemma FilterWithoutPaths(patterns: PatternHandler, realPath: string -> string, file: string, o: string, n: string)
    ensures FilterAccepts(Filter(patterns, PathHandler([], []), o, n), realPath, file)
            <==> PatternAccepts(patterns, file)
  {
  }

  // ---------------------------------------------------------------------
  // Root rewriting

  /** `root` occurs in `c` at `i` and nowhere before. */
  predicate FirstOccurrence(c: string, root: string, i: nat)
  {
    OccursAt(c, root, i) && forall j :: 0 <= j < i ==> !OccursAt(c, root, j)
  }

  /** `mangleSourcePath`: the canonical path, except that when both roots
      are configured and the original one occurs, its first occurrence is
      replaced by the new root and the result canonicalised again. */
  function MangleSourcePath(f: Filter, realPath: string -> string, path: string): (r: string)
    ensures f.DummyFilter? ==> r == path
    ensures f.Filter? && (f.origRoot == "" || f.newRoot == "") ==> r == realPath(path)
    ensures f.Filter? && (forall j :: 0 <= j ==> !OccursAt(realPath(path), f.origRoot, j)) ==> r == realPath(path)
    ensures f.Filter? && f.origRoot != "" && f.newRoot != "" ==>
              forall i: nat :: FirstOccurrence(realPath(path), f.origRoot, i) ==>
                r == realPath(realPath(path)[..i] + f.newRoot + realPath(path)[i + |f.origRoot|..])
  {
    match f
    case DummyFilter => path
    case Filter(_, _, origRoot, newRoot) =>
      var filename := realPath(path);
      if |origRoot| > 0 && |newRoot| > 0 then
        match Find(filename, origRoot)
        case Some(index) =>
          assert forall i: nat :: FirstOccurrence(filename, origRoot, i) ==> i == index;
          realPath(ReplaceRange(filename, index, |origRoot|, newRoot))
        case None => filename
      else
        filename
  }

  /** With a canonicalisation that leaves the rewritten path alone, a path
      under the original root moves to the same place under the new root. */
  lemma MangleMovesRoot(f: Filter, realPath: string -> string, path: string)
    requires f.Filter? && f.origRoot != "" && f.newRoot != ""
    requires IsPrefix(f.origRoot, realPath(path))
    requires realPath(f.newRoot + realPath(path)[|f.origRoot|..]) == f.newRoot + realPath(path)[|f.origRoot|..]
    ensures MangleSourcePath(f, realPath, path) == f.newRoot + realPath(path)[|f.origRoot|..]
  {
    var c := realPath(path);
    assert OccursAt(c, f.origRoot, 0);
    assert FirstOccurrence(c, f.origRoot, 0);
    assert c[..0] + f.newRoot + c[|f.origRoot|..] == f.newRoot + c[|f.origRoot|..];
  }
}
