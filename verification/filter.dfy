/**
 * `PathFilter`: include and exclude glob sets built from pattern lists, and
 * the decision whether a relative path is backed up. Glob syntax and
 * matching are the glob library's; they come in as a `Globs` oracle.
 */
module Filter {
  import opened Bytes
  import opened Wrappers
  import opened RustPath
  import Utf8

  const Backslash: Byte := 0x5C

  /**
   * The glob library: whether `Glob::new` accepts a pattern, whether
   * `GlobSetBuilder::build` succeeds on a list of accepted patterns, and
   * whether one pattern matches a path string.
   */
  datatype Globs = Globs(
    valid: string -> bool,
    builds: seq<string> -> bool,
    matches: (string, seq<Byte>) -> bool)

  /** A built `GlobSet`: the patterns it was built from, in order. */
  datatype GlobSet = GlobSet(patterns: seq<string>)

  datatype PathFilter = PathFilter(includes: Option<GlobSet>, excludes: Option<GlobSet>)

  /** Which list failed, and how: a pattern `Glob::new` rejects, or the set that does not build. */
  datatype FilterError =
    | InvalidInclude(pattern: string)
    | BuildInclude
    | InvalidExclude(pattern: string)
    | BuildExclude

  /** The first pattern `Glob::new` rejects, if any. */
  function FirstInvalid(globs: Globs, patterns: seq<string>): (r: Option<string>)
    ensures r.None? <==> forall i :: 0 <= i < |patterns| ==> globs.valid(patterns[i])
    ensures r.Some? ==>
      exists i :: 0 <= i < |patterns| && patterns[i] == r.value && !globs.valid(r.value) && forall j :: 0 <= j < i ==> globs.valid(patterns[j])
  {
    if |patterns| == 0 then None
    else if !globs.valid(patterns[0]) then Some(patterns[0])
    else
      var r := FirstInvalid(globs, patterns[1..]);
      assert forall i :: 1 <= i < |patterns| ==> patterns[i] == patterns[1..][i - 1];
      if r.Some? then
        var k :| 0 <= k < |patterns[1..]| && patterns[1..][k] == r.value && !globs.valid(r.value)
          && forall j :: 0 <= j < k ==> globs.valid(patterns[1..][j]);
        assert patterns[k + 1] == r.value;
        r
      else r
  }

  /**
   * One of the two `if ….is_empty()` blocks of `from_patterns`: no set for
   * an empty list, otherwise every pattern compiled in order, then the set
   * built. `forIncludes` says which list it is, for the error.
   */
  function BuildSet(globs: Globs, patterns: seq<string>, forIncludes: bool): (r: Result<Option<GlobSet>, FilterError>)
    ensures r.Ok? ==> (r.value.None? <==> |patterns| == 0)
    ensures r.Ok? && r.value.Some? ==> r.value.value.patterns == patterns
  {
    if |patterns| == 0 then Ok(None)
    else
      match FirstInvalid(globs, patterns)
      case Some(p) => Err(if forIncludes then InvalidInclude(p) else InvalidExclude(p))
      case None =>
        if !globs.builds(patterns) then Err(if forIncludes then BuildInclude else BuildExclude)
        else Ok(Some(GlobSet(patterns)))
  }

  /** `PathFilter::from_patterns(includes, excludes)`: the include set first, then the exclude set. */
  function FromPatterns(globs: Globs, includes: seq<string>, excludes: seq<string>): (r: Result<PathFilter, FilterError>)
    ensures r.Ok? <==> BuildSet(globs, includes, true).Ok? && BuildSet(globs, excludes, false).Ok?
    ensures BuildSet(globs, includes, true).Err? ==> r == Err(BuildSet(globs, includes, true).error)
  {
    var inc :- BuildSet(globs, includes, true);
    var exc :- BuildSet(globs, excludes, false);
    Ok(PathFilter(inc, exc))
  }

  /** `GlobSet::is_match` on a set built from `patterns`: some pattern matches. */
  function AnyMatch(globs: Globs, patterns: seq<string>, s: seq<Byte>): (r: bool)
    ensures r <==> exists i :: 0 <= i < |patterns| && globs.matches(patterns[i], s)
  {
    if |patterns| == 0 then false
    else if globs.matches(patterns[0], s) then true
    else
      var rest := AnyMatch(globs, patterns[1..], s);
      assert forall i :: 1 <= i < |patterns| ==> patterns[i] == patterns[1..][i - 1];
      assert rest ==> exists i :: 0 <= i < |patterns| && globs.matches(patterns[i], s) by {
        if rest {
          var k :| 0 <= k < |patterns[1..]| && globs.matches(patterns[1..][k], s);
          assert globs.matches(patterns[k + 1], s);
        }
      }
      rest
  }

  /** `str::replace('\\', "/")` on the bytes of the path string. */
  function SlashesForward(s: seq<Byte>): (r: seq<Byte>)
    ensures |r| == |s|
    ensures forall i :: 0 <= i < |s| ==> r[i] == if s[i] == Backslash then Slash else s[i]
  {
    if |s| == 0 then []
    else [if s[0] == Backslash then Slash else s[0]] + SlashesForward(s[1..])
  }

  /** The string the globs see: the path shown lossily, backslashes made slashes. */
  function MatchString(rel: RPath): (s: seq<Byte>)
    ensures Backslash !in s
  {
    SlashesForward(Utf8.Lossy(Render(rel)))
  }

  /** `PathFilter::allow(rel)`: an exclude match refuses; otherwise the include set decides, if there is one. */
  function Allow(globs: Globs, f: PathFilter, rel: RPath): (r: bool)
    ensures f.excludes.Some? && AnyMatch(globs, f.excludes.value.patterns, MatchString(rel)) ==> !r
    ensures f.includes.Some? && !AnyMatch(globs, f.includes.value.patterns, MatchString(rel)) ==> !r
    ensures f.includes.None? && f.excludes.None? ==> r
  {
    var s := MatchString(rel);
    if f.excludes.Some? && AnyMatch(globs, f.excludes.value.patterns, s) then false
    else if f.includes.Some? then AnyMatch(globs, f.includes.value.patterns, s)
    else true
  }

  /** Replacing backslashes a second time changes nothing. */
  lemma SlashesForwardIdempotent(s: seq<Byte>)
    ensures SlashesForward(SlashesForward(s)) == SlashesForward(s)
  {
  }

  /**
   * Empty lists give no sets, and an invalid pattern makes `from_patterns`
   * fail: the first invalid include pattern is reported before anything
   * about the excludes.
   */
  lemma FromPatternsErrors(globs: Globs, includes: seq<string>, excludes: seq<string>)
    ensures FromPatterns(globs, [], []) == Ok(PathFilter(None, None))
    ensures FirstInvalid(globs, includes).Some? ==> FromPatterns(globs, includes, excludes) == Err(InvalidInclude(FirstInvalid(globs, includes).value))
    ensures FromPatterns(globs, includes, excludes).Ok? ==>
      (forall i :: 0 <= i < |includes| ==> globs.valid(includes[i])) && (forall i :: 0 <= i < |excludes| ==> globs.valid(excludes[i]))
    ensures BuildSet(globs, includes, true).Ok? && FirstInvalid(globs, excludes).Some? ==>
      FromPatterns(globs, includes, excludes) == Err(InvalidExclude(FirstInvalid(globs, excludes).value))
  {
  }

  /**
   * The filter's meaning in terms of the pattern lists it was built from:
   * a path is allowed exactly when no exclude pattern matches it and, when
   * there are include patterns, one of them does.
   */
  lemma AllowPatterns(globs: Globs, includes: seq<string>, excludes: seq<string>, rel: RPath)
    requires FromPatterns(globs, includes, excludes).Ok?
    ensures var s := MatchString(rel);
      Allow(globs, FromPatterns(globs, includes, excludes).value, rel) <==>
        && (forall i :: 0 <= i < |excludes| ==> !globs.matches(excludes[i], s))
        && (|includes| == 0 || exists i :: 0 <= i < |includes| && globs.matches(includes[i], s))
  {
  }

  /** An exclude match refuses the path whatever the includes say. */
  lemma ExcludeWins(globs: Globs, includes: seq<string>, excludes: seq<string>, rel: RPath, i: nat)
    requires FromPatterns(globs, includes, excludes).Ok?
    requires i < |excludes| && globs.matches(excludes[i], MatchString(rel))
    ensures !Allow(globs, FromPatterns(globs, includes, excludes).value, rel)
  {
    AllowPatterns(globs, includes, excludes, rel);
  }
}
