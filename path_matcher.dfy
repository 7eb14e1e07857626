/** `PathPattern`, `PathMultiPattern` and `PathPattern.create_from` (example/path_matcher.py):
    matchers built from globs, that test a `/`-rooted path. */
module PathMatcher {
  import opened Wrappers
  import opened Regex
  import opened Glob
  import opened GlobCompiler

  /** A `PathPattern`: the glob it was made from and the regular expression compiled from it
      when it was made. */
  datatype PathPattern = PathPattern(fnPattern: string, compiled: Regex)

  /** The patterns that `NewPathPattern` makes: the compiled form belongs to the glob. */
  predicate PatternValid(pp: PathPattern)
  {
    pp.compiled == Compiled(pp.fnPattern)
  }

  /** `PathPattern(fn_pattern)`. */
  function NewPathPattern(fnPattern: string): (pp: PathPattern)
    ensures PatternValid(pp) && pp.fnPattern == fnPattern
  {
    PathPattern(fnPattern, Compiled(fnPattern))
  }

  /** `PathPattern.matches`: on a newline-free path, true exactly when the glob means the
      path. The source asserts that the path starts with `/`. */
  function PatternMatches(pp: PathPattern, path: string): (b: bool)
    requires IsAbsolute(path)
    ensures PatternValid(pp) && '\n' !in path ==> (b <==> GlobMatches(pp.fnPattern, path))
  {
    var b := Search(pp.compiled, path);
    assert PatternValid(pp) && '\n' !in path ==> (b <==> GlobMatches(pp.fnPattern, path)) by {
      if PatternValid(pp) && '\n' !in path {
        CompiledMeansGlob(pp.fnPattern, path);
      }
    }
    b
  }

  /** What `create_from` returns: a single `PathPattern` or a `PathMultiPattern`. */
  datatype Matcher =
    | Single(pattern: PathPattern)
    | Multi(patterns: seq<PathPattern>)

  predicate MatcherValid(m: Matcher)
  {
    match m
    case Single(pp) => PatternValid(pp)
    case Multi(ps) => forall i :: 0 <= i < |ps| ==> PatternValid(ps[i])
  }

  /** The globs a matcher was made from. */
  function Globs(m: Matcher): seq<string>
  {
    match m
    case Single(pp) => [pp.fnPattern]
    case Multi(ps) => seq(|ps|, i requires 0 <= i < |ps| => ps[i].fnPattern)
  }

  /** What `matches` demands of the path: a multi-pattern hands the path to its first
      member, which asserts that it starts with `/`; one with no members never looks at it. */
  predicate AcceptsPath(m: Matcher, path: string)
  {
    (m.Single? || m.patterns != []) ==> IsAbsolute(path)
  }

  /** `matches` of either kind of matcher: a multi-pattern matches when one of its members
      does. */
  function MatcherMatches(m: Matcher, path: string): (b: bool)
    requires AcceptsPath(m, path)
    ensures MatcherValid(m) && '\n' !in path ==>
      (b <==> exists i :: 0 <= i < |Globs(m)| && GlobMatches(Globs(m)[i], path))
  {
    match m
    case Single(pp) =>
      assert Globs(m)[0] == pp.fnPattern;
      PatternMatches(pp, path)
    case Multi(ps) =>
      assert forall i :: 0 <= i < |ps| ==> Globs(m)[i] == ps[i].fnPattern;
      exists i :: 0 <= i < |ps| && PatternMatches(ps[i], path)
  }

  /** `PathMultiPattern(*globs)`: one `PathPattern` per glob, in order. */
  function NewMultiPattern(globs: seq<string>): (m: Matcher)
    ensures m.Multi? && MatcherValid(m) && Globs(m) == globs
  {
    Multi(seq(|globs|, i requires 0 <= i < |globs| => NewPathPattern(globs[i])))
  }

  /** `PathMultiPattern.matches`: try the members in order and stop at the first that
      matches (the `for`/`else` returns false when none does). */
  method MultiMatches(patterns: seq<PathPattern>, path: string) returns (b: bool)
    requires patterns != [] ==> IsAbsolute(path)
    ensures b <==> exists i :: 0 <= i < |patterns| && PatternMatches(patterns[i], path)
    ensures patterns == [] ==> !b
  {
    for n := 0 to |patterns|
      invariant forall j :: 0 <= j < n ==> !PatternMatches(patterns[j], path)
    {
      if PatternMatches(patterns[n], path) {
        return true;
      }
    }
    return false;
  }

  /** The Python values that `create_from` may be given. */
  datatype Value =
    | MatcherValue(matcher: Matcher)
    | StrValue(s: string)
    | ListValue(items: seq<Value>)
    | OtherValue(typeName: string)

  /** Why `create_from` raised. */
  datatype PatternError =
    | PatternTypeError(typeName: string)  // ValueError: "Don't know how to make a PathPattern from a <type>"
    | NonStringGlob                       // a list member that is not a string has no `split` in fn_to_re

  predicate AllStrings(items: seq<Value>)
  {
    forall i :: 0 <= i < |items| ==> items[i].StrValue?
  }

  /** `PathPattern.create_from(thing)`: a matcher is returned unchanged, a string becomes a
      `PathPattern`, a list of strings a `PathMultiPattern`, and anything else is an error. */
  function CreateFrom(thing: Value): (r: Result<Matcher, PatternError>)
    ensures thing.MatcherValue? ==> r == Ok(thing.matcher)
    ensures thing.StrValue? ==> r.Ok? && r.value.Single? && MatcherValid(r.value) && Globs(r.value) == [thing.s]
    ensures thing.ListValue? ==> (r.Ok? <==> AllStrings(thing.items))
    ensures thing.ListValue? && r.Ok? ==>
      r.value.Multi? && MatcherValid(r.value) &&
      |Globs(r.value)| == |thing.items| &&
      forall i :: 0 <= i < |thing.items| ==> Globs(r.value)[i] == thing.items[i].s
    ensures thing.ListValue? && !r.Ok? ==> r == Err(NonStringGlob)
    ensures thing.OtherValue? ==> r == Err(PatternTypeError(thing.typeName))
  {
    match thing
    case MatcherValue(m) => Ok(m)
    case StrValue(s) => Ok(Single(NewPathPattern(s)))
    case ListValue(items) =>
      if AllStrings(items) then Ok(NewMultiPattern(seq(|items|, i requires 0 <= i < |items| => items[i].s)))
      else Err(NonStringGlob)
    case OtherValue(t) => Err(PatternTypeError(t))
  }

  /** A matcher made from strings matches a newline-free path exactly when one of those
      strings, read as a glob, means the path; an empty list matches nothing. */
  lemma CreatedMatcherMeansGlobs(thing: Value, path: string)
    requires thing.StrValue? || thing.ListValue?
    requires CreateFrom(thing).Ok?
    requires IsAbsolute(path) && '\n' !in path
    ensures thing.StrValue? ==> (MatcherMatches(CreateFrom(thing).value, path) <==> GlobMatches(thing.s, path))
    ensures thing.ListValue? ==>
      (MatcherMatches(CreateFrom(thing).value, path) <==>
         exists i :: 0 <= i < |thing.items| && GlobMatches(thing.items[i].s, path))
  {
    var m := CreateFrom(thing).value;
    if thing.ListValue? {
      assert forall i :: 0 <= i < |thing.items| ==> Globs(m)[i] == thing.items[i].s;
    }
  }
}
