/** Semantic versions as the selection logic uses them: a strict parser
    (`semver.Make`), the canonical text of a version, and the precedence
    order of section 11 of Semantic Versioning 2.0.0 (`Version.GTE`). */
module SemVer {
  import opened Wrappers
  import opened Strings
  import opened Decimal
  import Lexicographic

  /** A pre-release identifier is either a number or an alphanumeric word. */
  datatype PRVersion = Numeric(num: nat) | Alphanumeric(text: string)

  datatype Version = Version(major: nat, minor: nat, patch: nat, pre: seq<PRVersion>, build: seq<string>)

  /** Identifier characters: ASCII letters, digits and the hyphen. */
  predicate IsIdentChar(c: char)
  {
    'a' <= c <= 'z' || 'A' <= c <= 'Z' || '0' <= c <= '9' || c == '-'
  }

  predicate AllIdentChars(s: string)
  {
    forall k :: 0 <= k < |s| ==> IsIdentChar(s[k])
  }

  predicate ValidPR(p: PRVersion)
  {
    match p
    case Numeric(_) => true
    case Alphanumeric(t) => |t| > 0 && AllIdentChars(t) && !AllDigits(t)
  }

  predicate ValidBuild(b: string)
  {
    |b| > 0 && AllIdentChars(b)
  }

  /** Every identifier of v can be written down and read back. */
  predicate Valid(v: Version)
  {
    && (forall k :: 0 <= k < |v.pre| ==> ValidPR(v.pre[k]))
    && (forall k :: 0 <= k < |v.build| ==> ValidBuild(v.build[k]))
  }

  // ---------------------------------------------------------------- parsing

  /** A numeric component: digits only and no leading zero. */
  function ParseNumber(s: string): (r: Option<nat>)
    ensures r.Some? <==> Canonical(s)
    ensures r.Some? ==> FromNat(r.value) == s
  {
    if Canonical(s) then FromNatToNat(s); Some(ToNat(s)) else None
  }

  /** One pre-release identifier: a number without leading zero, or a
      non-empty word of identifier characters. */
  function ParsePR(s: string): (r: Option<PRVersion>)
    ensures r.Some? ==> ValidPR(r.value)
  {
    if |s| == 0 then None
    else if AllDigits(s) then
      match ParseNumber(s)
      case None => None
      case Some(n) => Some(Numeric(n))
    else if AllIdentChars(s) then Some(Alphanumeric(s))
    else None
  }

  function ParsePRs(parts: seq<string>): (r: Option<seq<PRVersion>>)
    ensures r.Some? ==> |r.value| == |parts|
    ensures r.Some? ==> forall k :: 0 <= k < |parts| ==> ParsePR(parts[k]) == Some(r.value[k])
    ensures r.None? ==> exists k :: 0 <= k < |parts| && ParsePR(parts[k]).None?
  {
    if |parts| == 0 then Some([])
    else match (ParsePR(parts[0]), ParsePRs(parts[1..]))
      case (Some(p), Some(ps)) => Some([p] + ps)
      case (None, _) => None
      case (_, None) => assert forall k :: 0 <= k < |parts| - 1 ==> parts[1..][k] == parts[k + 1]; None
  }

  function ParseBuild(parts: seq<string>): (r: Option<seq<string>>)
    ensures r.Some? <==> forall k :: 0 <= k < |parts| ==> ValidBuild(parts[k])
    ensures r.Some? ==> r.value == parts
  {
    if forall k :: 0 <= k < |parts| ==> ValidBuild(parts[k]) then Some(parts) else None
  }

  /** The pieces of an optional dot-separated list; an absent list has none. */
  function Pieces(text: Option<string>): seq<string>
  {
    match text
    case None => []
    case Some(t) => Split(t, '.')
  }

  /** A version from the texts of its five parts, if every part is well formed. */
  function Assemble(majorText: string, minorText: string, patchText: string,
                    preText: Option<string>, buildText: Option<string>): (r: Option<Version>)
    ensures r.Some? ==> Valid(r.value)
  {
    match (ParseNumber(majorText), ParseNumber(minorText), ParseNumber(patchText),
           ParsePRs(Pieces(preText)), ParseBuild(Pieces(buildText)))
    case (Some(major), Some(minor), Some(patch), Some(pre), Some(build)) =>
      Some(Version(major, minor, patch, pre, build))
    case _ => None
  }

  /** `semver.Make`: split off major and minor at the first two dots; in the
      rest, split off the build metadata at the first '+', then the
      pre-release at the first '-'; every part must be well formed. */
  function Parse(s: string): (r: Option<Version>)
    ensures r.Some? ==> Valid(r.value)
  {
    var (majorText, afterMajor) := Cut(s, '.');
    if afterMajor.None? then None
    else
      var (minorText, tail) := Cut(afterMajor.value, '.');
      if tail.None? then None
      else ParseTail(majorText, minorText, tail.value)
  }

  /** The part of `semver.Make` after the second dot. */
  function ParseTail(majorText: string, minorText: string, tail: string): (r: Option<Version>)
    ensures r.Some? ==> Valid(r.value)
  {
    var (beforeBuild, buildText) := Cut(tail, '+');
    var (patchText, preText) := Cut(beforeBuild, '-');
    Assemble(majorText, minorText, patchText, preText, buildText)
  }

  // ------------------------------------------------------------- formatting

  function PRString(p: PRVersion): string
  {
    match p
    case Numeric(n) => FromNat(n)
    case Alphanumeric(t) => t
  }

  function PRStrings(pre: seq<PRVersion>): (r: seq<string>)
    ensures |r| == |pre|
  {
    seq(|pre|, k requires 0 <= k < |pre| => PRString(pre[k]))
  }

  /** The canonical text major.minor.patch[-pre][+build]. */
  function Format(v: Version): string
  {
    FromNat(v.major) + "." + FromNat(v.minor) + "." + FromNat(v.patch)
    + (if |v.pre| == 0 then "" else "-" + Join(PRStrings(v.pre), '.'))
    + (if |v.build| == 0 then "" else "+" + Join(v.build, '.'))
  }

  // ------------------------------------------------------------- precedence

  function CompareNat(x: nat, y: nat): int
  {
    if x > y then 1 else if x < y then -1 else 0
  }

  /** Numeric identifiers compare numerically, words in ASCII order, and a
      number sorts below a word. */
  function ComparePR(a: PRVersion, b: PRVersion): int
  {
    match (a, b)
    case (Numeric(x), Numeric(y)) => CompareNat(x, y)
    case (Numeric(_), Alphanumeric(_)) => -1
    case (Alphanumeric(_), Numeric(_)) => 1
    case (Alphanumeric(s), Alphanumeric(t)) => Lexicographic.Compare(s, t, Lexicographic.CompareChar)
  }

  /** `Version.Compare`: major, minor, patch numerically; then a version
      without pre-release sorts above one with; then the pre-release lists
      lexicographically. Build metadata takes no part. */
  function Compare(v: Version, o: Version): int
  {
    if v.major != o.major then CompareNat(v.major, o.major)
    else if v.minor != o.minor then CompareNat(v.minor, o.minor)
    else if v.patch != o.patch then CompareNat(v.patch, o.patch)
    else if |v.pre| == 0 && |o.pre| == 0 then 0
    else if |v.pre| == 0 then 1
    else if |o.pre| == 0 then -1
    else Lexicographic.Compare(v.pre, o.pre, ComparePR)
  }

  /** `Version.GTE`. */
  predicate GTE(v: Version, o: Version)
  {
    Compare(v, o) >= 0
  }
}
