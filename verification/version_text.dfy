/** Version extraction from a release tag: the leftmost match of the
    pattern `\d+\.\d+\.\d+` marks where the version starts; the text before
    it is dropped, the text from it to the end is parsed as a semantic
    version (selfupdate/detect.go, `reVersion` and its use). */
module VersionText {
  import opened Wrappers
  import opened Decimal
  import SemVer

  predicate DigitsBetween(s: string, lo: nat, hi: nat)
    requires lo <= hi <= |s|
  {
    forall k :: lo <= k < hi ==> IsDigit(s[k])
  }

  /** The length of the longest run of digits that starts at i. */
  function DigitRun(s: string, i: nat): (n: nat)
    requires i <= |s|
    ensures i + n <= |s|
    ensures DigitsBetween(s, i, i + n)
    ensures i + n == |s| || !IsDigit(s[i + n])
    decreases |s| - i
  {
    if i < |s| && IsDigit(s[i]) then 1 + DigitRun(s, i + 1) else 0
  }

  /** The pattern, as a regular expression reads it: digit runs of lengths
      a, b and c separated by two dots, starting at i. */
  ghost predicate TripleAt(s: string, i: nat, a: nat, b: nat, c: nat)
  {
    && 0 < a && 0 < b && 0 < c
    && i + a + b + c + 2 <= |s|
    && DigitsBetween(s, i, i + a)
    && s[i + a] == '.'
    && DigitsBetween(s, i + a + 1, i + a + 1 + b)
    && s[i + a + 1 + b] == '.'
    && DigitsBetween(s, i + a + b + 2, i + a + b + 2 + c)
  }

  /** Some match of the pattern starts at i. */
  ghost predicate PatternAt(s: string, i: nat)
  {
    exists a, b, c :: TripleAt(s, i, a, b, c)
  }

  /** The matcher: since `\d+` must be followed by '.', the first two runs
      are maximal, so the greedy runs decide whether a match starts at i. */
  predicate MatchesAt(s: string, i: nat)
    requires i <= |s|
  {
    var a := DigitRun(s, i);
    && a > 0 && i + a < |s| && s[i + a] == '.'
    && var b := DigitRun(s, i + a + 1);
    && b > 0 && i + a + 1 + b < |s| && s[i + a + 1 + b] == '.'
    && DigitRun(s, i + a + b + 2) > 0
  }

  /** A run that ends at a non-digit has exactly its length. */
  lemma RunExact(s: string, lo: nat, n: nat)
    requires lo + n < |s| && DigitsBetween(s, lo, lo + n) && !IsDigit(s[lo + n])
    ensures DigitRun(s, lo) == n
  {
  }

  lemma RunAtLeast(s: string, lo: nat, n: nat)
    requires lo + n <= |s| && DigitsBetween(s, lo, lo + n)
    ensures DigitRun(s, lo) >= n
  {
  }

  /** The matcher agrees with the pattern at every position. */
  lemma MatchesAtIffPattern(s: string, i: nat)
    requires i <= |s|
    ensures MatchesAt(s, i) <==> PatternAt(s, i)
  {
    if MatchesAt(s, i) {
      var a := DigitRun(s, i);
      var b := DigitRun(s, i + a + 1);
      var c := DigitRun(s, i + a + b + 2);
      assert TripleAt(s, i, a, b, c);
    }
    if PatternAt(s, i) {
      var a, b, c :| TripleAt(s, i, a, b, c);
      RunExact(s, i, a);
      RunExact(s, i + a + 1, b);
      RunAtLeast(s, i + a + b + 2, c);
    }
  }

  /** The leftmost position at or after i where the matcher succeeds. */
  function FindFrom(s: string, i: nat): (r: Option<nat>)
    requires i <= |s|
    ensures r.Some? ==> i <= r.value <= |s| && MatchesAt(s, r.value)
    ensures r.Some? ==> forall j :: i <= j < r.value ==> !MatchesAt(s, j)
    ensures r.None? ==> forall j :: i <= j <= |s| ==> !MatchesAt(s, j)
    decreases |s| - i
  {
    if MatchesAt(s, i) then Some(i)
    else if i == |s| then None
    else FindFrom(s, i + 1)
  }

  /** `reVersion.FindStringIndex(s)[0]`: where the leftmost match begins. */
  function FindVersionIndex(s: string): (r: Option<nat>)
    ensures r.Some? ==> r.value <= |s| && PatternAt(s, r.value)
    ensures r.Some? ==> forall j :: 0 <= j < r.value ==> !PatternAt(s, j)
    ensures r.None? <==> forall j :: 0 <= j <= |s| ==> !PatternAt(s, j)
  {
    var r := FindFrom(s, 0);
    forall j | 0 <= j <= |s| ensures MatchesAt(s, j) <==> PatternAt(s, j) {
      MatchesAtIffPattern(s, j);
    }
    r
  }

  /** The tag with the text before the leftmost match stripped off; absent
      when the tag has no match. The text after the match is kept. */
  function VersionText(tag: string): (r: Option<string>)
    ensures r.None? <==> forall j :: 0 <= j <= |tag| ==> !PatternAt(tag, j)
    ensures r.Some? ==> |r.value| <= |tag| && tag[|tag| - |r.value|..] == r.value
    ensures r.Some? ==> PatternAt(tag, |tag| - |r.value|)
    ensures r.Some? ==> forall j :: 0 <= j < |tag| - |r.value| ==> !PatternAt(tag, j)
  {
    match FindVersionIndex(tag)
    case None => None
    case Some(i) => Some(tag[i..])
  }

  /** The version of a release tag; absent (the release is skipped, never an
      error) when the tag has no match or the kept text is not a strict
      semantic version. */
  function ExtractVersion(tag: string): (r: Option<SemVer.Version>)
    ensures (forall j :: 0 <= j <= |tag| ==> !PatternAt(tag, j)) ==> r.None?
    ensures forall i :: 0 <= i <= |tag| && PatternAt(tag, i) && (forall j :: 0 <= j < i ==> !PatternAt(tag, j))
                        ==> r == SemVer.Parse(tag[i..])
  {
    match VersionText(tag)
    case None => None
    case Some(t) =>
      assert t == tag[|tag| - |t|..];
      assert forall i :: 0 <= i <= |tag| && PatternAt(tag, i) && (forall j :: 0 <= j < i ==> !PatternAt(tag, j))
                        ==> i == |tag| - |t|;
      SemVer.Parse(t)
  }
}
