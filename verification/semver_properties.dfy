/** What the parser and the precedence order of SemVer promise: parsing and
    formatting are inverse on well-formed versions, and `GTE` is a total
    preorder (ties only between versions that differ in build metadata). */
module SemVerProperties {
  import opened Wrappers
  import opened Strings
  import opened Decimal
  import opened SemVer
  import Lexicographic

  lemma NumberRoundTrip(n: nat)
    ensures ParseNumber(FromNat(n)) == Some(n)
  {
    ToNatFromNat(n);
  }

  /** Digits carry none of the separators '.', '+', '-'. */
  lemma DigitsExclude(s: string, c: char)
    requires AllDigits(s) && !IsDigit(c)
    ensures c !in s
  {
  }

  lemma IdentExcludes(s: string, c: char)
    requires AllIdentChars(s) && !IsIdentChar(c)
    ensures c !in s
  {
  }

  lemma PRStringsAreIdents(pre: seq<PRVersion>)
    requires forall k :: 0 <= k < |pre| ==> ValidPR(pre[k])
    ensures forall k :: 0 <= k < |pre| ==> AllIdentChars(PRStrings(pre)[k])
  {
    forall k | 0 <= k < |pre|
      ensures AllIdentChars(PRStrings(pre)[k])
    {
      if pre[k].Numeric? {
        assert Canonical(FromNat(pre[k].num));
      }
    }
  }

  lemma PRRoundTrip(p: PRVersion)
    requires ValidPR(p)
    ensures ParsePR(PRString(p)) == Some(p)
  {
    if p.Numeric? {
      NumberRoundTrip(p.num);
    }
  }

  lemma PRStringOfParse(x: string, p: PRVersion)
    requires ParsePR(x) == Some(p)
    ensures PRString(p) == x
  {
  }

  /** A list whose every piece parses parses to the list of the pieces' values. */
  lemma {:induction false} ParsePRsEach(parts: seq<string>, pre: seq<PRVersion>)
    requires |parts| == |pre|
    requires forall k :: 0 <= k < |parts| ==> ParsePR(parts[k]) == Some(pre[k])
    ensures ParsePRs(parts) == Some(pre)
  {
    if |parts| > 0 {
      ParsePRsEach(parts[1..], pre[1..]);
      assert pre == [pre[0]] + pre[1..];
    }
  }

  /** The dot-joined list of identifiers, split at dots, parses back to the list. */
  lemma PRListRoundTrip(pre: seq<PRVersion>)
    requires |pre| > 0
    requires forall k :: 0 <= k < |pre| ==> ValidPR(pre[k])
    ensures ParsePRs(Split(Join(PRStrings(pre), '.'), '.')) == Some(pre)
  {
    var parts := PRStrings(pre);
    PRStringsAreIdents(pre);
    forall k | 0 <= k < |parts| ensures '.' !in parts[k] {
      IdentExcludes(parts[k], '.');
    }
    SplitJoin(parts, '.');
    forall k | 0 <= k < |parts| ensures ParsePR(parts[k]) == Some(pre[k]) {
      PRRoundTrip(pre[k]);
    }
    ParsePRsEach(parts, pre);
  }

  lemma BuildRoundTrip(build: seq<string>)
    requires |build| > 0
    requires forall k :: 0 <= k < |build| ==> ValidBuild(build[k])
    ensures ParseBuild(Split(Join(build, '.'), '.')) == Some(build)
  {
    forall k | 0 <= k < |build| ensures '.' !in build[k] {
      IdentExcludes(build[k], '.');
    }
    SplitJoin(build, '.');
  }

  /** Parsing looks past the first two dots when the major and minor texts have none. */
  lemma ParseAtDots(majorText: string, minorText: string, tail: string)
    requires '.' !in majorText && '.' !in minorText
    ensures Parse(majorText + "." + minorText + "." + tail) == ParseTail(majorText, minorText, tail)
  {
    var s := majorText + "." + minorText + "." + tail;
    assert s == majorText + ['.'] + (minorText + ['.'] + tail);
    CutAt(majorText, '.', minorText + ['.'] + tail);
    CutAt(minorText, '.', tail);
  }

  /** The text a version's canonical form has after its second dot. */
  function FormatTail(v: Version): string
  {
    FromNat(v.patch)
    + (if |v.pre| == 0 then "" else "-" + Join(PRStrings(v.pre), '.'))
    + (if |v.build| == 0 then "" else "+" + Join(v.build, '.'))
  }

  lemma FormatParts(v: Version)
    ensures Format(v) == FromNat(v.major) + "." + FromNat(v.minor) + "." + FormatTail(v)
  {
  }

  /** The pre-release and build texts of a version's canonical form. */
  function PreText(v: Version): Option<string>
  {
    if |v.pre| == 0 then None else Some(Join(PRStrings(v.pre), '.'))
  }

  function BuildText(v: Version): Option<string>
  {
    if |v.build| == 0 then None else Some(Join(v.build, '.'))
  }

  /** A separator, then the text, when there is one. */
  function Tagged(sep: char, text: Option<string>): string
  {
    if text.None? then "" else [sep] + text.value
  }

  lemma FormatTailParts(v: Version)
    ensures FormatTail(v) == FromNat(v.patch) + Tagged('-', PreText(v)) + Tagged('+', BuildText(v))
  {
  }

  /** Cutting at c undoes Tagged(c, ...) after a text without c. */
  lemma CutTagged(a: string, c: char, text: Option<string>)
    requires c !in a
    ensures Cut(a + Tagged(c, text), c) == (a, text)
  {
    if text.Some? {
      assert a + Tagged(c, text) == a + [c] + text.value;
      CutAt(a, c, text.value);
    } else {
      assert a + Tagged(c, text) == a;
    }
  }

  lemma PreTextExcludesPlus(v: Version)
    requires Valid(v)
    ensures '+' !in Tagged('-', PreText(v))
  {
    if |v.pre| > 0 {
      PRStringsAreIdents(v.pre);
      forall k | 0 <= k < |v.pre| ensures '+' !in PRStrings(v.pre)[k] {
        IdentExcludes(PRStrings(v.pre)[k], '+');
      }
      JoinExcludes(PRStrings(v.pre), '.', '+');
    }
  }

  lemma TailCuts(v: Version)
    requires Valid(v)
    ensures Cut(FormatTail(v), '+') == (FromNat(v.patch) + Tagged('-', PreText(v)), BuildText(v))
    ensures Cut(FromNat(v.patch) + Tagged('-', PreText(v)), '-') == (FromNat(v.patch), PreText(v))
  {
    var P := FromNat(v.patch);
    FormatTailParts(v);
    DigitsExclude(P, '-');
    DigitsExclude(P, '+');
    PreTextExcludesPlus(v);
    CutTagged(P + Tagged('-', PreText(v)), '+', BuildText(v));
    CutTagged(P, '-', PreText(v));
  }

  lemma PiecesRoundTrip(v: Version)
    requires Valid(v)
    ensures ParsePRs(Pieces(PreText(v))) == Some(v.pre)
    ensures ParseBuild(Pieces(BuildText(v))) == Some(v.build)
  {
    if |v.pre| > 0 {
      PRListRoundTrip(v.pre);
    }
    if |v.build| > 0 {
      BuildRoundTrip(v.build);
    }
  }

  lemma ParseTailFormat(v: Version)
    requires Valid(v)
    ensures ParseTail(FromNat(v.major), FromNat(v.minor), FormatTail(v)) == Some(v)
  {
    TailCuts(v);
    PiecesRoundTrip(v);
    NumberRoundTrip(v.major);
    NumberRoundTrip(v.minor);
    NumberRoundTrip(v.patch);
  }

  /** Parsing the canonical text of a well-formed version gives that version back. */
  lemma ParseFormat(v: Version)
    requires Valid(v)
    ensures Parse(Format(v)) == Some(v)
  {
    FormatParts(v);
    DigitsExclude(FromNat(v.major), '.');
    DigitsExclude(FromNat(v.minor), '.');
    ParseAtDots(FromNat(v.major), FromNat(v.minor), FormatTail(v));
    ParseTailFormat(v);
  }

  lemma PreTextOfParse(t: Option<string>, v: Version)
    requires ParsePRs(Pieces(t)) == Some(v.pre)
    ensures PreText(v) == t
  {
    if t.Some? {
      var parts := Split(t.value, '.');
      forall k | 0 <= k < |parts| ensures PRStrings(v.pre)[k] == parts[k] {
        PRStringOfParse(parts[k], v.pre[k]);
      }
      assert PRStrings(v.pre) == parts;
    }
  }

  lemma BuildTextOfParse(t: Option<string>, v: Version)
    requires ParseBuild(Pieces(t)) == Some(v.build)
    ensures BuildText(v) == t
  {
  }

  /** Whatever Cut returns, the tagged parts put the text back together. */
  lemma CutTaggedInverse(s: string, c: char)
    ensures s == Cut(s, c).0 + Tagged(c, Cut(s, c).1)
  {
    var r := Cut(s, c);
    if r.1.Some? {
      assert s == r.0 + [c] + r.1.value;
    }
  }

  lemma AssembleParts(majorText: string, minorText: string, patchText: string,
                      preText: Option<string>, buildText: Option<string>, v: Version)
    requires Assemble(majorText, minorText, patchText, preText, buildText) == Some(v)
    ensures FromNat(v.major) == majorText && FromNat(v.minor) == minorText && FromNat(v.patch) == patchText
    ensures ParsePRs(Pieces(preText)) == Some(v.pre)
    ensures ParseBuild(Pieces(buildText)) == Some(v.build)
  {
  }

  lemma FormatTailOfParse(majorText: string, minorText: string, tail: string, v: Version)
    requires ParseTail(majorText, minorText, tail) == Some(v)
    ensures FromNat(v.major) == majorText && FromNat(v.minor) == minorText
    ensures FormatTail(v) == tail
  {
    var buildCut := Cut(tail, '+');
    var preCut := Cut(buildCut.0, '-');
    assert ParseTail(majorText, minorText, tail) == Assemble(majorText, minorText, preCut.0, preCut.1, buildCut.1);
    AssembleParts(majorText, minorText, preCut.0, preCut.1, buildCut.1, v);
    CutTaggedInverse(tail, '+');
    CutTaggedInverse(buildCut.0, '-');
    PreTextOfParse(preCut.1, v);
    BuildTextOfParse(buildCut.1, v);
    FormatTailParts(v);
  }

  lemma DotCuts(s: string, majorText: string, afterMajor: string, minorText: string, tail: string)
    requires s == majorText + ['.'] + afterMajor && afterMajor == minorText + ['.'] + tail
    ensures s == majorText + "." + minorText + "." + tail
  {
  }

  /** A text that parses splits at its first two dots into the major text,
      the minor text and a tail that parses on its own. */
  lemma ParseSplits(s: string) returns (majorText: string, minorText: string, tail: string)
    requires Parse(s).Some?
    ensures s == majorText + "." + minorText + "." + tail
    ensures ParseTail(majorText, minorText, tail) == Parse(s)
  {
    var first := Cut(s, '.');
    var second := Cut(first.1.value, '.');
    majorText, minorText, tail := first.0, second.0, second.1.value;
    DotCuts(s, majorText, first.1.value, minorText, tail);
  }

  /** Parsing is strict: a text that parses is the canonical text of its version. */
  lemma FormatParse(s: string)
    requires Parse(s).Some?
    ensures Format(Parse(s).value) == s
  {
    var v := Parse(s).value;
    var majorText, minorText, tail := ParseSplits(s);
    FormatTailOfParse(majorText, minorText, tail, v);
    FormatParts(v);
  }

  // ------------------------------------------------------------- precedence

  lemma PRComparator()
    ensures Lexicographic.IsComparator(ComparePR)
  {
    Lexicographic.CharComparator();
    forall a, b ensures ComparePR(a, b) == -ComparePR(b, a) {
      if a.Alphanumeric? && b.Alphanumeric? {
        Lexicographic.CompareAntisymmetric(a.text, b.text, Lexicographic.CompareChar);
      }
    }
    forall a, b ensures ComparePR(a, b) == 0 <==> a == b {
      if a.Alphanumeric? && b.Alphanumeric? {
        Lexicographic.CompareZero(a.text, b.text, Lexicographic.CompareChar);
      }
    }
    forall a, b, c | ComparePR(a, b) <= 0 && ComparePR(b, c) <= 0
      ensures ComparePR(a, c) <= 0
    {
      if a.Alphanumeric? && b.Alphanumeric? && c.Alphanumeric? {
        Lexicographic.CompareTransitive(a.text, b.text, c.text, Lexicographic.CompareChar);
      }
    }
  }

  lemma CompareAntisymmetric(v: Version, o: Version)
    ensures Compare(v, o) == -Compare(o, v)
  {
    PRComparator();
    Lexicographic.CompareAntisymmetric(v.pre, o.pre, ComparePR);
  }

  /** Any two versions are comparable. */
  lemma GTETotal(v: Version, o: Version)
    ensures GTE(v, o) || GTE(o, v)
    ensures !GTE(v, o) ==> Compare(o, v) > 0
  {
    CompareAntisymmetric(v, o);
  }

  lemma GTETransitive(a: Version, b: Version, c: Version)
    requires GTE(a, b) && GTE(b, c)
    ensures GTE(a, c)
  {
    if a.major == c.major && a.minor == c.minor && a.patch == c.patch && |a.pre| > 0 && |c.pre| > 0 {
      PRComparator();
      CompareAntisymmetric(a, b);
      CompareAntisymmetric(b, c);
      CompareAntisymmetric(a, c);
      Lexicographic.CompareTransitive(c.pre, b.pre, a.pre, ComparePR);
    }
  }

  /** Section 11 of Semantic Versioning 2.0.0: a pre-release sorts strictly
      below the release of the same major.minor.patch. */
  lemma PrereleaseBelowRelease(v: Version)
    requires |v.pre| > 0
    ensures !GTE(v, v.(pre := []))
    ensures GTE(v.(pre := []), v)
  {
  }

  /** Build metadata takes no part in precedence, so GTE is a preorder and
      not an order: distinct versions can tie. */
  lemma BuildIgnored(v: Version, build: seq<string>)
    ensures GTE(v, v.(build := build)) && GTE(v.(build := build), v)
  {
    PRComparator();
    Lexicographic.CompareZero(v.pre, v.pre, ComparePR);
  }
}
