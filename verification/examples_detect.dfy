/** Worked examples of the selection rules on concrete tags, asset names
    and release lists. */
module DetectExamples {
  import opened Wrappers
  import opened Strings
  import opened GitHub
  import opened AssetSuffixes
  import opened VersionText
  import opened SemVer
  import opened Detect
  import DetectProperties
  import Decimal
  import SemVerProperties

  /** The canonical text of a release version without pre-release or build. */
  lemma PlainText(major: nat, minor: nat, patch: nat)
    requires major < 10 && minor < 10 && patch < 10
    ensures Format(Version(major, minor, patch, [], []))
         == [Decimal.DigitChar(major), '.', Decimal.DigitChar(minor), '.', Decimal.DigitChar(patch)]
  {
  }

  lemma PrefixedTag()
    ensures ExtractVersion("v1.2.3") == Some(Version(1, 2, 3, [], []))
  {
    var s := "v1.2.3";
    assert DigitRun(s, 0) == 0;
    assert !MatchesAt(s, 0);
    assert DigitRun(s, 6) == 0;
    assert DigitRun(s, 5) == 1;
    assert DigitRun(s, 3) == 1;
    assert DigitRun(s, 1) == 1;
    assert MatchesAt(s, 1);
    assert FindFrom(s, 0) == Some(1);
    assert VersionText.VersionText(s) == Some("1.2.3");
    PlainText(1, 2, 3);
    SemVerProperties.ParseFormat(Version(1, 2, 3, [], []));
  }

  lemma PrereleaseText()
    ensures Format(Version(1, 2, 3, [Alphanumeric("rc1")], [])) == "1.2.3-rc1"
  {
    var v := Version(1, 2, 3, [Alphanumeric("rc1")], []);
    assert PRStrings(v.pre) == ["rc1"];
    PlainText(1, 2, 3);
    assert Format(v) == Format(Version(1, 2, 3, [], [])) + "-" + Join(["rc1"], '.');
  }

  lemma PrereleaseMatch()
    ensures VersionText.VersionText("1.2.3-rc1") == Some("1.2.3-rc1")
  {
    var s := "1.2.3-rc1";
    assert DigitRun(s, 5) == 0;
    assert DigitRun(s, 4) == 1;
    assert DigitRun(s, 2) == 1;
    assert DigitRun(s, 0) == 1;
    assert MatchesAt(s, 0);
  }

  lemma PrereleaseParse()
    ensures SemVer.Parse("1.2.3-rc1") == Some(Version(1, 2, 3, [Alphanumeric("rc1")], []))
  {
    var v := Version(1, 2, 3, [Alphanumeric("rc1")], []);
    assert !Decimal.AllDigits("rc1") by { assert !Decimal.IsDigit("rc1"[0]); }
    assert SemVer.Valid(v);
    PrereleaseText();
    SemVerProperties.ParseFormat(v);
  }

  lemma PrereleaseTag()
    ensures ExtractVersion("1.2.3-rc1") == Some(Version(1, 2, 3, [Alphanumeric("rc1")], []))
  {
    PrereleaseMatch();
    PrereleaseParse();
  }

  /** A tag without a single digit has no match. */
  lemma NoDigitsNoPattern(s: string)
    requires forall k :: 0 <= k < |s| ==> !Decimal.IsDigit(s[k])
    ensures forall j :: 0 <= j <= |s| ==> !PatternAt(s, j)
  {
    assert forall j: nat, a: nat, b: nat, c: nat :: TripleAt(s, j, a, b, c) ==> Decimal.IsDigit(s[j]);
  }

  lemma UnversionedTag(tag: string)
    requires tag == "nightly"
    ensures ExtractVersion(tag) == None
  {
    assert forall k :: 0 <= k < |tag| ==> !Decimal.IsDigit(tag[k]);
    NoDigitsNoPattern(tag);
  }

  lemma EndsWith(prefix: string, suffix: string)
    ensures HasSuffix(prefix + suffix, suffix)
  {
    assert (prefix + suffix)[|prefix|..] == suffix;
  }

  /** A name made of any prefix and one of the platform's suffixes matches. */
  lemma NameWithSuffix(p: Platform, s: nat, e: nat, prefix: string, name: string)
    requires s < 2 && e < 8 && name == prefix + Suffix(p, Separators[s], false, Extensions[e])
    ensures AnySuffixMatches(Suffixes(p), name)
  {
    SuffixesLayout(p);
    var k := Width(p) * (8 * s + e);
    assert k < |Suffixes(p)| by {
      if IsWindows(p) { assert k == 2 * (8 * s + e); } else { assert k == 8 * s + e; }
    }
    EndsWith(prefix, Suffixes(p)[k]);
  }

  lemma ArchiveAsset(p: Platform, name: string)
    requires p.goos == "linux" && p.goarch == "amd64" && name == "tool_linux_amd64.tar.gz"
    ensures AnySuffixMatches(Suffixes(p), name)
  {
    assert Suffix(p, Separators[0], false, Extensions[1]) == "linux_amd64.tar.gz";
    assert name == "tool_" + "linux_amd64.tar.gz";
    NameWithSuffix(p, 0, 1, "tool_", name);
  }

  /** The empty extension lets a bare binary match. */
  lemma BareAsset(p: Platform, name: string)
    requires p.goos == "linux" && p.goarch == "amd64" && name == "tool_linux_amd64"
    ensures AnySuffixMatches(Suffixes(p), name)
  {
    assert Suffix(p, Separators[0], false, Extensions[7]) == "linux_amd64";
    assert name == "tool_" + "linux_amd64";
    NameWithSuffix(p, 0, 7, "tool_", name);
  }

  lemma DashAsset(p: Platform, name: string)
    requires p.goos == "linux" && p.goarch == "amd64" && name == "tool-linux-amd64.zip"
    ensures AnySuffixMatches(Suffixes(p), name)
  {
    assert Suffix(p, Separators[1], false, Extensions[0]) == "linux-amd64.zip";
    assert name == "tool-" + "linux-amd64.zip";
    NameWithSuffix(p, 1, 0, "tool-", name);
  }

  /** A pre-release is skipped by a "latest" query but found when its own
      tag is asked for. */
  lemma PrereleaseOnlyWhenPinned(rel: RepositoryRelease, suffixes: seq<string>, filters: seq<Filter>)
    requires rel.prerelease && rel.tagName != ""
    ensures !Admits(rel, "") && Admits(rel, rel.tagName)
    ensures FindAssetFromRelease(rel, suffixes, "", filters).None?
    ensures ExtractVersion(rel.tagName).Some? && !NoneQualifies(rel.assets, suffixes, filters) ==>
              FindAssetFromRelease(rel, suffixes, rel.tagName, filters).Some?
  {
  }

  function Offer(v: Version, name: string): Release
  {
    Release(v, "", 0, 0, NoValidationAsset, "", "", name, 0, "owner", "repo")
  }

  /** Of 1.0.0, 1.2.0 and 1.1.0 the middle one is offered. */
  lemma HighestWins()
    ensures SelectBest([Offer(Version(1, 0, 0, [], []), "a"), Offer(Version(1, 2, 0, [], []), "b"),
                        Offer(Version(1, 1, 0, [], []), "c")])
         == Some(Offer(Version(1, 2, 0, [], []), "b"))
  {
  }

  /** Two releases of the same version: the later one in the listing wins. */
  lemma LaterTieWins()
    ensures SelectBest([Offer(Version(2, 0, 0, [], []), "A"), Offer(Version(2, 0, 0, [], []), "B")])
         == Some(Offer(Version(2, 0, 0, [], []), "B"))
  {
  }

  lemma MalformedSlug(up: Updater, platform: Platform, slug: string, version: string,
                      listReleases: (string, string) -> Listing)
    requires slug == "onlyonepart"
    ensures DetectVersions(up, platform, slug, version, listReleases) == Failure(InvalidSlug(slug))
  {
    assert '/' !in slug;
    SplitWithoutSeparator(slug, '/');
  }
}
