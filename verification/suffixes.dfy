/** The platform suffixes an asset name may end with (selfupdate/detect.go,
    the loops at the top of `findReleasesAndAssets`): for each separator,
    for each extension, `<os><sep><arch><ext>`, and on Windows right after
    it `<os><sep><arch>.exe<ext>`. */
module AssetSuffixes {

  /** The running platform: Go's `runtime.GOOS` and `runtime.GOARCH`. */
  datatype Platform = Platform(goos: string, goarch: string)

  predicate IsWindows(p: Platform)
  {
    p.goos == "windows"
  }

  const Separators: seq<char> := ['_', '-']

  /** The archive extensions; the last one is the bare executable. */
  const Extensions: seq<string> := [".zip", ".tar.gz", ".tgz", ".gzip", ".gz", ".tar.xz", ".xz", ""]

  function Suffix(p: Platform, sep: char, exe: bool, ext: string): string
  {
    p.goos + [sep] + p.goarch + (if exe then ".exe" else "") + ext
  }

  /** The number of suffixes generated per separator and extension. */
  function Width(p: Platform): nat
  {
    if IsWindows(p) then 2 else 1
  }

  /** The inner loop: one separator, each extension in turn. */
  function ForExtensions(p: Platform, sep: char, exts: seq<string>): seq<string>
  {
    if |exts| == 0 then []
    else
      [Suffix(p, sep, false, exts[0])]
      + (if IsWindows(p) then [Suffix(p, sep, true, exts[0])] else [])
      + ForExtensions(p, sep, exts[1..])
  }

  /** The outer loop: each separator in turn. */
  function ForSeparators(p: Platform, seps: seq<char>, exts: seq<string>): seq<string>
  {
    if |seps| == 0 then []
    else ForExtensions(p, seps[0], exts) + ForSeparators(p, seps[1..], exts)
  }

  /** The suffix list `findReleasesAndAssets` builds. */
  function Suffixes(p: Platform): seq<string>
  {
    ForSeparators(p, Separators, Extensions)
  }

  lemma {:induction false} ForExtensionsLayout(p: Platform, sep: char, exts: seq<string>)
    ensures |ForExtensions(p, sep, exts)| == Width(p) * |exts|
    ensures forall e :: 0 <= e < |exts| ==>
      ForExtensions(p, sep, exts)[Width(p) * e] == Suffix(p, sep, false, exts[e])
    ensures IsWindows(p) ==> forall e :: 0 <= e < |exts| ==>
      ForExtensions(p, sep, exts)[2 * e + 1] == Suffix(p, sep, true, exts[e])
  {
    if |exts| > 0 {
      ForExtensionsLayout(p, sep, exts[1..]);
      var r := ForExtensions(p, sep, exts);
      var tail := ForExtensions(p, sep, exts[1..]);
      if IsWindows(p) {
        assert r == [Suffix(p, sep, false, exts[0]), Suffix(p, sep, true, exts[0])] + tail;
        forall e | 0 < e < |exts|
          ensures r[2 * e] == Suffix(p, sep, false, exts[e]) && r[2 * e + 1] == Suffix(p, sep, true, exts[e])
        {
          assert exts[1..][e - 1] == exts[e];
          assert r[2 * e] == tail[2 * (e - 1)] && r[2 * e + 1] == tail[2 * (e - 1) + 1];
        }
      } else {
        assert r == [Suffix(p, sep, false, exts[0])] + tail;
        forall e | 0 < e < |exts| ensures r[e] == Suffix(p, sep, false, exts[e]) {
          assert exts[1..][e - 1] == exts[e];
        }
      }
    }
  }

  /** The list has 16 entries, 32 on Windows, in the order of the Go loops:
      separators outermost, then extensions, then on Windows the `.exe`
      variant right after each base entry. */
  lemma SuffixesLayout(p: Platform)
    ensures |Suffixes(p)| == (if IsWindows(p) then 32 else 16)
    ensures forall s, e :: 0 <= s < 2 && 0 <= e < 8 ==>
      Suffixes(p)[Width(p) * (8 * s + e)] == Suffix(p, Separators[s], false, Extensions[e])
    ensures IsWindows(p) ==> forall s, e :: 0 <= s < 2 && 0 <= e < 8 ==>
      Suffixes(p)[2 * (8 * s + e) + 1] == Suffix(p, Separators[s], true, Extensions[e])
  {
    var under := ForExtensions(p, '_', Extensions);
    var dash := ForExtensions(p, '-', Extensions);
    assert Suffixes(p) == under + dash by {
      assert Separators[0] == '_' && Separators[1..] == ['-'];
      assert ForSeparators(p, ['-'], Extensions) == dash + ForSeparators(p, [], Extensions);
    }
    ForExtensionsLayout(p, '_', Extensions);
    ForExtensionsLayout(p, '-', Extensions);
    if IsWindows(p) {
      assert Width(p) == 2;
      forall s, e | 0 <= s < 2 && 0 <= e < 8
        ensures Suffixes(p)[2 * (8 * s + e)] == Suffix(p, Separators[s], false, Extensions[e])
        ensures Suffixes(p)[2 * (8 * s + e) + 1] == Suffix(p, Separators[s], true, Extensions[e])
      {
        if s == 1 {
          assert Suffixes(p)[2 * (8 * s + e)] == dash[2 * e];
          assert Suffixes(p)[2 * (8 * s + e) + 1] == dash[2 * e + 1];
        }
      }
    } else {
      assert Width(p) == 1;
      forall s, e | 0 <= s < 2 && 0 <= e < 8
        ensures Suffixes(p)[8 * s + e] == Suffix(p, Separators[s], false, Extensions[e])
      {
        if s == 1 {
          assert Suffixes(p)[8 * s + e] == dash[e];
        }
      }
    }
  }

  lemma {:induction false} ForExtensionsMembers(p: Platform, sep: char, exts: seq<string>, x: string)
    ensures x in ForExtensions(p, sep, exts) <==>
      exists e, exe :: 0 <= e < |exts| && (exe ==> IsWindows(p)) && x == Suffix(p, sep, exe, exts[e])
  {
    if |exts| > 0 {
      ForExtensionsMembers(p, sep, exts[1..], x);
      if exists e, exe :: 0 <= e < |exts| && (exe ==> IsWindows(p)) && x == Suffix(p, sep, exe, exts[e]) {
        var e, exe :| 0 <= e < |exts| && (exe ==> IsWindows(p)) && x == Suffix(p, sep, exe, exts[e]);
        if e > 0 {
          assert exts[1..][e - 1] == exts[e];
        }
      }
    }
  }

  lemma {:induction false} ForSeparatorsMembers(p: Platform, seps: seq<char>, exts: seq<string>, x: string)
    ensures x in ForSeparators(p, seps, exts) <==>
      exists s, e, exe :: 0 <= s < |seps| && 0 <= e < |exts| && (exe ==> IsWindows(p))
                          && x == Suffix(p, seps[s], exe, exts[e])
  {
    if |seps| > 0 {
      ForSeparatorsMembers(p, seps[1..], exts, x);
      ForExtensionsMembers(p, seps[0], exts, x);
      if exists s, e, exe :: 0 <= s < |seps| && 0 <= e < |exts| && (exe ==> IsWindows(p))
                             && x == Suffix(p, seps[s], exe, exts[e]) {
        var s, e, exe :| 0 <= s < |seps| && 0 <= e < |exts| && (exe ==> IsWindows(p))
                         && x == Suffix(p, seps[s], exe, exts[e]);
        if s > 0 {
          assert seps[1..][s - 1] == seps[s];
        }
      }
    }
  }

  /** Every entry is `<os><sep><arch>[.exe]<ext>` for a listed separator and
      extension, `.exe` only on Windows, and every such string is an entry. */
  lemma SuffixesMembers(p: Platform, x: string)
    ensures x in Suffixes(p) <==>
      exists s, e, exe :: 0 <= s < 2 && 0 <= e < 8 && (exe ==> IsWindows(p))
                          && x == Suffix(p, Separators[s], exe, Extensions[e])
  {
    ForSeparatorsMembers(p, Separators, Extensions, x);
  }
}
