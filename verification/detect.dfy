/** Release and asset selection (selfupdate/detect.go): which releases are
    eligible, which asset of a release matches the platform, which companion
    validation asset goes with it, and which release is the newest. */
module Detect {
  import opened Wrappers
  import opened Strings
  import opened GitHub
  import opened AssetSuffixes
  import opened VersionText
  import opened Subsequences
  import SemVer
  import SemVerProperties

  /** A user filter on asset names; the regular expression behind it is
      abstracted to the predicate it decides. */
  type Filter = string -> bool

  /** The configured updater: the asset-name filters (an allow-list; empty
      means no filtering) and the validator, represented by the suffix it
      appends to an asset name to name the validation file. */
  datatype Updater = Updater(filters: seq<Filter>, validator: Option<string>)

  /** `releaseWithAssets`: a release, its matched asset and its version. */
  datatype Candidate = Candidate(release: RepositoryRelease, asset: ReleaseAsset, version: SemVer.Version)

  const NoValidationAsset: int := -1

  /** The `Release` offered as an update. */
  datatype Release = Release(
    version: SemVer.Version,
    assetUrl: string,
    assetByteSize: int,
    assetId: int,
    validationAssetId: int,
    url: string,
    releaseNotes: string,
    name: string,
    publishedAt: int,
    repoOwner: string,
    repoName: string)

  datatype Error =
    | InvalidSlug(slug: string)
    | ApiError(message: string)

  // ------------------------------------------------------ release eligibility

  /** A pinned tag admits exactly the release with that tag, whatever its
      flags; without a pin, drafts and pre-releases are not admitted. */
  predicate Admits(rel: RepositoryRelease, targetVersion: string)
  {
    if targetVersion != "" then rel.tagName == targetVersion
    else !rel.draft && !rel.prerelease
  }

  // ----------------------------------------------------------- asset matching

  /** The filter loop: true as soon as one filter accepts the name. */
  function AnyFilterMatches(filters: seq<Filter>, name: string): (r: bool)
    ensures r <==> exists k :: 0 <= k < |filters| && filters[k](name)
  {
    if |filters| == 0 then false
    else if filters[0](name) then true
    else
      var r := AnyFilterMatches(filters[1..], name);
      assert forall k :: 1 <= k < |filters| ==> filters[1..][k - 1] == filters[k];
      r
  }

  /** The suffix loop: true as soon as the name ends with one suffix. */
  function AnySuffixMatches(suffixes: seq<string>, name: string): (r: bool)
    ensures r <==> exists k :: 0 <= k < |suffixes| && HasSuffix(name, suffixes[k])
  {
    if |suffixes| == 0 then false
    else if HasSuffix(name, suffixes[0]) then true
    else
      var r := AnySuffixMatches(suffixes[1..], name);
      assert forall k :: 1 <= k < |suffixes| ==> suffixes[1..][k - 1] == suffixes[k];
      r
  }

  /** An asset qualifies when some filter accepts its name (or there are no
      filters) and its name ends with some suffix. */
  ghost predicate Qualifies(asset: ReleaseAsset, suffixes: seq<string>, filters: seq<Filter>)
  {
    && (|filters| == 0 || exists k :: 0 <= k < |filters| && filters[k](asset.name))
    && (exists k :: 0 <= k < |suffixes| && HasSuffix(asset.name, suffixes[k]))
  }

  /** asset is the first qualifying asset of the list. */
  ghost predicate FirstQualifying(assets: seq<ReleaseAsset>, asset: ReleaseAsset, suffixes: seq<string>, filters: seq<Filter>)
  {
    exists i :: 0 <= i < |assets| && assets[i] == asset
                && Qualifies(assets[i], suffixes, filters)
                && forall j :: 0 <= j < i ==> !Qualifies(assets[j], suffixes, filters)
  }

  ghost predicate NoneQualifies(assets: seq<ReleaseAsset>, suffixes: seq<string>, filters: seq<Filter>)
  {
    forall j :: 0 <= j < |assets| ==> !Qualifies(assets[j], suffixes, filters)
  }

  /** The asset loop of `findAssetFromRelease`: the first asset, in listing
      order, that qualifies. */
  function FirstAsset(assets: seq<ReleaseAsset>, suffixes: seq<string>, filters: seq<Filter>): (r: Option<ReleaseAsset>)
    ensures r.None? <==> NoneQualifies(assets, suffixes, filters)
    ensures r.Some? ==> FirstQualifying(assets, r.value, suffixes, filters)
  {
    if |assets| == 0 then None
    else
      var name := assets[0].name;
      if (|filters| == 0 || AnyFilterMatches(filters, name)) && AnySuffixMatches(suffixes, name) then
        Some(assets[0])
      else
        var r := FirstAsset(assets[1..], suffixes, filters);
        assert forall j :: 1 <= j < |assets| ==> assets[1..][j - 1] == assets[j];
        assert r.Some? ==> exists i :: 0 <= i < |assets[1..]| && assets[1..][i] == r.value
                                       && Qualifies(assets[1..][i], suffixes, filters)
                                       && forall j :: 0 <= j < i ==> !Qualifies(assets[1..][j], suffixes, filters);
        r
  }

  /** A matched asset together with the version of its release. */
  datatype Match = Match(asset: ReleaseAsset, version: SemVer.Version)

  /** `findAssetFromRelease`. */
  function FindAssetFromRelease(rel: RepositoryRelease, suffixes: seq<string>, targetVersion: string,
                                filters: seq<Filter>): (r: Option<Match>)
    ensures !Admits(rel, targetVersion) ==> r.None?
    ensures ExtractVersion(rel.tagName).None? ==> r.None?
    ensures r.Some? ==> ExtractVersion(rel.tagName) == Some(r.value.version)
    ensures r.Some? ==> FirstQualifying(rel.assets, r.value.asset, suffixes, filters)
    ensures r.None? && Admits(rel, targetVersion) && ExtractVersion(rel.tagName).Some? ==>
              NoneQualifies(rel.assets, suffixes, filters)
  {
    if targetVersion != "" && targetVersion != rel.tagName then None
    else if targetVersion == "" && rel.draft then None
    else if targetVersion == "" && rel.prerelease then None
    else
      var ver := ExtractVersion(rel.tagName);
      var asset := FirstAsset(rel.assets, suffixes, filters);
      if ver.None? || asset.None? then None
      else Some(Match(asset.value, ver.value))
  }

  // ------------------------------------------------------ validation pairing

  /** `findValidationAsset`: the first asset named exactly validationName. */
  function FindValidationAsset(rel: RepositoryRelease, validationName: string): (r: Option<ReleaseAsset>)
    ensures r.None? <==> forall j :: 0 <= j < |rel.assets| ==> rel.assets[j].name != validationName
    ensures r.Some? ==> exists i :: 0 <= i < |rel.assets| && rel.assets[i] == r.value
                                    && r.value.name == validationName
                                    && forall j :: 0 <= j < i ==> rel.assets[j].name != validationName
  {
    FirstNamed(rel.assets, validationName)
  }

  function FirstNamed(assets: seq<ReleaseAsset>, name: string): (r: Option<ReleaseAsset>)
    ensures r.None? <==> forall j :: 0 <= j < |assets| ==> assets[j].name != name
    ensures r.Some? ==> exists i :: 0 <= i < |assets| && assets[i] == r.value && r.value.name == name
                                    && forall j :: 0 <= j < i ==> assets[j].name != name
  {
    if |assets| == 0 then None
    else if assets[0].name == name then Some(assets[0])
    else
      var r := FirstNamed(assets[1..], name);
      assert forall j :: 1 <= j < |assets| ==> assets[1..][j - 1] == assets[j];
      assert r.Some? ==> exists i :: 0 <= i < |assets[1..]| && assets[1..][i] == r.value && r.value.name == name
                                     && forall j :: 0 <= j < i ==> assets[1..][j].name != name;
      r
  }

  // ------------------------------------------------------ candidate listing

  /** One iteration of the release loop of `findReleasesAndAssets`. */
  function CandidateOf(rel: RepositoryRelease, suffixes: seq<string>, targetVersion: string,
                       filters: seq<Filter>): Option<Candidate>
  {
    match FindAssetFromRelease(rel, suffixes, targetVersion, filters)
    case None => None
    case Some(m) => Some(Candidate(rel, m.asset, m.version))
  }

  /** `findReleasesAndAssets`: the candidates for the running platform, in
      the order of the releases. */
  function FindReleasesAndAssets(rels: seq<RepositoryRelease>, targetVersion: string, filters: seq<Filter>,
                                 platform: Platform): (out: seq<Candidate>)
    ensures |out| <= |rels|
  {
    Keep(rels, rel => CandidateOf(rel, Suffixes(platform), targetVersion, filters))
  }

  // ------------------------------------------------------------- detection

  /** `strings.Split(slug, "/")` must give exactly two non-empty parts. */
  function ParseSlug(slug: string): (r: Option<(string, string)>)
    ensures r.Some? ==> r.value.0 != "" && r.value.1 != "" && '/' !in r.value.0 && '/' !in r.value.1
                        && slug == r.value.0 + "/" + r.value.1
  {
    var repo := Split(slug, '/');
    if |repo| != 2 || repo[0] == "" || repo[1] == "" then None
    else
      assert Join(repo, '/') == repo[0] + "/" + Join(repo[1..], '/');
      Some((repo[0], repo[1]))
  }

  /** The `Release` record built from a candidate, without validation asset. */
  function ToRelease(c: Candidate, owner: string, repo: string): Release
  {
    Release(c.version, c.asset.browserDownloadUrl, c.asset.size, c.asset.id, NoValidationAsset,
            c.release.htmlUrl, c.release.body, c.release.name, c.release.publishedAt, owner, repo)
  }

  /** One iteration of the loop in `DetectVersions`: with a validator, the
      candidate survives only if its release has an asset named after the
      matched asset plus the validator's suffix; the id of the first such
      asset is recorded. */
  function Validate(c: Candidate, validator: Option<string>, owner: string, repo: string): (r: Option<Release>)
    ensures validator.None? ==> r == Some(ToRelease(c, owner, repo))
    ensures validator.Some? ==>
              (r.None? <==> forall j :: 0 <= j < |c.release.assets| ==>
                              c.release.assets[j].name != c.asset.name + validator.value)
    ensures validator.Some? && r.Some? ==>
              exists i :: 0 <= i < |c.release.assets|
                          && c.release.assets[i].name == c.asset.name + validator.value
                          && r.value == ToRelease(c, owner, repo).(validationAssetId := c.release.assets[i].id)
                          && forall j :: 0 <= j < i ==> c.release.assets[j].name != c.asset.name + validator.value
  {
    var release := ToRelease(c, owner, repo);
    match validator
    case None => Some(release)
    case Some(suffix) =>
      match FindValidationAsset(c.release, c.asset.name + suffix)
      case None => None
      case Some(v) => Some(release.(validationAssetId := v.id))
  }

  /** The loop in `DetectVersions` over the candidates. */
  function PairValidation(cands: seq<Candidate>, validator: Option<string>, owner: string, repo: string): (out: seq<Release>)
    ensures |out| <= |cands|
  {
    Keep(cands, c => Validate(c, validator, owner, repo))
  }

  /** `DetectVersions`, with the listing call as a parameter. */
  function DetectVersions(up: Updater, platform: Platform, slug: string, version: string,
                          listReleases: (string, string) -> Listing): (r: Result<seq<Release>, Error>)
    ensures ParseSlug(slug).None? ==> r == Failure(InvalidSlug(slug))
    ensures ParseSlug(slug).Some? && listReleases(ParseSlug(slug).value.0, ParseSlug(slug).value.1).err.Some? ==>
              var listing := listReleases(ParseSlug(slug).value.0, ParseSlug(slug).value.1);
              if listing.status == Some(StatusNotFound) then r == Success([])
              else r == Failure(ApiError(listing.err.value))
    ensures ParseSlug(slug).Some? && listReleases(ParseSlug(slug).value.0, ParseSlug(slug).value.1).err.None? ==>
              r.Success? && |r.value| <= |listReleases(ParseSlug(slug).value.0, ParseSlug(slug).value.1).releases|
  {
    match ParseSlug(slug)
    case None => Failure(InvalidSlug(slug))
    case Some((owner, repo)) =>
      var listing := listReleases(owner, repo);
      if listing.err.Some? then
        if listing.status == Some(StatusNotFound) then Success([])
        else Failure(ApiError(listing.err.value))
      else
        var cands := FindReleasesAndAssets(listing.releases, version, up.filters, platform);
        Success(PairValidation(cands, up.validator, owner, repo))
  }

  /** The selection loop of `DetectVersion`: a release replaces the running
      best when its version is greater than or equal to the best's. Written
      over the prefix, as the state after each iteration. */
  function BestIndex(rs: seq<Release>): (r: Option<nat>)
    ensures r.None? <==> |rs| == 0
    ensures r.Some? ==> r.value < |rs|
  {
    if |rs| == 0 then None
    else
      var last := |rs| - 1;
      match BestIndex(rs[..last])
      case None => Some(last)
      case Some(b) => if SemVer.GTE(rs[last].version, rs[b].version) then Some(last) else Some(b)
  }

  /** rs[k] has a version at least that of every release, and every later
      release has a strictly lower version. */
  ghost predicate IsLastMax(rs: seq<Release>, k: nat)
  {
    && k < |rs|
    && (forall j :: 0 <= j < |rs| ==> SemVer.GTE(rs[k].version, rs[j].version))
    && (forall j :: k < j < |rs| ==> !SemVer.GTE(rs[j].version, rs[k].version))
  }

  lemma {:induction false} BestIndexIsLastMax(rs: seq<Release>)
    requires |rs| > 0
    ensures IsLastMax(rs, BestIndex(rs).value)
  {
    var last := |rs| - 1;
    var p := rs[..last];
    SemVerProperties.GTETotal(rs[last].version, rs[last].version);
    assert forall j :: 0 <= j < last ==> p[j] == rs[j];
    if |p| > 0 {
      BestIndexIsLastMax(p);
      var b := BestIndex(p).value;
      if SemVer.GTE(rs[last].version, rs[b].version) {
        forall j | 0 <= j < last ensures SemVer.GTE(rs[last].version, rs[j].version) {
          SemVerProperties.GTETransitive(rs[last].version, rs[b].version, rs[j].version);
        }
      } else {
        SemVerProperties.GTETotal(rs[last].version, rs[b].version);
      }
    }
  }

  /** The running best after the whole loop: the last release holding a
      greatest version. */
  function SelectBest(rs: seq<Release>): (r: Option<Release>)
    ensures r.None? <==> rs == []
    ensures r.Some? ==> r.value in rs
    ensures r.Some? ==> exists k: nat :: IsLastMax(rs, k) && rs[k] == r.value
  {
    match BestIndex(rs)
    case None => None
    case Some(k) =>
      BestIndexIsLastMax(rs);
      Some(rs[k])
  }

  /** `DetectVersion`: the release with the highest version, the last one
      among equals; absent (not found) when there is none. Errors of
      `DetectVersions` are passed on. */
  function DetectVersion(up: Updater, platform: Platform, slug: string, version: string,
                         listReleases: (string, string) -> Listing): (r: Result<Option<Release>, Error>)
    ensures DetectVersions(up, platform, slug, version, listReleases).Failure? ==>
              r == Failure(DetectVersions(up, platform, slug, version, listReleases).error)
    ensures DetectVersions(up, platform, slug, version, listReleases).Success? ==>
              r.Success? && (r.value.None? <==> DetectVersions(up, platform, slug, version, listReleases).value == [])
    ensures r.Success? && r.value.Some? ==> r.value.value in DetectVersions(up, platform, slug, version, listReleases).value
    ensures r.Success? && r.value.Some? ==>
              exists k: nat :: IsLastMax(DetectVersions(up, platform, slug, version, listReleases).value, k)
                               && DetectVersions(up, platform, slug, version, listReleases).value[k] == r.value.value
  {
    match DetectVersions(up, platform, slug, version, listReleases)
    case Failure(e) => Failure(e)
    case Success(rs) => Success(SelectBest(rs))
  }

  /** `DetectLatest`: `DetectVersion` without a pinned version. */
  function DetectLatest(up: Updater, platform: Platform, slug: string,
                        listReleases: (string, string) -> Listing): (r: Result<Option<Release>, Error>)
  {
    DetectVersion(up, platform, slug, "", listReleases)
  }
}
