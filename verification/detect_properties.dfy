/** Properties that relate several calls of the selection logic: the
    pinned tag overrides the flags, candidate lists keep the order of the
    releases, validation pairing keeps exactly the validated candidates, and
    `DetectVersion` picks the last of the highest versions. */
module DetectProperties {
  import opened Wrappers
  import opened Strings
  import opened GitHub
  import opened AssetSuffixes
  import opened VersionText
  import opened Detect
  import opened Subsequences
  import SemVer
  import SemVerProperties

  /** With a pinned tag the draft and pre-release flags are not consulted. */
  lemma PinnedIgnoresFlags(rel: RepositoryRelease, suffixes: seq<string>, targetVersion: string,
                           filters: seq<Filter>, draft: bool, prerelease: bool)
    requires targetVersion != ""
    ensures FindAssetFromRelease(rel, suffixes, targetVersion, filters)
         == FindAssetFromRelease(rel.(draft := draft, prerelease := prerelease), suffixes, targetVersion, filters)
  {
  }

  /** The candidate list is the order-preserving subsequence of the releases
      for which `findAssetFromRelease` succeeds, each paired with that call's
      asset and version: idx[k] is the position of candidate k's release. */
  lemma CandidatesInOrder(rels: seq<RepositoryRelease>, targetVersion: string, filters: seq<Filter>,
                          platform: Platform) returns (idx: seq<nat>)
    ensures var out := FindReleasesAndAssets(rels, targetVersion, filters, platform);
            && |idx| == |out|
            && (forall a, b :: 0 <= a < b < |idx| ==> idx[a] < idx[b])
            && (forall k :: 0 <= k < |idx| ==>
                  && idx[k] < |rels|
                  && out[k].release == rels[idx[k]]
                  && FindAssetFromRelease(rels[idx[k]], Suffixes(platform), targetVersion, filters)
                     == Some(Match(out[k].asset, out[k].version)))
            && (forall i :: 0 <= i < |rels| ==>
                  (FindAssetFromRelease(rels[i], Suffixes(platform), targetVersion, filters).Some? <==> i in idx))
  {
    var f := rel => CandidateOf(rel, Suffixes(platform), targetVersion, filters);
    idx := KeepInOrder(rels, f);
  }

  /** Validation pairing keeps, in order, exactly the candidates for which
      `Validate` succeeds, with its result. */
  lemma ValidatedInOrder(cands: seq<Candidate>, validator: Option<string>, owner: string, repo: string)
    returns (idx: seq<nat>)
    ensures var out := PairValidation(cands, validator, owner, repo);
            && |idx| == |out|
            && (forall a, b :: 0 <= a < b < |idx| ==> idx[a] < idx[b])
            && (forall k :: 0 <= k < |idx| ==>
                  idx[k] < |cands| && Validate(cands[idx[k]], validator, owner, repo) == Some(out[k]))
            && (forall i :: 0 <= i < |cands| ==> (Validate(cands[i], validator, owner, repo).Some? <==> i in idx))
  {
    idx := KeepInOrder(cands, c => Validate(c, validator, owner, repo));
  }

  /** Without a validator every candidate becomes a release, in order, with
      no validation asset. */
  lemma NoValidatorKeepsAll(cands: seq<Candidate>, owner: string, repo: string)
    ensures |PairValidation(cands, None, owner, repo)| == |cands|
    ensures forall k :: 0 <= k < |cands| ==>
              PairValidation(cands, None, owner, repo)[k] == ToRelease(cands[k], owner, repo)
              && PairValidation(cands, None, owner, repo)[k].validationAssetId == NoValidationAsset
  {
    KeepTotal(cands, c => Validate(c, None, owner, repo));
  }

  /** A slug of two non-empty parts without '/' is accepted and split back
      into them; together with the contract of ParseSlug this makes the
      accepted slugs exactly those. */
  lemma SlugRoundTrip(owner: string, repo: string)
    requires owner != "" && repo != "" && '/' !in owner && '/' !in repo
    ensures ParseSlug(owner + "/" + repo) == Some((owner, repo))
  {
    SplitJoin([owner, repo], '/');
    assert Join([owner, repo], '/') == owner + "/" + repo;
  }

  // --------------------------------------------------- best-version selection

  /** The last maximum is unique, so BestIndex is characterised by it. */
  lemma BestIndexIffLastMax(rs: seq<Release>, k: nat)
    ensures BestIndex(rs) == Some(k) <==> IsLastMax(rs, k)
  {
    if |rs| > 0 {
      BestIndexIsLastMax(rs);
      var b := BestIndex(rs).value;
    }
  }

  /** `DetectVersion` returns a release whose version is at least that of
      every detected release, and no later detected release ties with it. */
  lemma DetectVersionPicksLastMax(up: Updater, platform: Platform, slug: string, version: string,
                                  listReleases: (string, string) -> Listing, rs: seq<Release>)
    requires DetectVersions(up, platform, slug, version, listReleases) == Success(rs)
    requires rs != []
    ensures DetectVersion(up, platform, slug, version, listReleases).Success?
    ensures DetectVersion(up, platform, slug, version, listReleases).value.Some?
    ensures exists k: nat :: IsLastMax(rs, k) && rs[k] == DetectVersion(up, platform, slug, version, listReleases).value.value
  {
    assert DetectVersion(up, platform, slug, version, listReleases) == Success(SelectBest(rs));
  }
}

module DetectProvenance {
  import opened Wrappers
  import opened GitHub
  import opened AssetSuffixes
  import opened VersionText
  import opened Detect
  import DetectProperties
  import opened Subsequences

  /** A release and one of its assets are where an offered Release came from. */
  ghost predicate ComesFrom(x: Release, rel: RepositoryRelease, owner: string, repo: string)
  {
    && ExtractVersion(rel.tagName) == Some(x.version)
    && (exists i :: 0 <= i < |rel.assets| && rel.assets[i].id == x.assetId
                    && rel.assets[i].browserDownloadUrl == x.assetUrl && rel.assets[i].size == x.assetByteSize)
    && x.url == rel.htmlUrl && x.releaseNotes == rel.body && x.name == rel.name
    && x.publishedAt == rel.publishedAt && x.repoOwner == owner && x.repoName == repo
  }

  lemma ValidatedComesFrom(c: Candidate, validator: Option<string>, owner: string, repo: string, x: Release)
    requires Validate(c, validator, owner, repo) == Some(x)
    ensures x.version == c.version && x.assetId == c.asset.id && x.assetUrl == c.asset.browserDownloadUrl
    ensures x.assetByteSize == c.asset.size && x.url == c.release.htmlUrl && x.releaseNotes == c.release.body
    ensures x.name == c.release.name && x.publishedAt == c.release.publishedAt
    ensures x.repoOwner == owner && x.repoName == repo
  {
  }

  /** Each candidate comes from an admitted release of the listing whose tag
      gives its version and whose assets include its asset. */
  lemma CandidateSource(rels: seq<RepositoryRelease>, version: string, filters: seq<Filter>,
                        platform: Platform, j: nat)
    requires j < |FindReleasesAndAssets(rels, version, filters, platform)|
    ensures var c := FindReleasesAndAssets(rels, version, filters, platform)[j];
            && c.release in rels && Admits(c.release, version)
            && ExtractVersion(c.release.tagName) == Some(c.version)
            && exists i :: 0 <= i < |c.release.assets| && c.release.assets[i] == c.asset
  {
    var cidx := DetectProperties.CandidatesInOrder(rels, version, filters, platform);
    var c := FindReleasesAndAssets(rels, version, filters, platform)[j];
    var m := FindAssetFromRelease(rels[cidx[j]], Suffixes(platform), version, filters);
    assert m == Some(Match(c.asset, c.version));
    assert FirstQualifying(c.release.assets, c.asset, Suffixes(platform), filters);
  }

  /** Every Release that `DetectVersions` offers comes from a listed release
      that the tag pin (or, without a pin, the draft and pre-release gating)
      admits, carrying that release's version and one of its assets. */
  lemma DetectVersionsProvenance(up: Updater, platform: Platform, slug: string, version: string,
                                 listReleases: (string, string) -> Listing, x: Release)
    requires DetectVersions(up, platform, slug, version, listReleases).Success?
    requires x in DetectVersions(up, platform, slug, version, listReleases).value
    ensures ParseSlug(slug).Some?
    ensures var listing := listReleases(ParseSlug(slug).value.0, ParseSlug(slug).value.1);
            exists rel :: rel in listing.releases && Admits(rel, version)
                          && ComesFrom(x, rel, ParseSlug(slug).value.0, ParseSlug(slug).value.1)
  {
    var owner := ParseSlug(slug).value.0;
    var repo := ParseSlug(slug).value.1;
    var listing := listReleases(owner, repo);
    var rs := DetectVersions(up, platform, slug, version, listReleases).value;
    assert listing.err.None?;
    var cands := FindReleasesAndAssets(listing.releases, version, up.filters, platform);
    assert rs == PairValidation(cands, up.validator, owner, repo);
    var k :| 0 <= k < |rs| && rs[k] == x;
    var vidx := DetectProperties.ValidatedInOrder(cands, up.validator, owner, repo);
    var j := vidx[k];
    ValidatedComesFrom(cands[j], up.validator, owner, repo, x);
    CandidateSource(listing.releases, version, up.filters, platform, j);
    assert ComesFrom(x, cands[j].release, owner, repo);
  }

  /** What one listed release contributes to `DetectVersions`: its
      candidate, if it has one, after validation pairing. */
  function OfferOf(rel: RepositoryRelease, up: Updater, platform: Platform, version: string,
                   owner: string, repo: string): Option<Release>
  {
    match CandidateOf(rel, Suffixes(platform), version, up.filters)
    case None => None
    case Some(c) => Validate(c, up.validator, owner, repo)
  }

  /** When the listing succeeds, the offered releases are exactly, in listing
      order, the contributions of the releases that contribute one: a
      release that passes the gate, has a qualifying asset and (with a
      validator) its companion asset is never left out. */
  lemma DetectVersionsOffers(up: Updater, platform: Platform, slug: string, version: string,
                             listReleases: (string, string) -> Listing) returns (idx: seq<nat>)
    requires ParseSlug(slug).Some?
    requires listReleases(ParseSlug(slug).value.0, ParseSlug(slug).value.1).err.None?
    ensures DetectVersions(up, platform, slug, version, listReleases).Success?
    ensures var owner := ParseSlug(slug).value.0;
            var repo := ParseSlug(slug).value.1;
            var rels := listReleases(owner, repo).releases;
            var out := DetectVersions(up, platform, slug, version, listReleases).value;
            && |idx| == |out|
            && (forall a, b :: 0 <= a < b < |idx| ==> idx[a] < idx[b])
            && (forall k :: 0 <= k < |idx| ==>
                  idx[k] < |rels| && OfferOf(rels[idx[k]], up, platform, version, owner, repo) == Some(out[k]))
            && (forall i :: 0 <= i < |rels| ==>
                  (OfferOf(rels[i], up, platform, version, owner, repo).Some? <==> i in idx))
  {
    var owner := ParseSlug(slug).value.0;
    var repo := ParseSlug(slug).value.1;
    var rels := listReleases(owner, repo).releases;
    var f := rel => CandidateOf(rel, Suffixes(platform), version, up.filters);
    var g := c => Validate(c, up.validator, owner, repo);
    var h := rel => OfferOf(rel, up, platform, version, owner, repo);
    assert DetectVersions(up, platform, slug, version, listReleases).value == Keep(Keep(rels, f), g);
    KeepChain(rels, f, g, h);
    idx := KeepInOrder(rels, h);
  }

  /** A release that passes the gate, has a qualifying asset and passes
      validation is offered. */
  lemma DetectVersionsComplete(up: Updater, platform: Platform, slug: string, version: string,
                               listReleases: (string, string) -> Listing, i: nat, x: Release)
    requires ParseSlug(slug).Some?
    requires listReleases(ParseSlug(slug).value.0, ParseSlug(slug).value.1).err.None?
    requires i < |listReleases(ParseSlug(slug).value.0, ParseSlug(slug).value.1).releases|
    requires OfferOf(listReleases(ParseSlug(slug).value.0, ParseSlug(slug).value.1).releases[i],
                     up, platform, version, ParseSlug(slug).value.0, ParseSlug(slug).value.1) == Some(x)
    ensures DetectVersions(up, platform, slug, version, listReleases).Success?
    ensures x in DetectVersions(up, platform, slug, version, listReleases).value
  {
    var idx := DetectVersionsOffers(up, platform, slug, version, listReleases);
    var k :| 0 <= k < |idx| && idx[k] == i;
  }

  /** A release found without a pinned version is never a draft or a
      pre-release. */
  lemma DetectLatestSkipsDraftsAndPrereleases(up: Updater, platform: Platform, slug: string,
                                              listReleases: (string, string) -> Listing, x: Release)
    requires DetectLatest(up, platform, slug, listReleases) == Success(Some(x))
    ensures ParseSlug(slug).Some?
    ensures var listing := listReleases(ParseSlug(slug).value.0, ParseSlug(slug).value.1);
            exists rel :: rel in listing.releases && !rel.draft && !rel.prerelease
                          && ComesFrom(x, rel, ParseSlug(slug).value.0, ParseSlug(slug).value.1)
  {
    DetectVersionsProvenance(up, platform, slug, "", listReleases, x);
  }
}
