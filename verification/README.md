# Release detection of go-github-selfupdate, in Dafny

This project models how go-github-selfupdate picks the release to update to
(`selfupdate/detect.go`):

- the repository slug `owner/name` is checked;
- the release listing is fetched, and a 404 counts as "no releases";
- each release is gated:
  - with a version pinned, only the release whose tag equals it passes;
  - otherwise drafts and pre-releases are skipped;
- the version is taken from the tag. The leftmost `\d+\.\d+\.\d+` marks where it starts, and the rest is parsed as a strict semantic version;
- the release's first asset that passes the name filters and ends in one of the platform suffixes is chosen;
- when a validator is configured, the asset must have a companion validation asset;
- the release with the greatest version is selected. Among equal versions the last one listed wins.

Modules:

- `Detect` (detect.dfy) holds the operations, one function per Go function.
- `DetectProperties` and `DetectProvenance` (detect_properties.dfy) hold the lemmas that relate several calls.
- `DetectExamples` (examples_detect.dfy) works the rules through on concrete tags, asset names and release lists.
- Supporting modules:
  - `AssetSuffixes`: the platform suffix list.
  - `VersionText`: the version pattern.
  - `SemVer` and `SemVerProperties`: strict semantic versions, their canonical text and their precedence.
  - `Subsequences`: the keep-if-found loop shape.
  - `Strings`, `Decimal` and `Lexicographic`: small text and ordering helpers.
  - `GitHub`: the API records the code reads.
  - `Wrappers`: `Option` and `Result`.

The environment becomes parameters:

- The release listing is a function `(owner, repo) -> Listing`. Its result holds the releases, the HTTP status when a response arrived, and the error text.
- `runtime.GOOS`/`runtime.GOARCH` are a `Platform` value.
- An asset filter (a compiled regular expression) is a predicate on asset names.
- The validator is represented by its `Suffix()` text.

## Model

| member | source | states |
|---|---|---|
| Detect.FindAssetFromRelease | selfupdate/detect.go:16-80 | A release not admitted by the pin/draft/pre-release gate gives nothing. A tag without a version match or with an unparsable version gives nothing. A result carries exactly the tag's extracted version and the first asset passing the filters and a suffix. Nothing is returned only if no asset qualifies. |
| Detect.FirstAsset | selfupdate/detect.go:52-79 | Absent exactly when no asset passes both the filters and a suffix. Otherwise it is the first asset that does, and every earlier asset fails. |
| Detect.AnyFilterMatches | selfupdate/detect.go:54-68 | True exactly when some filter accepts the asset name. |
| Detect.AnySuffixMatches | selfupdate/detect.go:70-75 | True exactly when the asset name ends with some suffix of the list. |
| Detect.FindValidationAsset | selfupdate/detect.go:82-89 | Absent exactly when no asset carries the name. Otherwise it is the first asset with exactly that name. |
| Detect.FindReleasesAndAssets | selfupdate/detect.go:97-121 | Never yields more candidates than there are releases. |
| DetectProperties.CandidatesInOrder | selfupdate/detect.go:111-120 | Candidates are exactly the releases for which an asset is found, in listing order. Each has that release's asset and version, and every such release contributes one. |
| DetectProvenance.CandidateSource | selfupdate/detect.go:114-117 | Every candidate's release is in the listing and admitted by the gate. Its tag gives the candidate's version, and the candidate's asset is one of its assets. |
| DetectProperties.PinnedIgnoresFlags | selfupdate/detect.go:19-31 | With a version pinned, the draft and pre-release flags make no difference. |
| AssetSuffixes.SuffixesLayout | selfupdate/detect.go:99-109 | The suffix list has 16 entries, or 32 on Windows. It is laid out separator-major then extension, with the `.exe` variant right after each entry on Windows. |
| AssetSuffixes.SuffixesMembers | selfupdate/detect.go:99-109 | A text is a suffix exactly when it is `GOOS`, a separator `_` or `-`, `GOARCH`, an optional `.exe` (Windows only) and one of the eight extensions, the empty one included. |
| VersionText.MatchesAtIffPattern | selfupdate/detect.go:14 | The greedy digit-run matcher succeeds at a position exactly when the pattern `\d+\.\d+\.\d+` has a match starting there. |
| VersionText.FindVersionIndex | selfupdate/detect.go:34-38 | Gives the leftmost position where the pattern matches, or nothing exactly when it matches nowhere. |
| VersionText.VersionText | selfupdate/detect.go:33-42 | Absent exactly when the tag has no match. Otherwise it is the tag's suffix from the leftmost match on: the prefix is dropped and the trailing text kept. |
| VersionText.ExtractVersion | selfupdate/detect.go:33-50 | Gives nothing for a tag without a match. For a tag with a match, the result is exactly the strict parse of the tag from its leftmost match, which may itself be nothing (for example `1.2.3.4`). |
| SemVer.ParseNumber | selfupdate/detect.go:46 | A numeric component parses exactly when it is digits without a leading zero, and its value prints back as the same text. |
| SemVerProperties.ParseFormat | selfupdate/detect.go:46-50 | Every well-formed version parses back from its canonical text. |
| SemVerProperties.FormatParse | selfupdate/detect.go:46-50 | Any text the strict parser accepts is the canonical text of the parsed version. |
| SemVerProperties.GTETotal | selfupdate/detect.go:190 | Of any two versions one is greater than or equal to the other, and "not GTE" means strictly below. |
| SemVerProperties.GTETransitive | selfupdate/detect.go:190 | Greater-or-equal is transitive. |
| SemVerProperties.PrereleaseBelowRelease | selfupdate/detect.go:190 | A pre-release sorts strictly below the same version without a pre-release. |
| SemVerProperties.BuildIgnored | selfupdate/detect.go:190 | Build metadata does not affect precedence. |
| Detect.ParseSlug | selfupdate/detect.go:134-137 | An accepted slug is two non-empty parts without `/` joined by `/`. |
| DetectProperties.SlugRoundTrip | selfupdate/detect.go:134-137 | Every `owner/name` with non-empty parts free of `/` is accepted and gives back its parts. |
| Detect.Validate | selfupdate/detect.go:155-176 | Without a validator, the candidate becomes a release whose validation asset is the sentinel. With a validator, the candidate is dropped exactly when its release has no asset named asset name + validator suffix. Otherwise it carries the id of the first asset with that name. |
| DetectProvenance.ValidatedComesFrom | selfupdate/detect.go:150-176 | A release built from a candidate copies the candidate's version, its asset's id, URL and size, and its release's URL, notes, name and date, and records the owner and repo. |
| Detect.PairValidation | selfupdate/detect.go:150-178 | The validated list is never longer than the candidate list. Its content and order are stated by `DetectProperties.ValidatedInOrder`. |
| DetectProperties.ValidatedInOrder | selfupdate/detect.go:150-178 | The validated releases are exactly the candidates that pass validation, in candidate order. |
| DetectProperties.NoValidatorKeepsAll | selfupdate/detect.go:168 | Without a validator every candidate is kept, in order, and each one's validation asset is the `-1` sentinel. |
| Detect.DetectVersions | selfupdate/detect.go:133-180 | A bad slug fails with the slug error before any listing. A listing error with status 404 gives an empty list and no error, and any other listing error is passed on. Otherwise the result is a list no longer than the listing. |
| DetectProvenance.DetectVersionsOffers | selfupdate/detect.go:150-179 | When the listing succeeds, the offered releases are exactly the contributions of the listed releases, in listing order. A release contributes when it passes the gate, has a qualifying asset and, with a validator, its companion asset. Every such release is offered, and nothing else is. |
| DetectProvenance.DetectVersionsComplete | selfupdate/detect.go:150-179 | A listed release that contributes a release after validation is among those offered. |
| DetectProvenance.DetectVersionsProvenance | selfupdate/detect.go:133-180 | Every offered release comes from a listed release that the gate admits: its tag gives the offered version, and one of its assets is the offered asset. |
| Detect.DetectVersion | selfupdate/detect.go:184-196 | Errors are passed on. "Not found" means exactly that no release was offered. A found release is the last of the offered releases holding a greatest version. |
| Detect.BestIndex | selfupdate/detect.go:189-194 | The selection loop ends on no release exactly when the list is empty, and otherwise on a position inside the list. |
| Detect.SelectBest | selfupdate/detect.go:189-195 | Nothing is selected exactly when the list is empty. A selected release is the last one in the list holding a greatest version. |
| Detect.BestIndexIsLastMax | selfupdate/detect.go:189-194 | The loop ends on a release whose version is at least every other's, and after which every release is strictly lower. |
| DetectProperties.BestIndexIffLastMax | selfupdate/detect.go:189-194 | The loop ends on position k exactly when k is the last position holding a greatest version. |
| DetectProperties.DetectVersionPicksLastMax | selfupdate/detect.go:184-196 | When some release is offered, one is found: a greatest version, the last of its equals. |
| DetectProvenance.DetectLatestSkipsDraftsAndPrereleases | selfupdate/detect.go:129-131 | The latest release found comes from a listed release that is neither a draft nor a pre-release. |
| DetectExamples.PrefixedTag | selfupdate/detect.go:39-42 | Tag `v1.2.3` gives version 1.2.3 with no pre-release. |
| DetectExamples.PrereleaseTag | selfupdate/detect.go:33-50 | Tag `1.2.3-rc1` gives version 1.2.3 with pre-release `rc1`. |
| DetectExamples.UnversionedTag | selfupdate/detect.go:35-38 | Tag `nightly` gives no version. |
| DetectExamples.ArchiveAsset | selfupdate/detect.go:99-109 | `tool_linux_amd64.tar.gz` matches the linux/amd64 suffixes. |
| DetectExamples.BareAsset | selfupdate/detect.go:101 | `tool_linux_amd64` matches through the empty extension. |
| DetectExamples.DashAsset | selfupdate/detect.go:100 | `tool-linux-amd64.zip` matches through the `-` separator. |
| DetectExamples.PrereleaseOnlyWhenPinned | selfupdate/detect.go:19-31 | A pre-release is rejected by the gate and gives no asset when looking for the latest release. When its own tag is pinned, the gate admits it, and a versioned tag with a qualifying asset gives a match. |
| DetectExamples.HighestWins | selfupdate/detect.go:189-194 | Of 1.0.0, 1.2.0 and 1.1.0, the 1.2.0 release is selected. |
| DetectExamples.LaterTieWins | selfupdate/detect.go:189-194 | Of two releases of 2.0.0, the later one is selected. |
| DetectExamples.MalformedSlug | selfupdate/detect.go:134-137 | `onlyonepart` fails with the slug error, whatever the listing would return. |

## Left out

- Logging (`log.Println` and `log.Printf`) has no observable effect on the results and is not modelled.
- The GitHub client, `context.Context` and `DefaultUpdater` are not modelled. The listing is a function parameter, so its pagination, authentication and transport are outside the model.
- The package-level `DetectLatest` and `DetectVersion` (lines 200-207) only build the default updater and call the methods. They are not modelled separately.
- Filters are predicates on the asset name. The regular-expression engine behind `MatchString` is not modelled.
- Semantic-version parsing follows the algorithm of `github.com/blang/semver`. That library is not part of this model. Two simplifications:
  - numeric parts are unbounded, so its 64-bit overflow error is not modelled;
  - a version is built only from well-formed parts, as `semver.Make` validates them.
- The publication time is an integer copied unchanged. The `github.Timestamp` to `time.Time` conversion is not modelled.
- The nil-safe getters (`GetName`, `GetTagName`, …) that return zero values for nil fields are not modelled. Every field is present.
- `Detect.FindReleasesAndAssets`: its own contract gives only the length bound. Its content and order are stated by `DetectProperties.CandidatesInOrder`.
- `Detect.DetectVersions`: on success its own contract gives only the length bound. Which releases are offered, and in what order, is stated by `DetectProvenance.DetectVersionsOffers` and `DetectProvenance.DetectVersionsProvenance`.
- `Detect.PairValidation`: its own contract gives only the length bound. Its content and order are stated by `DetectProperties.ValidatedInOrder`.
- `Detect.BestIndex`: its own contract does not say which position the loop ends on. That is stated by `Detect.BestIndexIsLastMax` and `DetectProperties.BestIndexIffLastMax`.
- `Detect.DetectLatest` has no contract of its own, since it only calls `DetectVersion` with no pinned version. What it finds is stated by `DetectProvenance.DetectLatestSkipsDraftsAndPrereleases`, and by the contract of `Detect.DetectVersion`.
- The suffix count follows the code: two separators times eight extensions, so 16, or 32 on Windows. The capacity hint `2*7*2` on line 99 counts seven extensions, so fourteen and twenty-eight. That count forgets the empty extension.
- The validation asset id keeps the code's `-1` sentinel (`Detect.NoValidationAsset`) rather than an optional field, so the model matches the code.
- The code leaves the listing order as it is. The model proves that the last of equal versions wins, but cannot say whether that is the most recent release, because the API's ordering is outside the model.
