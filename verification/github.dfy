/** The parts of the hosting platform's release listing that the selection
    logic reads (go-github's `RepositoryRelease` and `ReleaseAsset`), and
    the listing call's result. Fields the logic only copies through are kept
    as opaque values. */
module GitHub {
  import opened Wrappers

  datatype ReleaseAsset = ReleaseAsset(
    id: int,
    name: string,
    browserDownloadUrl: string,
    size: int)

  datatype RepositoryRelease = RepositoryRelease(
    tagName: string,
    name: string,
    body: string,
    htmlUrl: string,
    publishedAt: int,
    draft: bool,
    prerelease: bool,
    assets: seq<ReleaseAsset>)

  /** What `Repositories.ListReleases` hands back: the releases in the order
      the platform lists them, the HTTP status of the response if there was
      one, and the error if the call failed. */
  datatype Listing = Listing(
    releases: seq<RepositoryRelease>,
    status: Option<int>,
    err: Option<string>)

  const StatusNotFound: int := 404
}
