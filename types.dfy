/**
 * The entities of the release feed (query/query.go:20-27), the selection
 * result and the ways a run can end without printing anything.
 */
module Types {

  newtype byte = x: int | 0 <= x < 256

  type Bytes = seq<byte>

  /** One downloadable file of a release. */
  datatype Asset = Asset(browserDownloadURL: string)

  /** One entry of the feed: its tag and its assets in feed order. */
  datatype Release = Release(tagName: string, assets: seq<Asset>)

  /** The record printed by a successful run: `version` and `browser_download_url`. */
  datatype Selection = Selection(version: string, assetURL: string)

  /** Each early `return` of the query run, and the `MustCompile` panic. */
  datatype Failure =
    | StatFailed           // second os.Stat of the cache file failed
    | CacheReadFailed      // os.ReadFile of a fresh cache file failed
    | FetchFailed          // http.Get failed
    | BodyReadFailed       // io.ReadAll of the response body failed
    | CacheDirFailed       // os.MkdirAll of the cache directory failed
    | CacheWriteFailed     // os.WriteFile of the cache file failed
    | DecodeFailed         // the payload is not a JSON array of releases
    | InvalidIgnorePattern // regexp.MustCompile panics on an ignore pattern
    | InvalidAssetRegex    // regexp.Compile rejects the asset pattern
}
