# allbranding `query`: a Dafny model

`allbranding query` reads a GitHub-style release feed (a JSON array of
releases, each with a `tag_name` and a list of assets with a
`browser_download_url`) and prints `{"version": …, "browser_download_url": …}`
for the newest release that has an asset whose file name matches a pattern.
This project models the decision logic of that run, `query.Run` and
`parseVersion` in `query/query.go`, stage by stage:

1. **Cache policy** (`Cache`): the feed is cached in
   `<tmp>/allbranding/releases_<hex sha256 of the URL>.json`. A cached copy is
   used only when caching is on, the file exists and is strictly younger than
   one hour. A fetched feed is written back only when caching is on. The
   stage is a method over a `World` (the answers of `os.Stat`, `os.ReadFile`,
   `http.Get`/`io.ReadAll`, `os.MkdirAll`, `os.WriteFile`). It returns the
   bytes to decode or the error that ends the run, plus the trace of calls it
   made. `LoadResult` is the same outcome written as a decision table.
2. **Lenient version strings** (`Versions.ParseVersion`): with `parseHarder`,
   every character outside `[0-9.]` is deleted. Otherwise the tag is used as is.
3. **Ignore filter** (`IgnoreFilter`): a release is kept iff no ignore pattern
   matches its tag. Kept releases stay in feed order.
4. **Version sort** (`Sorting`): an in-place sort of an array of releases by
   the source's comparator. The comparator says "before" only when both tags
   parse and the first version is greater.
5. **Asset selection** (`AssetSelection`): releases are scanned in sorted
   order, and each release's assets in feed order. An asset qualifies when the
   asset pattern matches `filepath.Base` of its URL (`FilePath.Base`). The
   scan stops at the first qualifying release whose tag is non-empty.
6. **The run** (`Query.Run`): the stages in the source's order. A `Success`
   result is the record the run prints; every `Failure` is an early return
   that prints nothing.

The libraries the run calls are passed in as functions (`Query.Library`):
SHA-256, the JSON decoder, `regexp.Compile` (`compiles`), `MatchString`
(`matchString(pattern, s)`, an unanchored search), `version.NewVersion`
(`newVersion`, `None` on a parse error) and `Version.GreaterThan`
(`greaterThan`). Nothing about these functions is assumed for the run as a
whole. The ordering facts alone (the sorted order, the newest winner) are
stated under a hypothesis: the comparator is a strict weak order on the
parsed releases being sorted (`VersionOrder.LawfulOn`). This is an assumption
about go-version rather than a property of code in this repository, and
whether go-version meets it, in strict mode especially, where tags may carry
prerelease or metadata suffixes, is not established here. Because it ranges
only over the kept releases, in lenient mode it concerns only versions written
with digits and dots. A strict weak order on all versions
(`VersionOrder.Lawful`) implies it (`Versions.LawfulIsLawfulOn`). Lowercase `%x` hex formatting
is modelled (`Cache.Hex`). Go's `sort.Slice` algorithm is replaced by an
insertion sort with the same comparator.

## Model

| member | source | states |
|---|---|---|
| `Seqs.Filter` | query/query.go:98-110 | the kept sequence is never longer than the input and holds only elements that pass the test |
| `Seqs.FilterUnique` | query/query.go:161-167 | a subsequence that holds only kept elements, and every occurrence of each kept value, equals the filter |
| `Versions.ParseVersion` | query/query.go:161-167 | the normalised tag is never longer than the tag; in lenient mode it holds only `0`-`9` and `.` |
| `Versions.StrictParseIsIdentity` | query/query.go:165-166 | in strict mode the tag is returned unchanged |
| `Versions.LenientParseKeepsVersionChars` | query/query.go:162-164 | lenient output is a subsequence of the tag (original order) and keeps each `[0-9.]` character exactly as often as it occurs, and nothing else |
| `Versions.LenientParseIsTheVersionCharSubsequence` | query/query.go:162-164 | conversely, any subsequence of the tag made of all its `[0-9.]` characters and only those is the lenient output |
| `Versions.LenientParseIdempotent` | query/query.go:163-164 | normalising twice equals normalising once |
| `Versions.LenientParseFixedPoints` | query/query.go:163-164 | a tag is unchanged by lenient normalisation iff it is made only of digits and dots |
| `Versions.LenientParseExample` | query/query.go:163-164 | "release-3" normalises to "3" |
| `Versions.UnparsedIsIncomparable` | query/query.go:113-122 | if either tag fails to parse, the comparator is false in both directions |
| `Versions.VersionOrder.Key` | query/query.go:113-118 | no ensures of its own: the parsed version of a tag after `parseVersion`, `None` on a parse error; pinned down by the `ParseVersion` lemmas |
| `Versions.VersionOrder.Less` | query/query.go:112-125 | no ensures of its own: the `sort.Slice` comparator; see `UnparsedIsIncomparable` and `LessIsStrictWeakOrder` |
| `Versions.LawfulIsLawfulOn` | query/query.go:124 | a `GreaterThan` that is a strict weak order on all versions makes the comparator lawful on the releases of any list |
| `Versions.LessIsStrictWeakOrder` | query/query.go:112-125 | on the parsed releases of a list where the hypothesis holds, the comparator is irreflexive, asymmetric, transitive, and its complement is transitive |
| `FilePath.Base` | query/query.go:136 | no ensures of its own: `filepath.Base` with '/' as separator; see `BaseIsLastSegmentOfTrimmed`, `BaseShape`, `BaseOfJoin`, `BaseIgnoresTrailingSlash`, `BaseIdempotent` |
| `FilePath.TrimTrailingSlashesShape` | query/query.go:136 | trimming removes exactly the run of trailing slashes |
| `FilePath.LastSegmentShape` | query/query.go:136 | the last segment is a slash-free suffix preceded by '/' unless it is the whole string |
| `FilePath.BaseIsLastSegmentOfTrimmed` | query/query.go:136 | Base is "." for "", "/" for a path of slashes only, and otherwise the last segment of the path without trailing slashes |
| `FilePath.BaseShape` | query/query.go:136 | Base is never empty and has no '/' unless it is "/" |
| `FilePath.BaseOfJoin` | query/query.go:136 | the base of `dir + "/" + name` is `name` for a non-empty slash-free name |
| `FilePath.BaseIgnoresTrailingSlash` | query/query.go:136 | a trailing slash does not change the base of a non-empty path |
| `FilePath.BaseIdempotent` | query/query.go:136 | the base of a base is itself |
| `Cache.HexDigit` | query/query.go:34 | a nibble prints as a lower-case hex digit |
| `Cache.Hex` | query/query.go:34 | `%x` prints two lower-case hex digits per byte |
| `Cache.HexInjective` | query/query.go:34 | distinct digests print differently |
| `Cache.CacheFileNameShape` | query/query.go:34 | the cache file name is `releases_` + hex + `.json`, contains no '/', and distinct digests give distinct names |
| `Cache.CacheFileName` | query/query.go:34 | no ensures of its own: `releases_%x.json` of the digest; see `CacheFileNameShape` |
| `Cache.LoadResult` | query/query.go:39-84 | no ensures of its own: the first stage as a decision table; `LoadReleasesData` is proved equal to it, and `CacheUsedIff` and `FreshnessBoundary` state its cache rule |
| `Cache.CacheUsedIff` | query/query.go:39-53 | cached bytes are used iff caching is on, the file exists, its age is below one hour and it can be read |
| `Cache.FreshnessBoundary` | query/query.go:47 | an entry aged exactly one hour is stale; one a nanosecond younger is fresh |
| `Cache.LoadReleasesData` | query/query.go:33-84 | the stage's outcome is `LoadResult`; the directory created is the cache directory and every other file call names this feed's cache file; with caching off the only call is the fetch; a fresh readable cache is neither fetched over nor rewritten; the feed is fetched iff caching is off, the first stat fails, or both stats succeed and the copy is at least one hour old (a failed second stat ends the stage with neither a read nor a fetch); only the fetched bytes are written, and a successful fetch is written back whenever caching is on |
| `IgnoreFilter.Ignored` | query/query.go:100-106 | no ensures of its own: some ignore pattern matches the tag; see `KeptIffNotIgnored` |
| `IgnoreFilter.Kept` | query/query.go:98-110 | no ensures of its own: the filtered feed as a function, the `Seqs.Filter` of the unignored releases; see `FilterReleases`, `KeptIsOrderPreserving`, `KeptIffNotIgnored`, `NoPatternsKeepsAll` |
| `IgnoreFilter.FilterReleases` | query/query.go:98-110 | the nested loop with its `break` yields exactly the releases that no ignore pattern matches, in feed order |
| `IgnoreFilter.KeptIsOrderPreserving` | query/query.go:98-110 | the kept releases are a subsequence of the feed |
| `IgnoreFilter.KeptIffNotIgnored` | query/query.go:99-109 | a release is kept iff no pattern matches its tag, with its feed multiplicity |
| `IgnoreFilter.NoPatternsKeepsAll` | query/query.go:98-110 | with no ignore patterns every release is kept, in order |
| `Sorting.Swap` | query/query.go:112 | two neighbouring releases are exchanged and nothing else changes |
| `Sorting.SortReleases` | query/query.go:112-125 | the array ends as a permutation of its old contents; if the comparator is a strict weak order on the releases in the array and every tag parses, versions are non-increasing |
| `AssetSelection.FirstMatch` | query/query.go:135-140 | the result is the least index of a qualifying asset, or None iff no asset qualifies |
| `AssetSelection.ScanAssets` | query/query.go:135-141 | the inner loop finds an asset iff one qualifies, and then returns the URL of the first one |
| `AssetSelection.SelectAsset` | query/query.go:133-145 | the first release with a non-empty tag and a qualifying asset wins, with its first qualifying asset; with no such release the version is ""; the URL is then the last empty-tagged qualifier's, or "" when nothing qualifies |
| `AssetSelection.FirstDecisiveExists` | query/query.go:142-144 | if some release would stop the scan, a first such release exists |
| `AssetSelection.LastMatchExists` | query/query.go:134-145 | if some release among the first `n` has a qualifying asset, a last such release exists |
| `Query.MustCompileAll` | query/query.go:93-96 | the compile loop succeeds iff every ignore pattern compiles |
| `Query.FirstDecisiveIsNewest` | query/query.go:112-145 | in a version-sorted list, the first release that stops the scan has the greatest version among all releases that would |
| `Query.SelectionFacts` | query/query.go:133-158 | the printed record is empty when no kept release qualifies; the version is non-empty iff a kept release has a non-empty tag and a qualifying asset; it is then such a release of the feed that no pattern ignores, with its first qualifying URL |
| `Query.WinnerIsNewest` | query/query.go:112-145 | when the comparator is a strict weak order on the kept releases and every kept tag parses, a printed non-empty version is that of a decisive kept release with the greatest version among those that have a non-empty tag and a qualifying asset, with its first qualifying URL |
| `Query.EmptyVersionFacts` | query/query.go:133-145 | when the version is "" but some kept release qualifies, the printed URL is the first qualifying URL of a kept release with an empty tag |
| `Query.Run` | query/query.go:29-159 | errors come in stage order (cache and fetch, decode, ignore pattern, asset regex); output is produced iff every stage succeeds; the printed record is as `SelectionFacts`, `EmptyVersionFacts` and `WinnerIsNewest` state, including the URL printed beside an empty version; the environment is touched only through a fetch of the feed URL, creation of the cache directory and calls on the feed's cache file; with caching off only the fetch happens; a fresh readable cache prevents the fetch; the feed is fetched iff caching is off, the first stat fails, or both stats succeed and the copy is stale; the cache file is written only after a fetch with caching on, and a successful fetch with caching on is always written to it |

## Left out

- Network, file system and clock: `http.Get`, `io.ReadAll`, `os.Stat`, `os.ReadFile`, `os.MkdirAll`, `os.WriteFile`, `time.Since`. Their answers are inputs (`Cache.World`). The calls are recorded in a trace, not performed.
- Path joining: `filepath.Join(os.TempDir(), "allbranding", …)` is not modelled. The trace names the cache file by its base name.
- `time.Duration` is `int64` nanoseconds. The age is an unbounded `int`, and saturation of `time.Since` is not modelled. A modification time in the future gives a negative age, which counts as fresh, as in the source.
- SHA-256, JSON decoding, the regexp engine and go-version are passed-in functions with no properties assumed. The ordering facts of `Sorting.SortReleases`, `Query.WinnerIsNewest` and `Query.Run` carry the hypothesis that the comparator is a strict weak order on the kept releases (`VersionOrder.LawfulOn`); where go-version's comparison is not one on them, those facts say nothing.
- `filepath.Base` is modelled with '/' as the only separator (`FilePath.Base`), as on Unix. On Windows Go also splits at `\` and drops a volume name such as `C:`; that variant is not modelled.
- `regexp.MustCompile` panics on an invalid ignore pattern. The model returns `InvalidIgnorePattern` instead. In both cases nothing is printed.
- Result shaping: `json.Marshal` of a `map[string]string` cannot fail, so its error branch is not modelled. JSON escaping and key order of the printed line are left out; the result is the pair of strings.
- `defer resp.Body.Close()`, `slog` logging and the "invalid version" warnings have no effect on the result and are left out.
- `cmd/query.go` (flag registration and binding, `os.Exit`) is CLI plumbing and is not part of this model.
- Sorting.SortReleases: Go's `sort.Slice` (pattern-defeating quicksort, not stable) is replaced by an insertion sort with the same comparator. Only what holds for any correct sort is promised: a permutation, and non-increasing versions when every tag parses and the comparator is a strict weak order on them. Which of several equal-version releases comes first, and where unparseable tags end up, are not stated.

## Where the code departs from its evident intent

A natural reading of the tool's purpose is that invalid patterns are rejected before any work is done, that both printed fields are set together, and that releases with unparseable tags sort last. `query/query.go` does otherwise, and the model follows the code:

- Invalid patterns are not rejected up front. Ignore patterns are compiled after the feed is fetched (and cached) and decoded (query/query.go:93-96). The asset pattern is compiled after filtering and sorting (query/query.go:127-131).
- A failed second `os.Stat`, or a failed `os.MkdirAll` or `os.WriteFile`, ends the run with nothing printed, even when a fetched feed is in hand (query/query.go:41-45, 71-83). Any error from the first `os.Stat` counts as "no cache file".
- The scan stops only when `version != ""` (query/query.go:142). A qualifying release with an empty tag sets the URL but not the version, and the scan goes on. The two printed fields are therefore not always set together: without a later decisive release the output is `version: ""` with the URL of the last empty-tagged qualifier.
- Unparseable tags are not sorted last. The comparator treats them as incomparable with everything, so their final position depends on the sort algorithm (query/query.go:113-122). `sort.Slice` is not stable either.
