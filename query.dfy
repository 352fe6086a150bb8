/**
 * One query run (query/query.go:29-159): obtain the feed through the cache,
 * decode it, drop ignored tags, sort by version, pick the first matching
 * asset and report it. Every error ends the run with nothing printed; a
 * `Success` result is the one record the run prints.
 */
module Query {
  import opened Wrappers
  import opened Types
  import opened Versions
  import Cache
  import IgnoreFilter
  import Sorting
  import AssetSelection

  /** The command-line settings of a run. */
  datatype Config = Config(
    releasesURL: string,
    assetRegex: string,
    noCache: bool,
    parseHarder: bool,
    ignoreRegex: seq<string>)

  /**
   * The libraries the run calls, as functions: the SHA-256 digest of a URL,
   * the JSON decoder for the feed, whether `regexp.Compile` accepts a pattern,
   * `MatchString` of a pattern against a string, `version.NewVersion` and
   * `Version.GreaterThan`.
   */
  datatype Library<!V(!new)> = Library(
    sha256: string -> seq<byte>,
    decodeReleases: Bytes -> Option<seq<Release>>,
    compiles: string -> bool,
    matchString: (string, string) -> bool,
    newVersion: string -> Option<V>,
    greaterThan: (V, V) -> bool)
  {
    /** The sort comparator of a run in the given parsing mode. */
    function Order(parseHarder: bool): VersionOrder<V> {
      VersionOrder(newVersion, greaterThan, parseHarder)
    }
  }

  /** Every pattern compiles. */
  predicate AllCompile(patterns: seq<string>, compiles: string -> bool) {
    forall i :: 0 <= i < |patterns| ==> compiles(patterns[i])
  }

  /** The compile loop over the ignore patterns; `false` where `MustCompile` panics. */
  method MustCompileAll(patterns: seq<string>, compiles: string -> bool) returns (ok: bool)
    ensures ok <==> AllCompile(patterns, compiles)
  {
    var i := 0;
    while i < |patterns|
      invariant 0 <= i <= |patterns|
      invariant forall k :: 0 <= k < i ==> compiles(patterns[k])
    {
      if !compiles(patterns[i]) {
        return false;
      }
      i := i + 1;
    }
    return true;
  }

  /** The decoded feed, when fetching or reading it and decoding it succeed. */
  function Feed<V(!new)>(cfg: Config, lib: Library<V>, world: Cache.World): Option<seq<Release>> {
    var loaded := Cache.LoadResult(cfg.noCache, world);
    if loaded.Failure? then None else lib.decodeReleases(loaded.value.data)
  }

  /** The releases that survive the ignore filter. */
  function KeptFeed<V(!new)>(cfg: Config, lib: Library<V>, world: Cache.World): seq<Release>
    requires Feed(cfg, lib, world).Some?
  {
    IgnoreFilter.Kept(Feed(cfg, lib, world).value, cfg.ignoreRegex, lib.matchString)
  }

  /**
   * `w` is a kept release that stops the selection scan and no other such
   * release has a greater version (meaningful when every kept tag parses).
   */
  ghost predicate NewestDecisive<V(!new)>(w: Release, kept: seq<Release>, order: VersionOrder<V>,
                                         assetRegex: string, matchString: (string, string) -> bool) {
    && w in kept
    && AssetSelection.Decisive(w, assetRegex, matchString)
    && forall o :: o in kept && AssetSelection.Decisive(o, assetRegex, matchString) ==> !order.Less(o, w)
  }

  /**
   * In a list sorted by non-increasing version, the first release that stops
   * the scan has the greatest version among all releases that would.
   */
  lemma FirstDecisiveIsNewest<V(!new)>(sorted: seq<Release>, kept: seq<Release>, i: int, order: VersionOrder<V>,
                                       assetRegex: string, matchString: (string, string) -> bool)
    requires order.LawfulOn(kept)
    requires multiset(sorted) == multiset(kept)
    requires order.AllParse(kept)
    requires order.SortedDescending(sorted)
    requires AssetSelection.FirstDecisiveAt(sorted, i, assetRegex, matchString)
    ensures NewestDecisive(sorted[i], kept, order, assetRegex, matchString)
  {
    assert sorted[i] in multiset(kept);
    forall o | o in kept && AssetSelection.Decisive(o, assetRegex, matchString)
      ensures !order.Less(o, sorted[i])
    {
      assert o in multiset(sorted);
      var j :| 0 <= j < |sorted| && sorted[j] == o;
      if j == i {
        LessIsStrictWeakOrder(order, kept, o, o, o);
      }
    }
  }

  /** The query run. */
  method Run<V(!new)>(cfg: Config, lib: Library<V>, world: Cache.World)
    returns (out: Result<Selection, Failure>, trace: seq<Cache.IoOp>)
    // Errors, in the order the stages meet them.
    ensures Cache.LoadResult(cfg.noCache, world).Failure? ==>
              out == Failure(Cache.LoadResult(cfg.noCache, world).error)
    ensures Cache.LoadResult(cfg.noCache, world).Success? && Feed(cfg, lib, world).None? ==>
              out == Failure(DecodeFailed)
    ensures Feed(cfg, lib, world).Some? && !AllCompile(cfg.ignoreRegex, lib.compiles) ==>
              out == Failure(InvalidIgnorePattern)
    ensures Feed(cfg, lib, world).Some? && AllCompile(cfg.ignoreRegex, lib.compiles)
            && !lib.compiles(cfg.assetRegex) ==>
              out == Failure(InvalidAssetRegex)
    // Something is printed iff every stage succeeds.
    ensures out.Success? <==>
              Feed(cfg, lib, world).Some? && AllCompile(cfg.ignoreRegex, lib.compiles) && lib.compiles(cfg.assetRegex)
    // What is printed.
    ensures out.Success? ==>
              var kept := KeptFeed(cfg, lib, world);
              && ((forall r :: r in kept ==> !AssetSelection.HasMatch(r, cfg.assetRegex, lib.matchString)) ==>
                    out.value == Selection("", ""))
              && ((exists r :: r in kept && AssetSelection.Decisive(r, cfg.assetRegex, lib.matchString)) <==>
                    out.value.version != "")
              && (out.value.version != "" ==> exists w ::
                    && w in Feed(cfg, lib, world).value
                    && !IgnoreFilter.Ignored(w.tagName, cfg.ignoreRegex, lib.matchString)
                    && AssetSelection.Decisive(w, cfg.assetRegex, lib.matchString)
                    && out.value == Selection(w.tagName, AssetSelection.MatchURL(w, cfg.assetRegex, lib.matchString)))
              && (out.value.version == "" && (exists r :: r in kept && AssetSelection.HasMatch(r, cfg.assetRegex, lib.matchString)) ==>
                    exists w ::
                      && w in kept
                      && w.tagName == ""
                      && AssetSelection.HasMatch(w, cfg.assetRegex, lib.matchString)
                      && out.value.assetURL == AssetSelection.MatchURL(w, cfg.assetRegex, lib.matchString))
    // When the comparator is a strict weak order on the kept releases and every kept tag parses,
    // the winner is the newest.
    ensures out.Success? && out.value.version != "" && lib.Order(cfg.parseHarder).LawfulOn(KeptFeed(cfg, lib, world))
            && lib.Order(cfg.parseHarder).AllParse(KeptFeed(cfg, lib, world)) ==>
              exists w ::
                && NewestDecisive(w, KeptFeed(cfg, lib, world), lib.Order(cfg.parseHarder), cfg.assetRegex, lib.matchString)
                && out.value == Selection(w.tagName, AssetSelection.MatchURL(w, cfg.assetRegex, lib.matchString))
    // The environment is only touched by the first stage, and only through the
    // feed's URL, the cache directory and the feed's cache file.
    ensures forall op :: op in trace ==>
              if op.HttpGet? then op.url == cfg.releasesURL
              else if op.MkdirAll? then op.dir == Cache.CACHE_DIR
              else op.file == Cache.CacheFileName(lib.sha256(cfg.releasesURL))
    ensures cfg.noCache ==> trace == [Cache.HttpGet(cfg.releasesURL)]
    ensures Cache.UsesCache(cfg.noCache, world) && world.readFile.Some? ==>
              Cache.HttpGet(cfg.releasesURL) !in trace
    // The feed is fetched iff caching is off, the first stat fails, or both stats
    // succeed and the cached copy is stale.
    ensures Cache.HttpGet(cfg.releasesURL) in trace <==>
              !(!cfg.noCache && world.statOk && (world.restat.None? || Cache.IsFresh(world.restat.value)))
    // With caching on, a successfully fetched feed is written to the cache file.
    ensures Cache.LoadResult(cfg.noCache, world).Success? && !Cache.LoadResult(cfg.noCache, world).value.fromCache
            && !cfg.noCache ==>
              Cache.WriteFile(Cache.CacheFileName(lib.sha256(cfg.releasesURL)),
                              Cache.LoadResult(cfg.noCache, world).value.data) in trace
    ensures forall op :: op in trace && op.WriteFile? ==>
              !cfg.noCache && Cache.HttpGet(cfg.releasesURL) in trace
  {
    var cacheFile := Cache.CacheFileName(lib.sha256(cfg.releasesURL));
    var loaded;
    loaded, trace := Cache.LoadReleasesData(cfg.releasesURL, cacheFile, cfg.noCache, world);
    if loaded.Failure? {
      return Failure(loaded.error), trace;
    }
    var decoded := lib.decodeReleases(loaded.value.data);
    if decoded.None? {
      return Failure(DecodeFailed), trace;
    }
    var releases := decoded.value;

    var compiled := MustCompileAll(cfg.ignoreRegex, lib.compiles);
    if !compiled {
      return Failure(InvalidIgnorePattern), trace;
    }
    var kept := IgnoreFilter.FilterReleases(releases, cfg.ignoreRegex, lib.matchString);

    var order := lib.Order(cfg.parseHarder);
    var a := new Release[|kept|](i requires 0 <= i < |kept| => kept[i]);
    assert a[..] == kept;
    Sorting.SortReleases(a, order);
    var sorted := a[..];

    if !lib.compiles(cfg.assetRegex) {
      return Failure(InvalidAssetRegex), trace;
    }
    var sel := AssetSelection.SelectAsset(sorted, cfg.assetRegex, lib.matchString);
    out := Success(sel);

    forall r | r in kept ensures r in releases && !IgnoreFilter.Ignored(r.tagName, cfg.ignoreRegex, lib.matchString) {
      IgnoreFilter.KeptIffNotIgnored(releases, cfg.ignoreRegex, lib.matchString, r);
    }
    SelectionFacts(sorted, kept, releases, sel, cfg.ignoreRegex, cfg.assetRegex, lib.matchString);
    EmptyVersionFacts(sorted, kept, sel, cfg.assetRegex, lib.matchString);
    if order.LawfulOn(kept) && order.AllParse(kept) {
      WinnerIsNewest(sorted, kept, sel, order, cfg.assetRegex, lib.matchString);
    }
  }

  /** The facts about the printed record that `Run` promises, from the stage contracts. */
  lemma SelectionFacts(sorted: seq<Release>, kept: seq<Release>, releases: seq<Release>, sel: Selection,
                       ignoreRegex: seq<string>, assetRegex: string, matchString: (string, string) -> bool)
    requires forall r :: r in kept ==> r in releases && !IgnoreFilter.Ignored(r.tagName, ignoreRegex, matchString)
    requires multiset(sorted) == multiset(kept)
    requires forall i :: AssetSelection.FirstDecisiveAt(sorted, i, assetRegex, matchString) ==>
               sel == Selection(sorted[i].tagName, AssetSelection.MatchURL(sorted[i], assetRegex, matchString))
    requires (forall i :: 0 <= i < |sorted| ==> !AssetSelection.Decisive(sorted[i], assetRegex, matchString))
               ==> sel.version == ""
    requires (forall i :: 0 <= i < |sorted| ==> !AssetSelection.HasMatch(sorted[i], assetRegex, matchString))
               ==> sel == Selection("", "")
    ensures (forall r :: r in kept ==> !AssetSelection.HasMatch(r, assetRegex, matchString)) ==>
              sel == Selection("", "")
    ensures (exists r :: r in kept && AssetSelection.Decisive(r, assetRegex, matchString)) <==> sel.version != ""
    ensures sel.version != "" ==> exists w ::
              && w in releases
              && !IgnoreFilter.Ignored(w.tagName, ignoreRegex, matchString)
              && AssetSelection.Decisive(w, assetRegex, matchString)
              && sel == Selection(w.tagName, AssetSelection.MatchURL(w, assetRegex, matchString))
  {
    forall r | r in sorted ensures r in kept {
      assert r in multiset(sorted);
    }
    forall r | r in kept ensures r in sorted {
      assert r in multiset(kept);
    }
    if exists r :: r in kept && AssetSelection.Decisive(r, assetRegex, matchString) {
      var r :| r in kept && AssetSelection.Decisive(r, assetRegex, matchString);
      var j :| 0 <= j < |sorted| && sorted[j] == r;
      AssetSelection.FirstDecisiveExists(sorted, assetRegex, matchString, j);
      var i :| 0 <= i <= j && AssetSelection.FirstDecisiveAt(sorted, i, assetRegex, matchString);
      assert sorted[i] in kept;
    }
  }

  /**
   * With a lawful comparator and every kept tag parsed, the sorted list puts
   * the newest decisive release first, so that is the one printed.
   */
  lemma WinnerIsNewest<V(!new)>(sorted: seq<Release>, kept: seq<Release>, sel: Selection, order: VersionOrder<V>,
                                assetRegex: string, matchString: (string, string) -> bool)
    requires order.LawfulOn(kept)
    requires multiset(sorted) == multiset(kept)
    requires order.AllParse(kept)
    requires order.SortedDescending(sorted)
    requires forall i :: AssetSelection.FirstDecisiveAt(sorted, i, assetRegex, matchString) ==>
               sel == Selection(sorted[i].tagName, AssetSelection.MatchURL(sorted[i], assetRegex, matchString))
    requires (forall i :: 0 <= i < |sorted| ==> !AssetSelection.Decisive(sorted[i], assetRegex, matchString))
               ==> sel.version == ""
    ensures sel.version != "" ==>
              exists w :: NewestDecisive(w, kept, order, assetRegex, matchString)
                && sel == Selection(w.tagName, AssetSelection.MatchURL(w, assetRegex, matchString))
  {
    if sel.version != "" {
      var j :| 0 <= j < |sorted| && AssetSelection.Decisive(sorted[j], assetRegex, matchString);
      AssetSelection.FirstDecisiveExists(sorted, assetRegex, matchString, j);
      var i :| 0 <= i <= j && AssetSelection.FirstDecisiveAt(sorted, i, assetRegex, matchString);
      FirstDecisiveIsNewest(sorted, kept, i, order, assetRegex, matchString);
    }
  }

  /**
   * When nothing stops the scan, the printed URL is that of a kept release
   * with an empty tag and a qualifying asset, if there is one.
   */
  lemma EmptyVersionFacts(sorted: seq<Release>, kept: seq<Release>, sel: Selection,
                          assetRegex: string, matchString: (string, string) -> bool)
    requires multiset(sorted) == multiset(kept)
    requires sel.version == "" ==> forall r :: r in kept ==> !AssetSelection.Decisive(r, assetRegex, matchString)
    requires (forall i :: 0 <= i < |sorted| ==> !AssetSelection.Decisive(sorted[i], assetRegex, matchString))
               ==> forall i :: AssetSelection.LastMatchBefore(sorted, |sorted|, i, assetRegex, matchString) ==>
                     sel.assetURL == AssetSelection.MatchURL(sorted[i], assetRegex, matchString)
    ensures sel.version == "" && (exists r :: r in kept && AssetSelection.HasMatch(r, assetRegex, matchString)) ==>
              exists w ::
                && w in kept
                && w.tagName == ""
                && AssetSelection.HasMatch(w, assetRegex, matchString)
                && sel.assetURL == AssetSelection.MatchURL(w, assetRegex, matchString)
  {
    if sel.version == "" && exists r :: r in kept && AssetSelection.HasMatch(r, assetRegex, matchString) {
      var r :| r in kept && AssetSelection.HasMatch(r, assetRegex, matchString);
      assert r in multiset(sorted);
      var j :| 0 <= j < |sorted| && sorted[j] == r;
      forall i | 0 <= i < |sorted| ensures !AssetSelection.Decisive(sorted[i], assetRegex, matchString) {
        assert sorted[i] in multiset(kept);
      }
      AssetSelection.LastMatchExists(sorted, |sorted|, assetRegex, matchString, j);
      var i :| j <= i < |sorted| && AssetSelection.LastMatchBefore(sorted, |sorted|, i, assetRegex, matchString);
      assert sorted[i] in multiset(kept);
    }
  }
}
