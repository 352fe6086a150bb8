/**
 * Picking the asset to report (query/query.go:133-145): releases are scanned
 * in sorted order and, within a release, assets in feed order; an asset
 * qualifies when the asset pattern matches the last element of its URL.
 * The outer scan stops only once `version` is non-empty, so a qualifying
 * release whose tag is empty does not end it.
 */
module AssetSelection {
  import opened Wrappers
  import opened Types
  import FilePath

  /** The asset pattern matches the file name of the asset's URL. */
  predicate AssetMatches(a: Asset, assetRegex: string, matchString: (string, string) -> bool) {
    matchString(assetRegex, FilePath.Base(a.browserDownloadURL))
  }

  /** The index of the first qualifying asset, or None when no asset qualifies. */
  function FirstMatch(assets: seq<Asset>, assetRegex: string, matchString: (string, string) -> bool): (r: Option<nat>)
    ensures r.Some? ==> r.value < |assets| && AssetMatches(assets[r.value], assetRegex, matchString)
    ensures r.Some? ==> forall k :: 0 <= k < r.value ==> !AssetMatches(assets[k], assetRegex, matchString)
    ensures r.None? <==> forall k :: 0 <= k < |assets| ==> !AssetMatches(assets[k], assetRegex, matchString)
  {
    if assets == [] then None
    else if AssetMatches(assets[0], assetRegex, matchString) then Some(0)
    else
      match FirstMatch(assets[1..], assetRegex, matchString)
      case None => None
      case Some(k) => Some(k + 1)
  }

  predicate HasMatch(r: Release, assetRegex: string, matchString: (string, string) -> bool) {
    FirstMatch(r.assets, assetRegex, matchString).Some?
  }

  /** The URL of a qualifying release's first qualifying asset. */
  function MatchURL(r: Release, assetRegex: string, matchString: (string, string) -> bool): string
    requires HasMatch(r, assetRegex, matchString)
  {
    r.assets[FirstMatch(r.assets, assetRegex, matchString).value].browserDownloadURL
  }

  /** A qualifying release with a non-empty tag: the scan stops at it. */
  predicate Decisive(r: Release, assetRegex: string, matchString: (string, string) -> bool) {
    r.tagName != "" && HasMatch(r, assetRegex, matchString)
  }

  /** `i` is the first decisive release. */
  ghost predicate FirstDecisiveAt(rs: seq<Release>, i: int, assetRegex: string, matchString: (string, string) -> bool) {
    && 0 <= i < |rs|
    && Decisive(rs[i], assetRegex, matchString)
    && forall k :: 0 <= k < i ==> !Decisive(rs[k], assetRegex, matchString)
  }

  /** `i` is the last qualifying release among the first `n`. */
  ghost predicate LastMatchBefore(rs: seq<Release>, n: int, i: int, assetRegex: string, matchString: (string, string) -> bool) {
    && 0 <= i < n <= |rs|
    && HasMatch(rs[i], assetRegex, matchString)
    && forall k :: i < k < n ==> !HasMatch(rs[k], assetRegex, matchString)
  }

  /**
   * The inner loop: the assets of one release in feed order, stopping at the
   * first that qualifies.
   */
  method ScanAssets(release: Release, assetRegex: string, matchString: (string, string) -> bool)
    returns (found: bool, assetURL: string)
    ensures found <==> HasMatch(release, assetRegex, matchString)
    ensures found ==> assetURL == MatchURL(release, assetRegex, matchString)
  {
    found, assetURL := false, "";
    var j := 0;
    while j < |release.assets|
      invariant 0 <= j <= |release.assets|
      invariant forall k :: 0 <= k < j ==> !AssetMatches(release.assets[k], assetRegex, matchString)
    {
      var asset := release.assets[j];
      if matchString(assetRegex, FilePath.Base(asset.browserDownloadURL)) {
        assert FirstMatch(release.assets, assetRegex, matchString) == Some(j);
        found, assetURL := true, asset.browserDownloadURL;
        break;
      }
      j := j + 1;
    }
  }

  /**
   * The selection loop. The first decisive release wins, with its first
   * qualifying asset. Without a decisive release the version stays empty and
   * the URL is that of the last qualifying (empty-tagged) release, or empty
   * when nothing qualifies.
   */
  method SelectAsset(releases: seq<Release>, assetRegex: string, matchString: (string, string) -> bool)
    returns (sel: Selection)
    ensures forall i :: FirstDecisiveAt(releases, i, assetRegex, matchString) ==>
              sel == Selection(releases[i].tagName, MatchURL(releases[i], assetRegex, matchString))
    ensures (forall i :: 0 <= i < |releases| ==> !Decisive(releases[i], assetRegex, matchString))
      ==> sel.version == ""
    ensures (forall i :: 0 <= i < |releases| ==> !HasMatch(releases[i], assetRegex, matchString))
      ==> sel == Selection("", "")
    ensures (forall i :: 0 <= i < |releases| ==> !Decisive(releases[i], assetRegex, matchString))
      ==> forall i :: LastMatchBefore(releases, |releases|, i, assetRegex, matchString) ==>
                sel.assetURL == MatchURL(releases[i], assetRegex, matchString)
  {
    var version, assetURL := "", "";
    var i := 0;
    while i < |releases|
      invariant 0 <= i <= |releases|
      invariant version == ""
      invariant forall k :: 0 <= k < i ==> !Decisive(releases[k], assetRegex, matchString)
      invariant (forall k :: 0 <= k < i ==> !HasMatch(releases[k], assetRegex, matchString)) ==> assetURL == ""
      invariant forall k :: LastMatchBefore(releases, i, k, assetRegex, matchString) ==>
                  assetURL == MatchURL(releases[k], assetRegex, matchString)
    {
      var release := releases[i];
      var found, url := ScanAssets(release, assetRegex, matchString);
      if found {
        version, assetURL := release.tagName, url;
      }
      if version != "" {
        assert FirstDecisiveAt(releases, i, assetRegex, matchString);
        break;
      }
      i := i + 1;
    }
    sel := Selection(version, assetURL);
  }

  /** A decisive release exists iff there is a first one. */
  lemma FirstDecisiveExists(rs: seq<Release>, assetRegex: string, matchString: (string, string) -> bool, j: int)
    requires 0 <= j < |rs| && Decisive(rs[j], assetRegex, matchString)
    ensures exists i :: 0 <= i <= j && FirstDecisiveAt(rs, i, assetRegex, matchString)
  {
    var i := 0;
    while !Decisive(rs[i], assetRegex, matchString)
      invariant 0 <= i <= j
      invariant forall k :: 0 <= k < i ==> !Decisive(rs[k], assetRegex, matchString)
      decreases j - i
    {
      i := i + 1;
    }
    assert FirstDecisiveAt(rs, i, assetRegex, matchString);
  }

  /** A qualifying release among the first `n` gives a last such release. */
  lemma LastMatchExists(rs: seq<Release>, n: int, assetRegex: string, matchString: (string, string) -> bool, j: int)
    requires 0 <= j < n <= |rs| && HasMatch(rs[j], assetRegex, matchString)
    ensures exists i :: j <= i < n && LastMatchBefore(rs, n, i, assetRegex, matchString)
  {
    var i := n - 1;
    while !HasMatch(rs[i], assetRegex, matchString)
      invariant j <= i < n
      invariant forall k :: i < k < n ==> !HasMatch(rs[k], assetRegex, matchString)
      decreases i - j
    {
      i := i - 1;
    }
    assert LastMatchBefore(rs, n, i, assetRegex, matchString);
  }
}
