/**
 * Dropping the releases whose tag matches an ignore pattern
 * (query/query.go:93-110). The regular-expression engine is a collaborator:
 * `matchString(pattern, s)` stands for `regexp.MustCompile(pattern).MatchString(s)`,
 * an unanchored search.
 */
module IgnoreFilter {
  import opened Types
  import Seqs

  /** Some pattern matches the tag (the inner loop stops at the first one). */
  predicate Ignored(tag: string, patterns: seq<string>, matchString: (string, string) -> bool) {
    exists i :: 0 <= i < |patterns| && matchString(patterns[i], tag)
  }

  /** The test the filter keeps a release by. */
  function KeepTest(patterns: seq<string>, matchString: (string, string) -> bool): Release -> bool {
    (r: Release) => !Ignored(r.tagName, patterns, matchString)
  }

  /** The releases the filter keeps, in feed order. */
  function Kept(releases: seq<Release>, patterns: seq<string>, matchString: (string, string) -> bool): seq<Release> {
    Seqs.Filter(releases, KeepTest(patterns, matchString))
  }

  /** The filtering loop of the query run. */
  method FilterReleases(releases: seq<Release>, patterns: seq<string>, matchString: (string, string) -> bool)
    returns (filtered: seq<Release>)
    ensures filtered == Kept(releases, patterns, matchString)
  {
    filtered := [];
    var i := 0;
    while i < |releases|
      invariant 0 <= i <= |releases|
      invariant filtered == Kept(releases[..i], patterns, matchString)
    {
      var release := releases[i];
      var ignore := false;
      var j := 0;
      while j < |patterns|
        invariant 0 <= j <= |patterns|
        invariant forall k :: 0 <= k < j ==> !matchString(patterns[k], release.tagName)
      {
        if matchString(patterns[j], release.tagName) {
          ignore := true;
          break;
        }
        j := j + 1;
      }
      assert ignore == Ignored(release.tagName, patterns, matchString);
      if !ignore {
        filtered := filtered + [release];
      }
      assert releases[..i + 1] == releases[..i] + [release];
      Seqs.FilterAppend(releases[..i], release, KeepTest(patterns, matchString));
      i := i + 1;
    }
    assert releases[..i] == releases;
  }

  /** The kept releases appear in the same relative order as in the feed. */
  lemma KeptIsOrderPreserving(releases: seq<Release>, patterns: seq<string>, matchString: (string, string) -> bool)
    ensures Seqs.IsSubsequence(Kept(releases, patterns, matchString), releases)
  {
    Seqs.FilterIsSubsequence(releases, KeepTest(patterns, matchString));
  }

  /**
   * A release is kept iff no pattern matches its tag: a kept release occurs as
   * often as in the feed, an ignored one not at all.
   */
  lemma KeptIffNotIgnored(releases: seq<Release>, patterns: seq<string>, matchString: (string, string) -> bool, r: Release)
    ensures multiset(Kept(releases, patterns, matchString))[r]
            == if Ignored(r.tagName, patterns, matchString) then 0 else multiset(releases)[r]
    ensures r in Kept(releases, patterns, matchString)
            <==> r in releases && !Ignored(r.tagName, patterns, matchString)
  {
    Seqs.FilterCount(releases, KeepTest(patterns, matchString), r);
  }

  /** Without ignore patterns every release is kept. */
  lemma NoPatternsKeepsAll(releases: seq<Release>, matchString: (string, string) -> bool)
    ensures Kept(releases, [], matchString) == releases
  {
    Seqs.FilterUnchangedIff(releases, KeepTest([], matchString));
  }
}
