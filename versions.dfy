/**
 * Version strings and the order the query run sorts releases by
 * (query/query.go:112-125, 161-167). The semantic-version library is a
 * collaborator: `newVersion` stands for `version.NewVersion` (None when the
 * string is rejected) and `greaterThan` for `Version.GreaterThan`.
 */
module Versions {
  import opened Wrappers
  import opened Types
  import Seqs

  /** The characters `[0-9.]` that lenient parsing keeps. */
  predicate IsVersionChar(c: char) {
    '0' <= c <= '9' || c == '.'
  }

  /**
   * Normalises a tag before it is parsed: with `parseHarder` every character
   * outside `[0-9.]` is deleted (the regexp `[^0-9.]+` replaced by ""),
   * otherwise the tag is used as it is.
   */
  function ParseVersion(version: string, parseHarder: bool): (r: string)
    ensures |r| <= |version|
    ensures parseHarder ==> forall i :: 0 <= i < |r| ==> IsVersionChar(r[i])
  {
    if parseHarder then Seqs.Filter(version, IsVersionChar) else version
  }

  /** Strict mode is the identity. */
  lemma StrictParseIsIdentity(version: string)
    ensures ParseVersion(version, false) == version
  {
  }

  /**
   * Lenient mode keeps exactly the `[0-9.]` characters of the tag, each as
   * often as it occurs, in their original order.
   */
  lemma LenientParseKeepsVersionChars(version: string)
    ensures Seqs.IsSubsequence(ParseVersion(version, true), version)
    ensures forall c :: multiset(ParseVersion(version, true))[c]
                      == if IsVersionChar(c) then multiset(version)[c] else 0
  {
    Seqs.FilterIsSubsequence(version, IsVersionChar);
    forall c ensures multiset(ParseVersion(version, true))[c]
                     == if IsVersionChar(c) then multiset(version)[c] else 0 {
      Seqs.FilterCount(version, IsVersionChar, c);
    }
  }

  /**
   * Conversely, the subsequence of the tag that holds version characters only
   * and every occurrence of them is the lenient normalisation.
   */
  lemma LenientParseIsTheVersionCharSubsequence(version: string, r: string)
    requires Seqs.IsSubsequence(r, version)
    requires forall i :: 0 <= i < |r| ==> IsVersionChar(r[i])
    requires forall c :: IsVersionChar(c) ==> multiset(r)[c] == multiset(version)[c]
    ensures r == ParseVersion(version, true)
  {
    Seqs.FilterUnique(version, r, IsVersionChar);
  }

  /** Lenient normalisation is idempotent. */
  lemma LenientParseIdempotent(version: string)
    ensures ParseVersion(ParseVersion(version, true), true) == ParseVersion(version, true)
  {
    Seqs.FilterIdempotent(version, IsVersionChar);
  }

  /** A tag is left unchanged by lenient normalisation iff it is all digits and dots. */
  lemma LenientParseFixedPoints(version: string)
    ensures ParseVersion(version, true) == version
            <==> forall i :: 0 <= i < |version| ==> IsVersionChar(version[i])
  {
    Seqs.FilterUnchangedIff(version, IsVersionChar);
  }

  /** Lenient parsing lets a tag such as "release-3" compare as version "3". */
  lemma LenientParseExample()
    ensures ParseVersion("release-3", true) == "3"
  {
  }

  /** The sort comparator of the query run, closed over its collaborators and the mode. */
  datatype VersionOrder<!V(!new)> = VersionOrder(
    newVersion: string -> Option<V>,
    greaterThan: (V, V) -> bool,
    parseHarder: bool)
  {
    /** The parsed version of a release's tag, or None when it does not parse. */
    function Key(r: Release): Option<V> {
      newVersion(ParseVersion(r.tagName, parseHarder))
    }

    /** `x` sorts before `y`: both tags parse and `x`'s version is greater. */
    predicate Less(x: Release, y: Release) {
      Key(x).Some? && Key(y).Some? && greaterThan(Key(x).value, Key(y).value)
    }

    /**
     * `GreaterThan` is a strict weak order on every version (asymmetric, and
     * "not greater" is transitive); distinct version strings may still compare
     * equal. This is a hypothesis about the version library, not something
     * this repository establishes.
     */
    ghost predicate Lawful() {
      && (forall u, v :: greaterThan(u, v) ==> !greaterThan(v, u))
      && (forall u, v, w :: !greaterThan(u, v) && !greaterThan(v, w) ==> !greaterThan(u, w))
    }

    /**
     * The hypothesis the ordering facts rely on: the comparator is a strict
     * weak order on the parsed releases of `s`. It concerns only the versions
     * of those tags; in lenient mode these are made of digits and dots alone.
     */
    ghost predicate LawfulOn(s: seq<Release>) {
      && (forall x, y :: x in s && y in s && Less(x, y) ==> !Less(y, x))
      && (forall x, y, z :: x in s && y in s && z in s && Parses(y) && !Less(x, y) && !Less(y, z) ==> !Less(x, z))
    }

    predicate Parses(r: Release) {
      Key(r).Some?
    }

    ghost predicate AllParse(s: seq<Release>) {
      forall r :: r in s ==> Parses(r)
    }

    /** No release sorts before an earlier one: versions are non-increasing. */
    ghost predicate SortedDescending(s: seq<Release>) {
      forall i, j :: 0 <= i < j < |s| ==> !Less(s[j], s[i])
    }
  }

  /** A release whose tag does not parse is ordered against nothing, in either direction. */
  lemma UnparsedIsIncomparable<V(!new)>(o: VersionOrder<V>, x: Release, y: Release)
    requires !o.Parses(x) || !o.Parses(y)
    ensures !o.Less(x, y) && !o.Less(y, x)
  {
  }

  /** A comparator lawful on all versions is lawful on the releases of any list. */
  lemma LawfulIsLawfulOn<V(!new)>(o: VersionOrder<V>, s: seq<Release>)
    requires o.Lawful()
    ensures o.LawfulOn(s)
  {
    forall x, y, z | x in s && y in s && z in s && o.Parses(y) && !o.Less(x, y) && !o.Less(y, z)
      ensures !o.Less(x, z)
    {
      if o.Parses(x) && o.Parses(z) {
        assert !o.greaterThan(o.Key(x).value, o.Key(y).value);
      }
    }
  }

  /** On the parsed releases of a list where it is lawful, the comparator is a strict weak order. */
  lemma LessIsStrictWeakOrder<V(!new)>(o: VersionOrder<V>, s: seq<Release>, x: Release, y: Release, z: Release)
    requires o.LawfulOn(s)
    requires x in s && y in s && z in s
    requires o.Parses(x) && o.Parses(y) && o.Parses(z)
    ensures !o.Less(x, x)
    ensures o.Less(x, y) ==> !o.Less(y, x)
    ensures !o.Less(x, y) && !o.Less(y, z) ==> !o.Less(x, z)
    ensures o.Less(x, y) && o.Less(y, z) ==> o.Less(x, z)
  {
  }
}
