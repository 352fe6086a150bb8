/**
 * The part of Go's `filepath.Base` (for '/'-separated paths) that the asset
 * matcher applies to each download URL (query/query.go:136).
 */
module FilePath {

  /** `p` without its trailing '/' characters. */
  function TrimTrailingSlashes(p: string): string {
    if p != [] && p[|p| - 1] == '/' then TrimTrailingSlashes(p[..|p| - 1]) else p
  }

  /** The characters of `p` after its last '/' (all of `p` when it has none). */
  function LastSegment(p: string): string {
    if p == [] || p[|p| - 1] == '/' then [] else LastSegment(p[..|p| - 1]) + [p[|p| - 1]]
  }

  /**
   * Trimming removes a run of trailing slashes and nothing else: the result is
   * a prefix that does not end in '/', followed in `p` by slashes only.
   */
  lemma {:induction false} TrimTrailingSlashesShape(p: string)
    ensures var r := TrimTrailingSlashes(p);
      && |r| <= |p| && r == p[..|r|]
      && (r == [] || r[|r| - 1] != '/')
      && forall i :: |r| <= i < |p| ==> p[i] == '/'
  {
    if p != [] && p[|p| - 1] == '/' {
      TrimTrailingSlashesShape(p[..|p| - 1]);
    }
  }

  /**
   * The last segment is a slash-free suffix, preceded in `p` by a '/' unless
   * it is all of `p`.
   */
  lemma {:induction false} LastSegmentShape(p: string)
    ensures var r := LastSegment(p);
      && |r| <= |p| && r == p[|p| - |r|..]
      && (forall i :: 0 <= i < |r| ==> r[i] != '/')
      && (|r| < |p| ==> p[|p| - |r| - 1] == '/')
  {
    if p != [] && p[|p| - 1] != '/' {
      LastSegmentShape(p[..|p| - 1]);
    }
  }

  /**
   * The last element of `path`: trailing slashes are removed first, the empty
   * path gives ".", and a path made only of slashes gives "/". Written as one
   * slash-stripping step at a time; `BaseIsLastSegmentOfTrimmed` shows it is
   * the last segment of the trimmed path.
   */
  function Base(path: string): string {
    if path == [] then "."
    else if path[|path| - 1] != '/' then LastSegment(path)
    else if |path| == 1 then "/"
    else Base(path[..|path| - 1])
  }

  /** Base is the last segment of the path without its trailing slashes, or "/" or ".". */
  lemma {:induction false} BaseIsLastSegmentOfTrimmed(path: string)
    ensures Base(path) == if path == [] then "."
                          else if LastSegment(TrimTrailingSlashes(path)) == [] then "/"
                          else LastSegment(TrimTrailingSlashes(path))
  {
    if path != [] && path[|path| - 1] != '/' {
      LastSegmentShape(path);
    } else if |path| > 1 {
      BaseIsLastSegmentOfTrimmed(path[..|path| - 1]);
    }
  }

  /** The base is never empty, and contains no '/' unless it is "/" itself. */
  lemma BaseShape(path: string)
    ensures Base(path) != []
    ensures Base(path) == "/" || forall i :: 0 <= i < |Base(path)| ==> Base(path)[i] != '/'
  {
    if path != [] {
      LastSegmentShape(TrimTrailingSlashes(path));
    }
  }

  /** A slash-free string is its own last segment. */
  lemma {:induction false} LastSegmentOfSlashFree(s: string)
    requires forall i :: 0 <= i < |s| ==> s[i] != '/'
    ensures LastSegment(s) == s
  {
    if s != [] {
      LastSegmentOfSlashFree(s[..|s| - 1]);
      assert s[..|s| - 1] + [s[|s| - 1]] == s;
    }
  }

  /** Whatever precedes the last '/' does not matter to the last segment. */
  lemma {:induction false} LastSegmentAfterSlash(dir: string, name: string)
    requires forall i :: 0 <= i < |name| ==> name[i] != '/'
    ensures LastSegment(dir + "/" + name) == name
  {
    var p := dir + "/" + name;
    if name != [] {
      var init := name[..|name| - 1];
      assert p[..|p| - 1] == dir + "/" + init;
      LastSegmentAfterSlash(dir, init);
      assert init + [name[|name| - 1]] == name;
    }
  }

  /** The base of a '/'-joined path is its last, non-empty, slash-free element. */
  lemma BaseOfJoin(dir: string, name: string)
    requires name != []
    requires forall i :: 0 <= i < |name| ==> name[i] != '/'
    ensures Base(dir + "/" + name) == name
  {
    var p := dir + "/" + name;
    assert TrimTrailingSlashes(p) == p;
    LastSegmentAfterSlash(dir, name);
  }

  /** Trailing slashes do not change the base of a non-empty path. */
  lemma BaseIgnoresTrailingSlash(p: string)
    requires p != []
    ensures Base(p + "/") == Base(p)
  {
  }

  /** The base of a base is itself. */
  lemma BaseIdempotent(p: string)
    ensures Base(Base(p)) == Base(p)
  {
    var b := Base(p);
    BaseShape(p);
    if b != "/" {
      assert TrimTrailingSlashes(b) == b;
      LastSegmentOfSlashFree(b);
    } else {
      assert TrimTrailingSlashes(b) == [];
    }
  }
}
