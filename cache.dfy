/**
 * The cache policy of the query run (query/query.go:33-84): where the raw
 * feed is cached, when the cached copy is used, and when a fetched feed is
 * written back. The file system, the clock and the network are not modelled;
 * their answers for one run are collected in a `World`, and the calls the run
 * makes are recorded as a trace of `IoOp`s.
 */
module Cache {
  import opened Wrappers
  import opened Types

  /** The directory under the temporary directory that holds cached feeds. */
  const CACHE_DIR := "allbranding"

  /** One hour as a Go `time.Duration` (nanoseconds). */
  const CACHE_TTL: int := 3_600_000_000_000

  /** A lower-case hexadecimal digit, as `%x` prints it. */
  function HexDigit(n: int): (c: char)
    requires 0 <= n < 16
    ensures '0' <= c <= '9' || 'a' <= c <= 'f'
  {
    if n < 10 then (48 + n) as char else (87 + n) as char
  }

  /** `%x` of a byte string: two lower-case digits per byte, high nibble first. */
  function Hex(bs: seq<byte>): (r: string)
    ensures |r| == 2 * |bs|
    ensures forall i :: 0 <= i < |r| ==> '0' <= r[i] <= '9' || 'a' <= r[i] <= 'f'
  {
    if bs == [] then "" else [HexDigit(bs[0] as int / 16), HexDigit(bs[0] as int % 16)] + Hex(bs[1..])
  }

  /** Distinct digests print differently. */
  lemma {:induction false} HexInjective(a: seq<byte>, b: seq<byte>)
    requires Hex(a) == Hex(b)
    ensures a == b
  {
    if a != [] {
      assert |b| == |a|;
      var ha, hb := Hex(a), Hex(b);
      assert ha[0] == hb[0] && ha[1] == hb[1];
      assert a[0] as int / 16 == b[0] as int / 16 && a[0] as int % 16 == b[0] as int % 16;
      assert a[0] == b[0];
      assert ha[2..] == Hex(a[1..]) && hb[2..] == Hex(b[1..]);
      HexInjective(a[1..], b[1..]);
    }
  }

  /** The cache file name for a feed, from the SHA-256 digest of its URL. */
  function CacheFileName(digest: seq<byte>): string {
    "releases_" + Hex(digest) + ".json"
  }

  /**
   * The name is a single path element (no '/'), of the fixed shape
   * `releases_<hex>.json`, and distinct digests give distinct names: distinct
   * feeds never share a cache file unless their digests collide.
   */
  lemma CacheFileNameShape(d1: seq<byte>, d2: seq<byte>)
    ensures var name := CacheFileName(d1);
      && |name| == 14 + 2 * |d1|
      && name[..9] == "releases_" && name[|name| - 5..] == ".json"
      && forall i :: 0 <= i < |name| ==> name[i] != '/'
    ensures CacheFileName(d1) == CacheFileName(d2) ==> d1 == d2
  {
    var n1, n2 := CacheFileName(d1), CacheFileName(d2);
    forall i | 0 <= i < |n1| ensures n1[i] != '/' {
      if 9 <= i < 9 + |Hex(d1)| {
        assert n1[i] == Hex(d1)[i - 9];
      }
    }
    if n1 == n2 {
      assert |Hex(d1)| == |Hex(d2)|;
      assert Hex(d1) == n1[9..9 + |Hex(d1)|] == n2[9..9 + |Hex(d2)|] == Hex(d2);
      HexInjective(d1, d2);
    }
  }

  /** The outcome of `http.Get` followed by `io.ReadAll` of the body. */
  datatype FetchOutcome = GetError | ReadError | Body(data: Bytes)

  /** What the environment answers to the calls of one run. */
  datatype World = World(
    statOk: bool,           // the first os.Stat of the cache file reports no error
    restat: Option<int>,    // the second os.Stat: the file's age, or an error
    readFile: Option<Bytes>, // os.ReadFile of the cache file, or an error
    fetch: FetchOutcome,
    mkdirOk: bool,          // os.MkdirAll of the cache directory
    writeOk: bool)          // os.WriteFile of the cache file

  /** A call the run makes to its environment. */
  datatype IoOp =
    | Stat(file: string)
    | ReadFile(file: string)
    | HttpGet(url: string)
    | MkdirAll(dir: string)
    | WriteFile(file: string, data: Bytes)

  /** The feed the later stages decode, and whether it came from the cache. */
  datatype Payload = Payload(data: Bytes, fromCache: bool)

  /** A cached file is fresh when its age is strictly below one hour. */
  predicate IsFresh(ageNanos: int) {
    ageNanos < CACHE_TTL
  }

  /** The cache is consulted for its contents: caching is on and a fresh file exists. */
  predicate UsesCache(noCache: bool, world: World) {
    !noCache && world.statOk && world.restat.Some? && IsFresh(world.restat.value)
  }

  /** A fetched feed is written back exactly when caching is on. */
  predicate ShouldPersist(noCache: bool) {
    !noCache
  }

  /**
   * The outcome of the first stage of the run as a decision table: which
   * error ends the run, or which bytes go on to be decoded.
   */
  function LoadResult(noCache: bool, world: World): Result<Payload, Failure> {
    if !noCache && world.statOk && world.restat.None? then Failure(StatFailed)
    else if UsesCache(noCache, world) then
      (if world.readFile.Some? then Success(Payload(world.readFile.value, true)) else Failure(CacheReadFailed))
    else match world.fetch
      case GetError => Failure(FetchFailed)
      case ReadError => Failure(BodyReadFailed)
      case Body(data) =>
        if !ShouldPersist(noCache) then Success(Payload(data, false))
        else if !world.mkdirOk then Failure(CacheDirFailed)
        else if !world.writeOk then Failure(CacheWriteFailed)
        else Success(Payload(data, false))
  }

  /** Cached bytes are used iff caching is on and the file exists, is fresh and can be read. */
  lemma CacheUsedIff(noCache: bool, world: World)
    ensures (LoadResult(noCache, world).Success? && LoadResult(noCache, world).value.fromCache)
            <==> (UsesCache(noCache, world) && world.readFile.Some?)
  {
  }

  /** An entry aged exactly one hour is stale; one a nanosecond younger is fresh. */
  lemma FreshnessBoundary()
    ensures !IsFresh(CACHE_TTL) && IsFresh(CACHE_TTL - 1)
  {
  }

  /**
   * The first stage of the run: stat the cache file (twice, as the source
   * does), read it when fresh, otherwise fetch the feed and, with caching
   * on, create the cache directory and write the feed to the cache file.
   */
  method LoadReleasesData(url: string, cacheFile: string, noCache: bool, world: World)
    returns (r: Result<Payload, Failure>, trace: seq<IoOp>)
    ensures r == LoadResult(noCache, world)
    // Every file call names the cache file of this feed or, when creating the
    // directory, the cache directory; the one fetch is of its URL.
    ensures forall op :: op in trace ==>
              if op.HttpGet? then op.url == url
              else if op.MkdirAll? then op.dir == CACHE_DIR
              else op.file == cacheFile
    // With caching off the only call is the fetch: the cache is neither read nor written.
    ensures noCache ==> trace == [HttpGet(url)]
    // A fresh cache that can be read is neither fetched over nor rewritten.
    ensures UsesCache(noCache, world) && world.readFile.Some? ==>
              trace == [Stat(cacheFile), Stat(cacheFile), ReadFile(cacheFile)]
    // The feed is fetched iff no usable cached copy was found first.
    ensures HttpGet(url) in trace <==>
              !(!noCache && world.statOk && (world.restat.None? || (IsFresh(world.restat.value))))
    // Only the file just fetched is ever written, and only when caching is on.
    ensures forall op :: op in trace && op.WriteFile? ==>
              ShouldPersist(noCache) && world.fetch.Body? && op == WriteFile(cacheFile, world.fetch.data)
              && HttpGet(url) in trace
    // A successful fetch with caching on is written back.
    ensures r.Success? && !r.value.fromCache && ShouldPersist(noCache) ==>
              WriteFile(cacheFile, r.value.data) in trace
  {
    trace := [];
    var releasesData: Option<Bytes> := None;
    if !noCache {
      trace := trace + [Stat(cacheFile)];
      if world.statOk {
        trace := trace + [Stat(cacheFile)];
        if world.restat.None? {
          return Failure(StatFailed), trace;
        }
        if world.restat.value < CACHE_TTL {
          trace := trace + [ReadFile(cacheFile)];
          if world.readFile.None? {
            return Failure(CacheReadFailed), trace;
          }
          releasesData := world.readFile;
        }
      }
    }
    if releasesData.None? {
      trace := trace + [HttpGet(url)];
      if world.fetch.GetError? {
        return Failure(FetchFailed), trace;
      }
      if world.fetch.ReadError? {
        return Failure(BodyReadFailed), trace;
      }
      var body := world.fetch.data;
      if !noCache {
        trace := trace + [MkdirAll(CACHE_DIR)];
        if !world.mkdirOk {
          return Failure(CacheDirFailed), trace;
        }
        trace := trace + [WriteFile(cacheFile, body)];
        if !world.writeOk {
          return Failure(CacheWriteFailed), trace;
        }
      }
      return Success(Payload(body, false)), trace;
    }
    r := Success(Payload(releasesData.value, true));
  }
}
