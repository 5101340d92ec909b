/** The pure parts of `utils/performance.ts`: the throttle, the time-limited cache and the
    image URL rewriting. The clock (`Date.now()`) is an explicit `now` argument in
    milliseconds. */
module Performance {
  import opened Wrappers

  // ---------------------------------------------------------------------------------------
  // throttle

  /** The closure state of `throttle(func, delay)`: the time of the last call let through. */
  datatype Throttle = Throttle(delay: int, lastCall: int)

  /** A fresh throttle: `lastCall` starts at 0. */
  function NewThrottle(delay: int): (t: Throttle)
    ensures t.delay == delay && t.lastCall == 0
  {
    Throttle(delay, 0)
  }

  /** Since `lastCall` starts at 0, the first call runs exactly when the clock reads at least
      `delay`. */
  lemma FirstCallFires(delay: int, now: int)
    ensures Invoke(NewThrottle(delay), now).fired <==> now >= delay
  {
  }

  /** One invocation at time `now`: `func` runs iff at least `delay` has passed since the last
      run, and then the run is recorded. */
  datatype Call = Call(fired: bool, next: Throttle)

  function Invoke(t: Throttle, now: int): (c: Call)
    ensures c.fired <==> now - t.lastCall >= t.delay
    ensures c.next.delay == t.delay
    ensures c.fired ==> c.next.lastCall == now
    ensures !c.fired ==> c.next == t
  {
    if now - t.lastCall >= t.delay then Call(true, t.(lastCall := now)) else Call(false, t)
  }

  /** The times, among `times`, at which `func` actually runs. */
  function FiredTimes(t: Throttle, times: seq<int>): seq<int>
    decreases |times|
  {
    if |times| == 0 then []
    else
      var c := Invoke(t, times[0]);
      (if c.fired then [times[0]] else []) + FiredTimes(c.next, times[1..])
  }

  /** Every run after the first is at least `delay` after the one before it, and the first is
      at least `delay` after the throttle's last recorded run. */
  lemma {:induction false} FiredTimesSpaced(t: Throttle, times: seq<int>)
    ensures var f := FiredTimes(t, times);
      && (|f| > 0 ==> f[0] - t.lastCall >= t.delay)
      && forall i :: 0 <= i < |f| - 1 ==> f[i + 1] - f[i] >= t.delay
    decreases |times|
  {
    if |times| > 0 {
      var c := Invoke(t, times[0]);
      FiredTimesSpaced(c.next, times[1..]);
    }
  }

  /** With a non-negative delay, any two runs are at least `delay` apart. */
  lemma {:induction false} FiredTimesPairwiseSpaced(t: Throttle, times: seq<int>, i: nat, j: nat)
    requires t.delay >= 0
    requires i < j < |FiredTimes(t, times)|
    ensures FiredTimes(t, times)[j] - FiredTimes(t, times)[i] >= t.delay
    decreases j - i
  {
    var f := FiredTimes(t, times);
    FiredTimesSpaced(t, times);
    if i + 1 < j {
      FiredTimesPairwiseSpaced(t, times, i + 1, j);
      assert f[i + 1] - f[i] >= t.delay;
    }
  }

  // ---------------------------------------------------------------------------------------
  // SimpleCache

  /** The default `maxAge`: five minutes. */
  const DefaultMaxAge: int := 5 * 60 * 1000

  datatype Entry<T> = Entry(data: T, timestamp: int)

  /** A `SimpleCache`: its entries and its `maxAge`. */
  datatype Cache<T> = Cache(entries: map<string, Entry<T>>, maxAge: int)

  /** `new SimpleCache(maxAge)`: nothing stored. */
  function NewCache<T>(maxAge: int): (c: Cache<T>)
    ensures c.maxAge == maxAge && c.entries == map[]
  {
    Cache(map[], maxAge)
  }

  /** A new cache misses every key and stays as it is. */
  lemma NewCacheMisses<T>(maxAge: int, key: string, now: int)
    ensures Get(NewCache<T>(maxAge), key, now) == Lookup(None, NewCache<T>(maxAge))
  {
  }

  /** `new SimpleCache()`, the shared `apiCache`. */
  function DefaultCache<T>(): (c: Cache<T>)
    ensures c.maxAge == 300000 && c.entries == map[]
  {
    NewCache(DefaultMaxAge)
  }

  /** `set(key, data)` at time `now`. */
  function Set<T>(c: Cache<T>, key: string, data: T, now: int): (r: Cache<T>)
    ensures r.maxAge == c.maxAge
    ensures key in r.entries && r.entries[key] == Entry(data, now)
    ensures forall k :: k != key ==> (k in r.entries <==> k in c.entries)
    ensures forall k :: k != key && k in c.entries ==> r.entries[k] == c.entries[k]
  {
    c.(entries := c.entries[key := Entry(data, now)])
  }

  /** What `get` returns and the cache it leaves behind. */
  datatype Lookup<T> = Lookup(value: Option<T>, cache: Cache<T>)

  /** `get(key)` at time `now`: nothing when absent; when older than `maxAge` the entry is
      deleted and nothing is returned; otherwise the stored data. */
  function Get<T>(c: Cache<T>, key: string, now: int): (r: Lookup<T>)
    ensures key !in c.entries ==> r.value == None && r.cache == c
    ensures key in c.entries && now - c.entries[key].timestamp > c.maxAge ==>
      r.value == None && r.cache == c.(entries := c.entries - {key})
    ensures key in c.entries && now - c.entries[key].timestamp <= c.maxAge ==>
      r.value == Some(c.entries[key].data) && r.cache == c
  {
    if key !in c.entries then Lookup(None, c)
    else
      var item := c.entries[key];
      if now - item.timestamp > c.maxAge then Lookup(None, c.(entries := c.entries - {key}))
      else Lookup(Some(item.data), c)
  }

  /** `clear()`. */
  function Clear<T>(c: Cache<T>): (r: Cache<T>)
    ensures r.maxAge == c.maxAge && r.entries == map[]
  {
    c.(entries := map[])
  }

  /** Reading back a value within `maxAge` of setting it gives that value. */
  lemma GetAfterSet<T>(c: Cache<T>, key: string, data: T, setAt: int, now: int)
    requires now - setAt <= c.maxAge
    ensures Get(Set(c, key, data, setAt), key, now).value == Some(data)
  {
  }

  /** Reading back a value later than `maxAge` after setting it gives nothing and deletes it,
      so every later read gives nothing too. */
  lemma GetAfterExpiry<T>(c: Cache<T>, key: string, data: T, setAt: int, now: int, later: int)
    requires now - setAt > c.maxAge
    ensures var r := Get(Set(c, key, data, setAt), key, now);
      && r.value == None
      && key !in r.cache.entries
      && Get(r.cache, key, later).value == None
  {
  }

  /** Setting one key never changes what another key reads. */
  lemma SetLeavesOthers<T>(c: Cache<T>, key: string, other: string, data: T, setAt: int, now: int)
    requires other != key
    ensures Get(Set(c, key, data, setAt), other, now).value == Get(c, other, now).value
  {
  }

  /** After `clear()` every key reads as nothing. */
  lemma GetAfterClear<T>(c: Cache<T>, key: string, now: int)
    ensures Get(Clear(c), key, now).value == None
  {
  }

  // ---------------------------------------------------------------------------------------
  // optimizeImageUrl

  /** The `size` argument. */
  datatype ImageSize = Small | Medium | Large

  /** The Google Books zoom parameter for a size. */
  function ZoomParam(size: ImageSize): string {
    match size
    case Small => "&zoom=1"
    case Medium => "&zoom=2"
    case Large => "&zoom=3"
  }

  /** `url` starts with the scheme `http:`. */
  predicate StartsWithHttp(url: string) {
    |url| >= 5 && url[..5] == "http:"
  }

  /** `url.replace(/^http:/, 'https:')`: the result never starts with `http:`; an `http:` url
      gains exactly one `s` after `http`, and any other url is left as it is. */
  function ForceHttps(url: string): (r: string)
    ensures !StartsWithHttp(r)
    ensures StartsWithHttp(url) ==> |r| == |url| + 1 && r[..4] == url[..4] && r[4] == 's'
                                    && r[5..] == url[4..]
    ensures !StartsWithHttp(url) ==> r == url
  {
    if StartsWithHttp(url) then
      var r := "https:" + url[5..];
      assert r[5..] == url[4..] by { assert url[4] == ':'; }
      r
    else url
  }

  /** Forcing https twice is forcing it once. */
  lemma ForceHttpsIdempotent(url: string)
    ensures ForceHttps(ForceHttps(url)) == ForceHttps(url)
  {
  }

  /** `optimizeImageUrl(url, size)`: `""` for a missing or empty url; otherwise the url forced
      to https with the zoom parameter of the size (medium by default) appended. */
  function OptimizeImageUrl(url: Option<string>, size: Option<ImageSize>): (r: string)
    ensures url == None || url == Some("") ==> r == ""
    ensures url.Some? && url.value != "" ==>
      && |r| > 7
      && r[..|r| - 7] == ForceHttps(url.value)
      && r[|r| - 7..] == ZoomParam(size.GetOr(Medium))
  {
    match url
    case None => ""
    case Some(u) =>
      if u == "" then "" else ForceHttps(u) + ZoomParam(size.GetOr(Medium))
  }

  /** The result never starts with `http:`, and the three sizes give three different urls. */
  lemma OptimizedUrlIsHttpsAndSized(u: string, a: ImageSize, b: ImageSize)
    requires u != ""
    ensures var r := OptimizeImageUrl(Some(u), Some(a)); !(|r| >= 5 && r[..5] == "http:")
    ensures a != b ==> OptimizeImageUrl(Some(u), Some(a)) != OptimizeImageUrl(Some(u), Some(b))
    ensures OptimizeImageUrl(Some(u), None) == OptimizeImageUrl(Some(u), Some(Medium))
  {
    var r := OptimizeImageUrl(Some(u), Some(a));
    var h := ForceHttps(u);
    if |u| >= 5 && u[..5] == "http:" {
      assert h[4] == 's';
    }
    assert r == h + ZoomParam(a);
    if |h| >= 5 {
      assert r[..5] == h[..5];
    } else {
      assert r[|h|] == '&';
      assert |r| >= 5 ==> r[..5][|h|] == '&';
    }
    if a != b {
      var rb := OptimizeImageUrl(Some(u), Some(b));
      assert r[|r| - 1] != rb[|rb| - 1];
    }
  }
}
