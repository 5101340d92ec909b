/** `hooks/useFeaturedBooks.ts`: choosing the featured books (quality filter, shuffle, first
    twelve), the cache-first loading step, `refresh`, and the hero pick of `useHeroBook`.
    `Math.random` is replaced by explicit choices: the shuffle takes a sequence of picks and
    the hero pick a fraction `num / den` in `[0, 1)`. */
module FeaturedBooks {
  import opened Wrappers
  import opened Seqs
  import opened JsValue
  import Performance
  import opened Arith

  const CacheKey: string := "featured_books_main"
  const FeaturedCount: nat := 12
  const LoadError: string :=
    "No se pudieron cargar los libros destacados. Verifica tu conexi\U{F3}n."

  // ---------------------------------------------------------------------------------------
  // selection

  /** The quality filter: a cover, a title, a non-empty author list and a description longer
      than 50 characters, each checked for truthiness first as the source does. */
  predicate IsQualityBook(book: Record) {
    && Truthy(Get(book, "cover_i"))
    && Truthy(Get(book, "title"))
    && Truthy(Get(book, "author_name")) && LongerThan(Get(book, "author_name"), 0)
    && Truthy(Get(book, "description")) && LongerThan(Get(book, "description"), 50)
  }

  /** A book lacking any of the four fields, or whose description has at most 50 characters,
      is never featured. */
  lemma QualityNeedsEveryField(book: Record, d: string)
    ensures !Truthy(Get(book, "cover_i")) || !Truthy(Get(book, "title")) ==> !IsQualityBook(book)
    ensures Get(book, "author_name") == StrArray([]) ==> !IsQualityBook(book)
    ensures !Truthy(Get(book, "description")) ==> !IsQualityBook(book)
    ensures Get(book, "description") == Str(d) && |d| <= 50 ==> !IsQualityBook(book)
  {
  }

  /** `s` without the element at index `j`. */
  function RemoveAt<T>(s: seq<T>, j: nat): (r: seq<T>)
    requires j < |s|
    ensures |r| == |s| - 1
    ensures multiset(r) + multiset{s[j]} == multiset(s)
  {
    assert s == s[..j] + [s[j]] + s[j + 1..];
    s[..j] + s[j + 1..]
  }

  /** A pick reduced to an index below `n`. */
  function Reduce(p: nat, n: nat): (j: nat)
    requires n > 0
    ensures j < n
    ensures p < n ==> j == p
  {
    p % n
  }

  /** A shuffle driven by `picks`: the next element is the one at index `picks[0]` (reduced
      modulo the remaining length; a missing pick counts as 0) among those not yet taken. */
  function Shuffle<T>(s: seq<T>, picks: seq<nat>): (r: seq<T>)
    ensures multiset(r) == multiset(s)
    decreases |s|
  {
    if |s| == 0 then []
    else
      var j := Reduce(if |picks| > 0 then picks[0] else 0, |s|);
      [s[j]] + Shuffle(RemoveAt(s, j), if |picks| > 0 then picks[1..] else [])
  }

  /** The first index of `x` in `s`. */
  function IndexOf<T(==)>(s: seq<T>, x: T): (j: nat)
    requires x in s
    ensures j < |s| && s[j] == x
  {
    if s[0] == x then 0 else 1 + IndexOf(s[1..], x)
  }

  /** The multiset of a non-empty sequence is its head plus the multiset of its tail. */
  lemma MultisetHeadTail<T>(t: seq<T>)
    requires |t| > 0
    ensures t[0] in multiset(t)
    ensures multiset(t[1..]) == multiset(t) - multiset{t[0]}
  {
    assert t == [t[0]] + t[1..];
  }

  /** A pick below the length takes exactly the element at that index. */
  lemma ShuffleStep<T>(s: seq<T>, j: nat, more: seq<nat>)
    requires j < |s|
    ensures Shuffle(s, [j] + more) == [s[j]] + Shuffle(RemoveAt(s, j), more)
  {
    var picks := [j] + more;
    assert picks[0] == j && picks[1..] == more;
    assert Reduce(picks[0], |s|) == j;
  }

  /** Every ordering of `s` is the outcome of some sequence of picks: replacing the random
      comparator by picks loses no behaviour. */
  lemma {:induction false} ShuffleReachesEveryOrder<T>(s: seq<T>, t: seq<T>) returns (picks: seq<nat>)
    requires multiset(t) == multiset(s)
    ensures Shuffle(s, picks) == t
    decreases |s|
  {
    SameLength(s, t);
    if |s| == 0 {
      picks := [];
    } else {
      var j, rest := PickHead(s, t);
      var more := ShuffleReachesEveryOrder(rest, t[1..]);
      picks := [j] + more;
      ShuffleStep(s, j, more);
      assert t == [t[0]] + t[1..];
    }
  }

  /** Sequences with the same elements have the same length. */
  lemma SameLength<T>(s: seq<T>, t: seq<T>)
    requires multiset(t) == multiset(s)
    ensures |t| == |s|
  {
    assert |t| == |multiset(t)|;
    assert |s| == |multiset(s)|;
  }

  /** The index in `s` of the first element of `t`, and what `s` has left without it. */
  lemma PickHead<T>(s: seq<T>, t: seq<T>) returns (j: nat, rest: seq<T>)
    requires multiset(t) == multiset(s) && |t| > 0
    ensures j < |s| && s[j] == t[0]
    ensures rest == RemoveAt(s, j)
    ensures multiset(t[1..]) == multiset(rest)
  {
    MultisetHeadTail(t);
    j := IndexOf(s, t[0]);
    rest := RemoveAt(s, j);
    assert multiset(rest) == multiset(s) - multiset{t[0]};
  }

  /** A prefix has no more of any element than the whole. */
  lemma PrefixMultiset<T>(s: seq<T>, n: nat)
    requires n <= |s|
    ensures multiset(s[..n]) <= multiset(s)
  {
    assert s == s[..n] + s[n..];
  }

  /** Everything drawn from a sequence of quality books is a quality book. */
  lemma DrawnFromQuality(p: seq<Record>, q: seq<Record>)
    requires forall i :: 0 <= i < |q| ==> IsQualityBook(q[i])
    requires multiset(p) <= multiset(q)
    ensures forall i :: 0 <= i < |p| ==> IsQualityBook(p[i])
  {
    forall i | 0 <= i < |p| ensures IsQualityBook(p[i]) {
      assert p[i] in multiset(p);
      assert p[i] in q;
    }
  }

  /** `qualityBooks.sort(random).slice(0, 12)`. */
  function SelectFeatured(all: seq<Record>, picks: seq<nat>): (r: seq<Record>)
    ensures |r| <= FeaturedCount
    ensures forall i :: 0 <= i < |r| ==> IsQualityBook(r[i])
    ensures multiset(r) <= multiset(all)
    ensures |Filter(all, IsQualityBook)| <= FeaturedCount ==>
      multiset(r) == multiset(Filter(all, IsQualityBook))
    ensures |Filter(all, IsQualityBook)| >= FeaturedCount ==> |r| == FeaturedCount
  {
    var quality := Filter(all, IsQualityBook);
    FilterMultiset(all, IsQualityBook);
    var shuffled := Shuffle(quality, picks);
    SameLength(quality, shuffled);
    var n := if |shuffled| < FeaturedCount then |shuffled| else FeaturedCount;
    PrefixMultiset(shuffled, n);
    assert n == |shuffled| ==> shuffled[..n] == shuffled;
    DrawnFromQuality(shuffled[..n], quality);
    shuffled[..n]
  }

  // ---------------------------------------------------------------------------------------
  // loading

  /** The hook's state: `books`, `loading`, `error`. */
  datatype State = State(books: seq<Record>, loading: bool, error: Option<string>)

  const InitialState: State := State([], true, None)

  type BookCache = Performance.Cache<seq<Record>>

  /** The outcome of one `loadFeaturedBooks`: the new state, the shared cache afterwards, and
      whether the network was asked. */
  datatype Load = Load(state: State, cache: BookCache, fetched: bool)

  /** `loadFeaturedBooks()` started at time `now` with the shared cache `cache`. When the cache
      misses, `fetch` is what the request gives, `settled` is the shared cache and `settledAt`
      the clock when it completes (another hook instance may have written the cache in
      between), and `picks` drives the shuffle. Any cached array counts as a hit, even an
      empty one. */
  function LoadFeaturedBooks(s: State, cache: BookCache, now: int, fetch: Result<seq<Record>>,
                             picks: seq<nat>, settled: BookCache, settledAt: int): (r: Load)
    ensures !r.state.loading
    ensures r.fetched <==> Performance.Get(cache, CacheKey, now).value.None?
    ensures !r.fetched ==>
      && r.state.books == Performance.Get(cache, CacheKey, now).value.value
      && r.state.error == None
      && r.cache == cache
    ensures r.fetched && fetch.Ok? ==>
      && r.state.books == SelectFeatured(fetch.value, picks)
      && r.state.error == None
      && r.cache == Performance.Set(settled, CacheKey, r.state.books, settledAt)
    ensures r.fetched && fetch.Err? ==>
      var fallback := Performance.Get(settled, CacheKey, settledAt);
      && r.state.error == Some(LoadError)
      && r.state.books == fallback.value.GetOr(s.books)
      && r.cache == fallback.cache
  {
    var hit := Performance.Get(cache, CacheKey, now);
    match hit.value
    case Some(books) => Load(State(books, false, None), hit.cache, false)
    case None =>
      match fetch
      case Ok(all) =>
        var featured := SelectFeatured(all, picks);
        Load(State(featured, false, None), Performance.Set(settled, CacheKey, featured, settledAt), true)
      case Err(_) =>
        var fallback := Performance.Get(settled, CacheKey, settledAt);
        Load(State(fallback.value.GetOr(s.books), false, Some(LoadError)), fallback.cache, true)
  }

  /** Whatever the path, the books shown after a successful load are featured-quality, at
      most twelve, and drawn from what was fetched; a cache hit shows what was cached. */
  lemma LoadedBooksAreFeatured(s: State, cache: BookCache, now: int, all: seq<Record>,
                               picks: seq<nat>, settled: BookCache, settledAt: int)
    requires Performance.Get(cache, CacheKey, now).value.None?
    requires settled.maxAge >= 0
    ensures var r := LoadFeaturedBooks(s, cache, now, Ok(all), picks, settled, settledAt);
      && |r.state.books| <= FeaturedCount
      && (forall i :: 0 <= i < |r.state.books| ==> IsQualityBook(r.state.books[i]))
      && multiset(r.state.books) <= multiset(all)
      && Performance.Get(r.cache, CacheKey, settledAt).value == Some(r.state.books)
  {
    var featured := SelectFeatured(all, picks);
    Performance.GetAfterSet(settled, CacheKey, featured, settledAt, settledAt);
  }

  /** A load that hits the cache leaves it as it was, so loading again right away hits it
      again and shows the same books. */
  lemma CacheHitIsStable(s: State, cache: BookCache, now: int, f1: Result<seq<Record>>,
                         f2: Result<seq<Record>>, picks: seq<nat>, settled: BookCache, settledAt: int)
    requires Performance.Get(cache, CacheKey, now).value.Some?
    ensures var r1 := LoadFeaturedBooks(s, cache, now, f1, picks, settled, settledAt);
      var r2 := LoadFeaturedBooks(r1.state, r1.cache, now, f2, picks, settled, settledAt);
      !r1.fetched && !r2.fetched && r2.state == r1.state
  {
  }

  /** When nothing else writes the cache while the request is in flight, the fallback on
      error finds nothing: the earlier read already missed or deleted the entry, so the
      previous books stay on screen with the error. */
  lemma IsolatedErrorFindsNoCache(s: State, cache: BookCache, now: int, msg: string,
                                  picks: seq<nat>, settledAt: int)
    requires Performance.Get(cache, CacheKey, now).value.None?
    ensures var settled := Performance.Get(cache, CacheKey, now).cache;
      var r := LoadFeaturedBooks(s, cache, now, Err(msg), picks, settled, settledAt);
      && r.state.books == s.books
      && r.state.error == Some(LoadError)
  {
  }

  /** `refresh()`: the whole shared cache is cleared, then the books are loaded again. */
  function Refresh(s: State, cache: BookCache, now: int, fetch: Result<seq<Record>>,
                   picks: seq<nat>, settled: BookCache, settledAt: int): (r: Load)
    ensures r.fetched
    ensures !r.state.loading
    ensures fetch.Ok? ==> r.state.books == SelectFeatured(fetch.value, picks)
  {
    LoadFeaturedBooks(s, Performance.Clear(cache), now, fetch, picks, settled, settledAt)
  }

  // ---------------------------------------------------------------------------------------
  // useHeroBook

  /** `Math.floor(random * len)` for `random == num / den`. */
  function HeroIndex(len: nat, num: nat, den: nat): (i: nat)
    requires num < den
    ensures len > 0 ==> i < len
  {
    if len > 0 then
      MulMono(num + 1, den, len);
      assert num * len < den * len by {
        assert (num + 1) * len == num * len + len;
        assert den * len == len * den;
      }
      DivBelow(num * len, den, len);
      num * len / den
    else 0
  }

  /** Every book can be the hero: the index `i` is reached with `random == i / len`. */
  lemma HeroIndexReachesAll(len: nat, i: nat)
    requires i < len
    ensures HeroIndex(len, i, len) == i
  {
    DivModUnique(i * len, len, i, 0);
  }

  /** The hero effect: once loading has finished and there are books, one of them is picked;
      otherwise the previous hero stays. */
  function HeroPick(books: seq<Record>, loading: bool, hero: Option<Record>,
                    num: nat, den: nat): (r: Option<Record>)
    requires num < den
    ensures |books| > 0 && !loading ==> r.Some? && r.value in books
    ensures !(|books| > 0 && !loading) ==> r == hero
  {
    if |books| > 0 && !loading then Some(books[HeroIndex(|books|, num, den)]) else hero
  }
}
