/** The state rules of `components/FreeBookCarousel.tsx`: loading the free books, the
    wrap-around index arithmetic of the arrows and the auto-scroll, `scrollToIndex`, which
    screen is shown, and the shortening of titles and author lists on the cards. */
module Carousel {
  import opened Wrappers
  import opened JsString
  import opened JsValue
  import opened Arith

  // ---------------------------------------------------------------------------------------
  // index arithmetic

  /** JavaScript's `a % n` for a positive `n`: the remainder takes the sign of `a`. */
  function JsRem(a: int, n: int): (r: int)
    requires n > 0
    ensures -n < r < n
    ensures a >= 0 ==> r >= 0
    ensures a <= 0 ==> r <= 0
    ensures (a - r) % n == 0
  {
    if a >= 0 then
      DivModUnique(a - a % n, n, a / n, 0);
      a % n
    else
      var q, m := (-a) / n, (-a) % n;
      assert -a == q * n + m;
      DivModUnique(a + m, n, -q, 0);
      -m
  }

  /** An index of a carousel of `n` books. */
  predicate InRange(i: int, n: int) {
    0 <= i < n
  }

  /** `(currentIndex + 1) % freeBooks.length`. */
  function Next(i: int, n: int): (r: int)
    requires n > 0
    ensures InRange(i, n) ==> InRange(r, n)
  {
    JsRem(i + 1, n)
  }

  /** `(currentIndex - 1 + freeBooks.length) % freeBooks.length`. */
  function Prev(i: int, n: int): (r: int)
    requires n > 0
    ensures InRange(i, n) ==> InRange(r, n)
  {
    JsRem(i - 1 + n, n)
  }

  /** On valid indices the two arrows undo each other. */
  lemma PrevNextInverse(i: int, n: int)
    requires n > 0 && InRange(i, n)
    ensures Prev(Next(i, n), n) == i
    ensures Next(Prev(i, n), n) == i
  {
    if i + 1 < n {
      DivModUnique(i + 1, n, 0, i + 1);
      DivModUnique(i + n, n, 1, i);
    } else {
      DivModUnique(i + 1, n, 1, 0);
      DivModUnique(n - 1, n, 0, n - 1);
    }
    if i > 0 {
      DivModUnique(i - 1 + n, n, 1, i - 1);
      DivModUnique(i, n, 0, i);
    } else {
      DivModUnique(n - 1, n, 0, n - 1);
      DivModUnique(n, n, 1, 0);
    }
  }

  /** `k` steps forward from `i`. */
  function Steps(i: int, n: int, k: nat): int
    requires n > 0
  {
    if k == 0 then i else Next(Steps(i, n, k - 1), n)
  }

  /** From a valid index, `k` steps forward land on `(i + k) mod n`. */
  lemma {:induction false} StepsWrap(i: int, n: int, k: nat)
    requires n > 0 && InRange(i, n)
    ensures Steps(i, n, k) == (i + k) % n
  {
    if k > 0 {
      StepsWrap(i, n, k - 1);
      var p := (i + k - 1) % n;
      NextOfNat(p, n);
      ModSucc(i + k - 1, n);
    }
  }

  /** From a non-negative index, the next index is the Euclidean successor. */
  lemma NextOfNat(p: nat, n: int)
    requires n > 0
    ensures Next(p, n) == (p + 1) % n
  {
  }

  /** Taking the successor commutes with reducing modulo `n`. */
  lemma ModSucc(a: nat, n: int)
    requires n > 0
    ensures (a % n + 1) % n == (a + 1) % n
  {
    var q, r := a / n, a % n;
    assert a == q * n + r;
    if r + 1 < n {
      DivModUnique(a + 1, n, q, r + 1);
      DivModUnique(r + 1, n, 0, r + 1);
    } else {
      assert a + 1 == (q + 1) * n + 0;
      DivModUnique(a + 1, n, q + 1, 0);
      DivModUnique(r + 1, n, 1, 0);
    }
  }

  /** A full round of `n` auto-scroll steps comes back to the starting book. */
  lemma FullRoundReturns(i: int, n: int)
    requires n > 0 && InRange(i, n)
    ensures Steps(i, n, n) == i
  {
    StepsWrap(i, n, n);
    DivModUnique(i + n, n, 1, i);
  }

  // ---------------------------------------------------------------------------------------
  // component state

  const NoBooksMessage: string := "No se encontraron libros gratuitos."
  const FetchErrorMessage: string := "Error al cargar los libros gratuitos."

  /** The component's state; `mounted` is whether the scroll view's ref is set. */
  datatype State = State(books: seq<Record>, loading: bool, error: Option<string>,
                         index: int, mounted: bool)

  const Initial: State := State([], true, None, 0, false)

  /** What the component renders. */
  datatype Screen = Spinner | ErrorText(message: string) | EmptyText | Slides

  /** The screen: the spinner while loading, else a non-empty error, else the no-books text
      when the list is empty, else the slides. */
  function ScreenOf(s: State): (v: Screen)
    ensures s.loading ==> v == Spinner
    ensures !s.loading && s.error.Some? && s.error.value != "" ==> v == ErrorText(s.error.value)
    ensures v == EmptyText <==> !s.loading && (s.error.None? || s.error.value == "") && |s.books| == 0
    ensures v == Slides <==> !s.loading && (s.error.None? || s.error.value == "") && |s.books| > 0
    ensures v.ErrorText? ==> s.error == Some(v.message) && v.message != ""
  {
    if s.loading then Spinner
    else if s.error.Some? && s.error.value != "" then ErrorText(s.error.value)
    else if |s.books| == 0 then EmptyText
    else Slides
  }

  /** The arrows exist only on the slides screen. */
  predicate ShowsNavigation(s: State) {
    ScreenOf(s) == Slides
  }

  /** The arrow handlers never reduce modulo zero: whenever they are on screen there is at
      least one book. */
  lemma NavigationHasBooks(s: State)
    requires ShowsNavigation(s)
    ensures |s.books| > 0
  {
  }

  /** `fetchFreeBooks()` with the request giving `fetched`. */
  function FetchFreeBooks(s: State, fetched: Result<seq<Record>>): (r: State)
    ensures !r.loading && r.index == s.index && r.mounted == s.mounted
    ensures fetched == Ok([]) ==> r.error == Some(NoBooksMessage) && r.books == s.books
    ensures fetched.Ok? && fetched.value != [] ==> r.error == None && r.books == fetched.value
    ensures fetched.Err? ==> r.error == Some(FetchErrorMessage) && r.books == s.books
  {
    match fetched
    case Ok(books) =>
      if |books| == 0 then s.(loading := false, error := Some(NoBooksMessage))
      else s.(loading := false, error := None, books := books)
    case Err(_) => s.(loading := false, error := Some(FetchErrorMessage))
  }

  /** On first mount an empty result shows the no-books message with no slides, a failed
      request shows the error, and a non-empty one shows the slides from the first book. */
  lemma FirstFetchScreens(fetched: Result<seq<Record>>)
    ensures var r := FetchFreeBooks(Initial, fetched);
      && (fetched == Ok([]) ==> ScreenOf(r) == ErrorText(NoBooksMessage) && r.books == [])
      && (fetched.Err? ==> ScreenOf(r) == ErrorText(FetchErrorMessage) && r.books == [])
      && (fetched.Ok? && fetched.value != [] ==> ScreenOf(r) == Slides && InRange(r.index, |r.books|))
  {
  }

  /** `scrollToIndex(index)`: the index moves only if the scroll view is mounted. */
  function ScrollToIndex(s: State, index: int): (r: State)
    ensures s.mounted ==> r == s.(index := index)
    ensures !s.mounted ==> r == s
  {
    if s.mounted then s.(index := index) else s
  }

  /** The right arrow. */
  function HandleNext(s: State): (r: State)
    requires ShowsNavigation(s)
    ensures r.books == s.books
    ensures s.mounted ==> r.index == Next(s.index, |s.books|)
    ensures !s.mounted ==> r == s
  {
    ScrollToIndex(s, Next(s.index, |s.books|))
  }

  /** The left arrow. */
  function HandlePrevious(s: State): (r: State)
    requires ShowsNavigation(s)
    ensures r.books == s.books
    ensures s.mounted ==> r.index == Prev(s.index, |s.books|)
    ensures !s.mounted ==> r == s
  {
    ScrollToIndex(s, Prev(s.index, |s.books|))
  }

  /** One tick of the three-second auto-scroll timer, which runs while there are books. */
  function AutoScroll(s: State): (r: State)
    requires |s.books| > 0
    ensures r.books == s.books
    ensures s.mounted ==> r.index == Next(s.index, |s.books|)
    ensures !s.mounted ==> r == s
  {
    ScrollToIndex(s, Next(s.index, |s.books|))
  }

  /** The arrows and the timer keep the index on a book, and the left arrow undoes the
      right one. */
  lemma StepsKeepIndexValid(s: State)
    requires ShowsNavigation(s) && InRange(s.index, |s.books|)
    ensures InRange(HandleNext(s).index, |s.books|)
    ensures InRange(HandlePrevious(s).index, |s.books|)
    ensures InRange(AutoScroll(s).index, |s.books|)
    ensures HandlePrevious(HandleNext(s)) == s
  {
    PrevNextInverse(s.index, |s.books|);
  }

  // ---------------------------------------------------------------------------------------
  // card text

  const MaxTitle: nat := 20
  const MaxAuthors: nat := 15

  /** `s.length > n ? s.slice(0, n) + "..." : s`. */
  function Shorten(s: string, n: nat): (r: string)
    ensures |s| <= n ==> r == s
    ensures |s| > n ==> |r| == n + 3 && r[..n] == s[..n] && r[n..] == "..."
  {
    if |s| > n then s[..n] + "..." else s
  }

  /** Shortening twice is shortening once. */
  lemma ShortenIdempotent(s: string, n: nat)
    ensures Shorten(Shorten(s, n), n) == Shorten(s, n)
  {
    if |s| > n {
      var r := Shorten(s, n);
      assert r[..n] == s[..n];
    }
  }

  /** The card title. */
  function CardTitle(title: string): (r: string)
    ensures |r| <= MaxTitle + 3
    ensures |title| <= MaxTitle ==> r == title
    ensures |title| > MaxTitle ==> r == title[..MaxTitle] + "..."
  {
    Shorten(title, MaxTitle)
  }

  /** The card author line: a missing author list shows "Autor desconocido"; any list, even an
      empty one, is joined with ", " and shortened. */
  function CardAuthors(authors: Option<seq<string>>): (r: string)
    ensures authors.None? ==> r == "Autor desconocido"
    ensures authors.Some? ==> r == Shorten(Join(authors.value, ", "), MaxAuthors)
  {
    match authors
    case None => "Autor desconocido"
    case Some(names) => Shorten(Join(names, ", "), MaxAuthors)
  }

  /** An empty author array is truthy, so it shows an empty line rather than the fallback. */
  lemma EmptyAuthorsShowBlank()
    ensures CardAuthors(Some([])) == ""
  {
  }
}
