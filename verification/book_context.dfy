/** The favorites context of `contexts/BookContext.tsx`: a cached copy of the favorites list
    plus an error slot, on top of the store of `services/api.ts`. Every mutator awaits its store
    call and then reloads the cache wholesale. */
module BookContext {
  import opened Wrappers
  import opened Seqs
  import opened JsValue
  import opened Api

  /** The provider's state: the storage it talks to, `favoriteBooks` and `error`. */
  datatype Context = Context(store: Store, favoriteBooks: BookList, error: Option<string>)

  /** The cache shows exactly the stored favorites list. */
  predicate Consistent(c: Context) {
    c.favoriteBooks == Lookup(c.store, Favorites)
  }

  /** The provider as first mounted, before its initial refresh. */
  function Initial(store: Store): (c: Context)
    ensures c.favoriteBooks == [] && c.error == None
  {
    Context(store, [], None)
  }

  /** `refreshFavoriteBooks`: replace the cache with whatever `getBookList` yields. That call
      never throws, so the error slot is never set here. */
  function Refresh(c: Context, read: Io): (r: Context)
    ensures r.store == c.store && r.error == c.error
    ensures read.Succeeds? ==> Consistent(r)
    ensures read.Fails? ==> r.favoriteBooks == []
  {
    c.(favoriteBooks := GetBookList(c.store, Favorites, read))
  }

  /** `addFavoriteBook(book)`: save into the favorites list, then refresh. */
  function AddFavoriteBook(c: Context, book: Book, write: Io, read: Io): (r: Context)
    ensures r.error == c.error
    ensures r.store == SaveBookToList(c.store, book, Favorites, write)
    ensures read.Succeeds? ==> Consistent(r)
  {
    Refresh(c.(store := SaveBookToList(c.store, book, Favorites, write)), read)
  }

  /** `removeFavoriteBook(k)`: remove from the favorites list, then refresh. */
  function RemoveFavoriteBook(c: Context, k: string, write: Io, read: Io): (r: Context)
    ensures r.error == c.error
    ensures r.store == RemoveBookFromList(c.store, k, Favorites, write)
    ensures read.Succeeds? ==> Consistent(r)
  {
    Refresh(c.(store := RemoveBookFromList(c.store, k, Favorites, write)), read)
  }

  /** `updateBookReadingStatus(k, status)`: update the status, then refresh. */
  function UpdateBookReadingStatus(c: Context, k: string, status: string, write: Io, read: Io): (r: Context)
    ensures r.error == c.error
    ensures r.store == UpdateBookStatus(c.store, k, status, write)
    ensures read.Succeeds? ==> Consistent(r)
  {
    Refresh(c.(store := UpdateBookStatus(c.store, k, status, write)), read)
  }

  /** `isFavorite(k)`: some cached record has key `k`. */
  function IsFavorite(c: Context, k: string): (r: bool)
    ensures r <==> exists i :: 0 <= i < |c.favoriteBooks| && HasKey(c.favoriteBooks[i], k)
  {
    FindIndex(c.favoriteBooks, k) != -1
  }

  /** `toggleFavorite(book)`: remove the book when the cache holds its key, add it otherwise. */
  function ToggleFavorite(c: Context, book: Book, write: Io, read: Io): (r: Context)
    ensures r.error == c.error
    ensures r.store == if IsFavorite(c, BookKey(book))
                       then RemoveBookFromList(c.store, BookKey(book), Favorites, write)
                       else SaveBookToList(c.store, book, Favorites, write)
    ensures read.Succeeds? ==> Consistent(r)
    ensures write.Succeeds? && read.Succeeds? ==> IsFavorite(r, BookKey(book)) == !IsFavorite(c, BookKey(book))
  {
    var k := BookKey(book);
    if IsFavorite(c, k) then
      var r := RemoveFavoriteBook(c, k, write, read);
      if Favorites in c.store then RemoveDropsKey(c.store, k, Favorites); r else r
    else
      SavedKeyPresent(c.store, book, Favorites);
      AddFavoriteBook(c, book, write, read)
  }

  /** `clearError()`: empty the error slot and touch nothing else. */
  function ClearError(c: Context): (r: Context)
    ensures r.error == None
    ensures r.store == c.store && r.favoriteBooks == c.favoriteBooks
  {
    c.(error := None)
  }

  // ---------------------------------------------------------------------------------------
  // Properties of the context

  /** Toggling a book that is not a favorite twice, with storage working, gives back the
      original favorites list and leaves every other list alone. */
  lemma {:induction false} ToggleTwiceRestores(c: Context, book: Book)
    requires Consistent(c) && !IsFavorite(c, BookKey(book))
    ensures
      var r := ToggleFavorite(ToggleFavorite(c, book, Succeeds, Succeeds), book, Succeeds, Succeeds);
      && r.favoriteBooks == c.favoriteBooks
      && Lookup(r.store, Favorites) == Lookup(c.store, Favorites)
      && (forall n :: n != Favorites ==> (n in r.store <==> n in c.store) && (n in r.store ==> r.store[n] == c.store[n]))
      && r.error == c.error
  {
    var k := BookKey(book);
    var l := Lookup(c.store, Favorites);
    assert FindIndex(l, k) == -1;
    var c1 := ToggleFavorite(c, book, Succeeds, Succeeds);
    assert c1 == AddFavoriteBook(c, book, Succeeds, Succeeds);
    assert c1.favoriteBooks == l + [Stringify(book)];
    assert IsFavorite(c1, k);
    var c2 := ToggleFavorite(c1, book, Succeeds, Succeeds);
    assert c2 == RemoveFavoriteBook(c1, k, Succeeds, Succeeds);
    RemoveUndoesAppend(l, Stringify(book), k);
  }

  /** The error slot is only ever emptied: no sequence of the context's operations sets it. */
  lemma ErrorNeverSet(c: Context, book: Book, k: string, status: string, write: Io, read: Io)
    requires c.error == None
    ensures Refresh(c, read).error == None
    ensures AddFavoriteBook(c, book, write, read).error == None
    ensures RemoveFavoriteBook(c, k, write, read).error == None
    ensures UpdateBookReadingStatus(c, k, status, write, read).error == None
    ensures ToggleFavorite(c, book, write, read).error == None
  {
  }
}
