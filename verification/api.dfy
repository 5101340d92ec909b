/** The favorites store of `services/api.ts`: named book lists kept in the device's key-value
    storage, read, changed and written back whole on every operation. */
module Api {
  import opened Wrappers
  import opened Seqs
  import opened JsValue

  /** A stored list: the parsed JSON array. */
  type BookList = seq<StoredRecord>

  /** The key-value storage: list name to its stored list. A name never written is absent
      (`getItem` yields `null`). */
  type Store = map<string, BookList>

  /** The only list name the application uses. */
  const Favorites: string := "favoritos"

  /** Whether the storage calls of one operation go through, or one of them throws
      (unreadable or unwritable storage, stored text that is not a JSON array). */
  datatype Io = Succeeds | Fails

  /** The list stored under `name`, or `[]` when nothing was ever written there. */
  function Lookup(store: Store, name: string): BookList {
    if name in store then store[name] else []
  }

  /** At most one record per string key. */
  predicate UniqueKeys(l: BookList) {
    forall i, j :: 0 <= i < j < |l| && KeyOf(l[i]).Str? ==> KeyOf(l[i]) != KeyOf(l[j])
  }

  /** `list.findIndex(b => b.key === k)`. */
  function FindIndex(l: BookList, k: string): (i: int)
    ensures -1 <= i < |l|
    ensures i == -1 <==> forall j :: 0 <= j < |l| ==> !HasKey(l[j], k)
    ensures 0 <= i ==> HasKey(l[i], k) && forall j :: 0 <= j < i ==> !HasKey(l[j], k)
  {
    if |l| == 0 then -1
    else if HasKey(l[0], k) then 0
    else
      var j := FindIndex(l[1..], k);
      if j == -1 then -1 else j + 1
  }

  /** `merged` is what `JSON.stringify({ ...older, ...book })` stores: the fields the book
      defines, plus the fields of the old record the book does not mention. A field the book
      sets to `undefined` disappears. */
  predicate MergedInto(older: StoredRecord, book: Record, merged: StoredRecord) {
    && (forall f :: f in book && book[f] != Undefined ==> f in merged && merged[f] == book[f])
    && (forall f :: f in book && book[f] == Undefined ==> f !in merged)
    && (forall f :: f !in book && f in older ==> f in merged && merged[f] == older[f])
    && (forall f :: f in merged ==> f in book || f in older)
  }

  /** The list part of `saveBookToList`: merge into the first record with the book's key, or
      append the book. */
  function Upsert(l: BookList, book: Book): (r: BookList)
    ensures FindIndex(l, BookKey(book)) != -1 ==>
      var i := FindIndex(l, BookKey(book));
      && |r| == |l|
      && MergedInto(l[i], book, r[i])
      && (forall j :: 0 <= j < |l| && j != i ==> r[j] == l[j])
    ensures FindIndex(l, BookKey(book)) == -1 ==>
      && |r| == |l| + 1 && r[..|l|] == l
      && MergedInto(map[], book, r[|l|])
  {
    var i := FindIndex(l, BookKey(book));
    if i != -1 then l[i := Stringify(Spread(l[i], book))] else l + [Stringify(book)]
  }

  /** `saveBookToList(book, name)`: upsert into the named list. A storage fault is caught and
      logged and leaves the store as it was; nothing is ever thrown to the caller. */
  function SaveBookToList(store: Store, book: Book, name: string, io: Io): (r: Store)
    ensures io.Fails? ==> r == store
    ensures io.Succeeds? ==> name in r && r[name] == Upsert(Lookup(store, name), book)
    ensures forall n :: n != name ==> (n in r <==> n in store) && (n in r ==> r[n] == store[n])
  {
    match io
    case Fails => store
    case Succeeds => store[name := Upsert(Lookup(store, name), book)]
  }

  /** `getBookList(name)`: the stored list, `[]` for a name never written, and `[]` as well
      when reading fails (the fault is logged, not thrown). */
  function GetBookList(store: Store, name: string, io: Io): (r: BookList)
    ensures io.Fails? ==> r == []
    ensures io.Succeeds? && name in store ==> r == store[name]
    ensures name !in store ==> r == []
  {
    match io
    case Fails => []
    case Succeeds => Lookup(store, name)
  }

  /** Whether a record survives `removeBookFromList(k, …)`. */
  function Keeps(k: string): StoredRecord -> bool {
    (b: StoredRecord) => !HasKey(b, k)
  }

  /** `removeBookFromList(k, name)`: drop every record with key `k` when the list exists;
      a list never written stays unwritten. Faults are swallowed. */
  function RemoveBookFromList(store: Store, k: string, name: string, io: Io): (r: Store)
    ensures io.Fails? || name !in store ==> r == store
    ensures io.Succeeds? && name in store ==> name in r && r[name] == Filter(store[name], Keeps(k))
    ensures forall n :: n != name ==> (n in r <==> n in store) && (n in r ==> r[n] == store[n])
  {
    if io.Succeeds? && name in store then store[name := Filter(store[name], Keeps(k))] else store
  }

  /** The record `{ ...b, readingStatus: status }` as stored. */
  function WithStatus(b: StoredRecord, status: string): (r: StoredRecord)
    ensures Get(r, "readingStatus") == Str(status)
    ensures forall f :: f != "readingStatus" ==> (f in r <==> f in b) && (f in b ==> r[f] == b[f])
  {
    Stringify(Spread(b, map["readingStatus" := Str(status)]))
  }

  /** The list part of `updateBookStatus`: every record with key `k` gets the status. */
  function SetStatus(l: BookList, k: string, status: string): (r: BookList)
    ensures |r| == |l|
    ensures forall i :: 0 <= i < |l| && HasKey(l[i], k) ==> r[i] == WithStatus(l[i], status)
    ensures forall i :: 0 <= i < |l| && !HasKey(l[i], k) ==> r[i] == l[i]
  {
    if |l| == 0 then []
    else [if HasKey(l[0], k) then WithStatus(l[0], status) else l[0]] + SetStatus(l[1..], k, status)
  }

  /** `updateBookStatus(k, status)`: always on the favorites list, only when it exists.
      Faults are swallowed. */
  function UpdateBookStatus(store: Store, k: string, status: string, io: Io): (r: Store)
    ensures io.Fails? || Favorites !in store ==> r == store
    ensures io.Succeeds? && Favorites in store ==>
      Favorites in r && r[Favorites] == SetStatus(store[Favorites], k, status)
    ensures forall n :: n != Favorites ==> (n in r <==> n in store) && (n in r ==> r[n] == store[n])
  {
    if io.Succeeds? && Favorites in store then
      store[Favorites := SetStatus(store[Favorites], k, status)]
    else store
  }

  /** The self-exclusion filter of `getRecommendedBooks`: the fetched items whose `id` is not
      the requested book's. */
  function ExcludeRequested(items: seq<Record>, bookId: string): (r: seq<Record>)
    ensures forall i :: 0 <= i < |r| ==> Get(r[i], "id") != Str(bookId)
    ensures forall i :: 0 <= i < |items| && Get(items[i], "id") != Str(bookId) ==> items[i] in r
    ensures multiset(r) <= multiset(items)
    ensures forall x :: multiset(r)[x] == if Get(x, "id") != Str(bookId) then multiset(items)[x] else 0
  {
    var keep := (item: Record) => Get(item, "id") != Str(bookId);
    FilterMultiset(items, keep);
    assert forall x :: multiset(Filter(items, keep))[x] == if keep(x) then multiset(items)[x] else 0 by {
      forall x ensures multiset(Filter(items, keep))[x] == if keep(x) then multiset(items)[x] else 0 {
        FilterCount(items, keep, x);
      }
    }
    Filter(items, keep)
  }

  // ---------------------------------------------------------------------------------------
  // Properties of the store operations

  /** A list name never written reads as `[]`, and saving into it creates the one-record list. */
  lemma SaveIntoUnwritten(store: Store, book: Book, name: string)
    requires name !in store
    ensures GetBookList(store, name, Succeeds) == []
    ensures SaveBookToList(store, book, name, Succeeds)[name] == [Stringify(book)]
  {
  }

  /** After a successful save the book's key is in the list. */
  lemma SavedKeyPresent(store: Store, book: Book, name: string)
    ensures FindIndex(Lookup(SaveBookToList(store, book, name, Succeeds), name), BookKey(book)) != -1
  {
    var l := Lookup(store, name);
    var r := Lookup(SaveBookToList(store, book, name, Succeeds), name);
    var i := FindIndex(l, BookKey(book));
    if i != -1 {
      assert HasKey(r[i], BookKey(book));
    } else {
      assert HasKey(r[|l|], BookKey(book));
    }
  }

  /** Saving keeps the list free of duplicate keys. */
  lemma {:induction false} SaveKeepsUniqueKeys(store: Store, book: Book, name: string, io: Io)
    requires UniqueKeys(Lookup(store, name))
    ensures UniqueKeys(Lookup(SaveBookToList(store, book, name, io), name))
  {
    var l := Lookup(store, name);
    var r := Lookup(SaveBookToList(store, book, name, io), name);
    if io.Succeeds? {
      var i := FindIndex(l, BookKey(book));
      if i != -1 {
        assert KeyOf(r[i]) == KeyOf(l[i]);
        assert forall j :: 0 <= j < |r| ==> KeyOf(r[j]) == KeyOf(l[j]);
      } else {
        assert forall j :: 0 <= j < |l| ==> r[j] == l[j];
        assert KeyOf(r[|l|]) == Str(BookKey(book));
      }
    }
  }

  /** Removing a key leaves no record with it and keeps every other record. */
  lemma RemoveDropsKey(store: Store, k: string, name: string)
    requires name in store
    ensures
      var r := RemoveBookFromList(store, k, name, Succeeds)[name];
      && FindIndex(r, k) == -1
      && forall i :: 0 <= i < |store[name]| && !HasKey(store[name][i], k) ==> store[name][i] in r
  {
    var r := RemoveBookFromList(store, k, name, Succeeds)[name];
    assert forall i :: 0 <= i < |r| ==> Keeps(k)(r[i]);
  }

  /** Removing an absent key leaves the store exactly as it was. */
  lemma RemoveAbsentKey(store: Store, k: string, name: string, io: Io)
    requires FindIndex(Lookup(store, name), k) == -1
    ensures RemoveBookFromList(store, k, name, io) == store
  {
    if io.Succeeds? && name in store {
      assert forall i :: 0 <= i < |store[name]| ==> Keeps(k)(store[name][i]);
      assert store[name := store[name]] == store;
    }
  }

  /** Removal keeps the surviving records in order: filtering distributes over concatenation,
      so appending a record and removing its key gives back the original list. */
  lemma {:induction false} RemoveUndoesAppend(l: BookList, b: StoredRecord, k: string)
    requires HasKey(b, k) && FindIndex(l, k) == -1
    ensures Filter(l + [b], Keeps(k)) == l
  {
    FilterAppend(l, [b], Keeps(k));
    assert forall i :: 0 <= i < |l| ==> Keeps(k)(l[i]);
    assert Filter([b], Keeps(k)) == [] by {
      assert [b][1..] == [];
    }
  }

  /** Updating the status changes `readingStatus` of the matching records and nothing else. */
  lemma UpdateStatusOnlyTouchesStatus(store: Store, k: string, status: string, i: int)
    requires Favorites in store && 0 <= i < |store[Favorites]|
    ensures
      var old_ := store[Favorites][i];
      var new_ := UpdateBookStatus(store, k, status, Succeeds)[Favorites][i];
      && (HasKey(old_, k) ==> Get(new_, "readingStatus") == Str(status))
      && (forall f :: f != "readingStatus" ==> Get(new_, f) == Get(old_, f))
      && (!HasKey(old_, k) ==> new_ == old_)
  {
  }

  /** Updating the status keeps the keys, hence keeps them unique. */
  lemma UpdateStatusKeepsUniqueKeys(store: Store, k: string, status: string, io: Io)
    requires UniqueKeys(Lookup(store, Favorites))
    ensures UniqueKeys(Lookup(UpdateBookStatus(store, k, status, io), Favorites))
  {
    var l := Lookup(store, Favorites);
    var r := Lookup(UpdateBookStatus(store, k, status, io), Favorites);
    assert forall j :: 0 <= j < |r| ==> KeyOf(r[j]) == KeyOf(l[j]);
  }
}
