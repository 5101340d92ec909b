# Cuento-nauta core in Dafny

A model of the logic inside the Cuento-nauta reading app (React Native / TypeScript), with
proofs of what that logic promises. Five parts are covered:

- **The favorites store** (`services/api.ts`). Named book lists live in the device's key-value
  storage, written as JSON. Saving a book merges it into the first record with the same `key`,
  or appends it. Removing drops every record with the key. The status update always works on
  the `favoritos` list. Every operation swallows its own storage faults. The recommendation
  request leaves out the book it was asked about.
- **The favorites context** (`contexts/BookContext.tsx`). This is a cache of the `favoritos`
  list plus an error slot. Every mutator writes through the store and then reloads the cache
  wholesale. `toggleFavorite` branches on whether the cache holds the key.
- **The string and number helpers**:
  - `utils/validation.ts`: the query, id and status validators, the query sanitiser and the
    description cleaner;
  - `utils/accessibility.ts`: the label and hint builders;
  - `utils/performance.ts`: the throttle, the time-limited cache and the image URL rewriting.
- **The featured-books hook** (`hooks/useFeaturedBooks.ts`). It applies a quality filter, a
  shuffle and the first twelve, with a cache-first path. It also has `refresh` and the hero
  pick.
- **The free-book carousel** (`components/FreeBookCarousel.tsx`). This covers wrap-around index
  arithmetic, auto-scroll, loading the books, the screen shown, and shortening of card titles
  and authors.

Records are maps from field name to a JavaScript value (`JsValue.Value`). Object spread is a
right-biased map union, and `JSON.stringify` drops fields that hold `undefined`. The storage is
a map from list name to list. One `Io` argument per operation says whether its storage calls go
through. Clocks (`Date.now()`) are explicit `now` arguments. `Math.random` becomes explicit
choices: a sequence of picks for the shuffle, and a fraction `num / den` in `[0, 1)` for the
hero.

Modules follow the source files: `Api`, `BookContext`, `Validation`, `Accessibility`,
`Performance`, `FeaturedBooks` and `Carousel`. Shared helpers are in `Wrappers`, `Seqs`,
`JsValue`, `JsString` and `Arith`.

## Model

| member | source | states |
|---|---|---|
| Api.FindIndex | services/api.ts:225 | `-1` exactly when no record has the key; otherwise the index of the first record with it |
| Api.Upsert | services/api.ts:224-232 | with the key present, only the first matching record changes, to the merge: incoming fields win, fields set to `undefined` vanish, other old fields stay; length and the other positions are unchanged. Otherwise the stored book is appended and the earlier records are unchanged |
| Api.SaveBookToList | services/api.ts:221-237 | a fault leaves the store as it was and is not rethrown. Otherwise only the named list changes, to the upsert of its old contents, and a never-written list counts as `[]` |
| Api.GetBookList | services/api.ts:240-248 | the stored list; `[]` for a name never written and `[]` on a read fault |
| Api.RemoveBookFromList | services/api.ts:251-262 | on an existing list, only that list changes, to the records without the key, in order. A missing list stays missing, and a fault changes nothing |
| Api.WithStatus | services/api.ts:211 | the record gets `readingStatus` set to the status; every other field is unchanged |
| Api.SetStatus | services/api.ts:210-212 | same length; records with the key get the status and all others are unchanged |
| Api.UpdateBookStatus | services/api.ts:205-218 | only the `favoritos` list changes, and only when it exists (a missing list is not created); a fault changes nothing |
| Api.ExcludeRequested | services/api.ts:191-192 | no returned item has the requested id; every other item is kept as many times as it occurs; nothing is added |
| Api.SavedKeyPresent | services/api.ts:225-233 | after a successful save the book's key is found in the list |
| Api.SaveKeepsUniqueKeys | services/api.ts:225-233 | a list with at most one record per key keeps that property through a save |
| Api.RemoveDropsKey | services/api.ts:256 | after removal no record has the key and every record without it is still there |
| Api.RemoveAbsentKey | services/api.ts:253-257 | removing a key that is not in the list leaves the whole store unchanged |
| Api.RemoveUndoesAppend | services/api.ts:256 | removing the key of a record appended to a list without that key gives back the original list |
| Api.UpdateStatusKeepsUniqueKeys | services/api.ts:210-213 | the status update keeps every key, so unique keys stay unique |
| JsValue.Spread | services/api.ts:228 | `{...older, ...newer}` has the fields of both, and the newer value wins |
| JsValue.Stringify | services/api.ts:233 | the JSON round trip keeps exactly the fields not holding `undefined`, with their values |
| JsValue.StringifyStored | services/api.ts:242-244 | a record read back from storage survives another JSON round trip unchanged |
| BookContext.Refresh | contexts/BookContext.tsx:42-49 | the cache becomes the stored `favoritos` list (or `[]` on a read fault); the store and the error slot are unchanged |
| BookContext.AddFavoriteBook | contexts/BookContext.tsx:57-64 | the store is the result of saving into `favoritos`; after a successful reload the cache equals the stored list; the error slot is unchanged |
| BookContext.RemoveFavoriteBook | contexts/BookContext.tsx:67-74 | the store is the result of removing from `favoritos`; after a successful reload the cache equals the stored list; the error slot is unchanged |
| BookContext.UpdateBookReadingStatus | contexts/BookContext.tsx:77-84 | the store is the result of the status update; after a successful reload the cache equals the stored list; the error slot is unchanged |
| BookContext.IsFavorite | contexts/BookContext.tsx:97-99 | true exactly when some cached record has the key |
| BookContext.ToggleFavorite | contexts/BookContext.tsx:87-94 | the store becomes the removal from `favoritos` when the cache holds the key, and the save into `favoritos` otherwise. With storage working, `isFavorite` of the key flips; the cache ends equal to the stored list; the error slot is unchanged |
| BookContext.ClearError | contexts/BookContext.tsx:101-103 | the error slot is empty and the cache and store are unchanged |
| BookContext.ToggleTwiceRestores | contexts/BookContext.tsx:87-94 | toggling a non-favourite twice gives back the original cache and `favoritos` list, and leaves every other list alone |
| Validation.ValidateSearchQuery | utils/validation.ts:6-10 | accepted exactly when the trimmed query has 2 to 100 characters; the empty query is rejected |
| Validation.BlankQueryRejected | utils/validation.ts:7-9 | a query of whitespace only is rejected, however long |
| JsString.Trim | utils/validation.ts:8 | the result has no leading or trailing whitespace; it is the input without its leading and trailing whitespace runs |
| JsString.TrimFixesTrimmed | utils/validation.ts:17 | trimming text with no outer whitespace changes nothing |
| JsString.TrimEmptyIffAllSpace | utils/validation.ts:8-9 | the trimmed text is empty exactly when the input is all whitespace |
| Validation.SanitizeSearchQuery | utils/validation.ts:13-18 | the result is the query with every `<`, `>` and `&` deleted and every other character kept in order, then trimmed; so it has no unsafe character, no outer whitespace and only characters of the input |
| Validation.FilterTwice | utils/validation.ts:15-16 | deleting `<` and `>` and then `&` deletes exactly the three unsafe characters and keeps the rest in order |
| Validation.SanitizeIdempotent | utils/validation.ts:13-18 | sanitising twice equals sanitising once |
| Validation.ValidateBookId | utils/validation.ts:21-23 | accepted exactly when the id is non-empty, has at most 50 characters and consists of `A-Z a-z 0-9 _ -` |
| Validation.ValidateReadingStatusAsWritten | utils/validation.ts:26-29 | accepts exactly the three strings listed, the first of which is the misencoded `LeÃ­do` |
| Validation.AsWrittenRejectsRead | utils/validation.ts:27 | the correctly encoded `Leído` is rejected and the misencoded one accepted |
| Validation.ValidateReadingStatus | utils/validation.ts:26-29 | corrected: accepts exactly `Leído`, `Por leer` and `Leyendo`, the `ReadingStatus` values of services/api.ts:4 |
| Validation.ValidateReadingStatusCorrected | utils/validation.ts:26-29 | the corrected and as-written validators differ only on `Leído` and on its misencoded form |
| Validation.StripTags | utils/validation.ts:36 | the result has no `<` followed later by `>`, and text that already has none (so nothing for `<[^>]*>` to match) is unchanged |
| Validation.StripTagsDeletesTag | utils/validation.ts:36 | a tag `<t>` (no `>` inside) preceded by text without `<` is deleted whole: the text before it is kept and stripping goes on after it; with the StripTags contract this fixes the result for every input |
| Validation.RemoveScript | utils/validation.ts:39 | text without `javascript:` (any letter case) is unchanged; text with one gets shorter; no tag is created |
| Validation.CollapseSpace | utils/validation.ts:42 | no two whitespace characters in a row, every whitespace character is a plain space, and the result starts with whitespace exactly when the input does |
| Validation.CollapseGap | utils/validation.ts:42 | a whitespace run between two non-whitespace characters becomes exactly one space: collapsing `x + w + y` is collapsing `x`, a space, and collapsing `y` |
| Validation.CollapseKeepsText | utils/validation.ts:42 | the non-whitespace characters, in order, are exactly those of the input |
| Validation.CollapseFixesSpaced | utils/validation.ts:42 | text already single-spaced with plain spaces is unchanged |
| Validation.SpaceNormalize | utils/validation.ts:42 | trimmed, single-spaced, plain spaces only, and the non-whitespace characters are exactly those of the input, in order |
| Validation.TrimKeepsText | utils/validation.ts:42 | `trim` deletes only whitespace: the other characters stay, in order |
| Validation.SpaceNormalizeGap | utils/validation.ts:42 | a whitespace run between two trimmed pieces of text is normalised to one space between their normalised forms |
| Validation.SpaceNormalizeOuterSpace | utils/validation.ts:42 | whitespace before or after any text, including all-whitespace text, is dropped: padding the input does not change the result; with the gap lemma this fixes the result on every input |
| Validation.SpaceNormalizeAllSpace | utils/validation.ts:42 | text that is all whitespace normalises to the empty string |
| Validation.NormalizeDescription | utils/validation.ts:36-42 | the text before the length cut is trimmed, single-spaced and free of tags, and its non-whitespace characters are exactly those left after tag stripping and `javascript:` removal, in order; it is the whitespace normalisation of that text, so the outer-space and gap lemmas fix it exactly |
| Validation.Truncate | utils/validation.ts:45-47 | text of at most 1000 characters is unchanged; longer text becomes its first 1000 characters plus `...` |
| Validation.CleanAndFormatDescription | utils/validation.ts:32-50 | `""` for `""`; at most 1003 characters; trimmed, single-spaced, no tags; normalised text of at most 1000 characters is returned whole, otherwise its first 1000 plus `...` |
| Validation.CleanFixesPlainText | utils/validation.ts:32-50 | short, single-spaced, trimmed text without tags or `javascript:` comes back unchanged |
| Validation.CleanLeavesScript | utils/validation.ts:39 | as written, the cleaner turns `javajavascript:script:` into `javascript:` |
| Validation.SinglePassLeavesScript | utils/validation.ts:39 | one removal pass over `javajavascript:script:` leaves exactly `javascript:` |
| Validation.RemoveScriptKeepsPrefix | utils/validation.ts:39 | a prefix in which no match starts passes through the removal untouched, and the removal goes on after it |
| Validation.RemoveScriptDeletesMatch | utils/validation.ts:39 | the first match (any letter case) is deleted and only it: the text before it is kept and the removal goes on after it |
| Validation.RemoveScriptFully | utils/validation.ts:39 | corrected: repeating the removal until nothing changes leaves no `javascript:` and creates no tag |
| Validation.RemoveScriptFullyStep | utils/validation.ts:39 | corrected: the full removal of a text equals the full removal of what one pass leaves, so the single-pass lemmas fix it on every input |
| Validation.CollapseKeepsNoScript | utils/validation.ts:42 | collapsing whitespace never assembles a `javascript:` |
| Validation.TruncateKeepsNoScript | utils/validation.ts:45-47 | the length cut and its ellipsis never assemble a `javascript:` |
| Validation.NormalizeDescriptionFixed | utils/validation.ts:36-42 | corrected pipeline before the cut: trimmed, single-spaced, no tags and no `javascript:`; its non-whitespace characters are those left by tag stripping and full removal, in order, and it is the whitespace normalisation of that text |
| Validation.CleanAndFormatDescriptionFixed | utils/validation.ts:32-50 | corrected cleaner: the same shape guarantees plus no `javascript:` in the output; it agrees with the as-written cleaner whenever the tag-stripped text holds no `javascript:` |
| Performance.Invoke | utils/performance.ts:18-32 | the call goes through exactly when `now - lastCall >= delay`, and then `lastCall` becomes `now` |
| Performance.FiredTimesSpaced | utils/performance.ts:18-32 | consecutive calls that go through are at least `delay` apart |
| Performance.FiredTimesPairwiseSpaced | utils/performance.ts:18-32 | with a non-negative delay, any two calls that go through are at least `delay` apart |
| Performance.NewThrottle | utils/performance.ts:19-23 | a new throttle keeps its delay and has `lastCall` 0 |
| Performance.FirstCallFires | utils/performance.ts:23-30 | the first call goes through exactly when the clock reads at least `delay` |
| Performance.DefaultCache | utils/performance.ts:39-41 | the shared cache starts empty with `maxAge` 300000 ms |
| Performance.NewCache | utils/performance.ts:35-41 | a new cache has the given `maxAge` and no entries |
| Performance.NewCacheMisses | utils/performance.ts:50-53 | a new cache misses every key and is left as it is |
| Performance.Set | utils/performance.ts:43-48 | the key now holds the data stamped `now`; every other key is unchanged |
| Performance.Get | utils/performance.ts:50-61 | nothing for an absent key. An entry older than `maxAge` yields nothing and is deleted. Otherwise it yields the stored data, with the cache unchanged |
| Performance.Clear | utils/performance.ts:63-65 | no entries remain and `maxAge` is kept |
| Performance.OptimizeImageUrl | utils/performance.ts:71-85 | `""` for a missing or empty url. Otherwise the url has a leading `http:` replaced by `https:`, and the zoom parameter of the size is appended (medium by default) |
| Performance.OptimizedUrlIsHttpsAndSized | utils/performance.ts:71-85 | the result never starts with `http:`; different sizes give different urls; no size means medium |
| Performance.ForceHttps | utils/performance.ts:82 | the result never starts with `http:`; an `http:` url gains exactly one `s` after `http` and is otherwise unchanged; any other url is left as it is |
| Performance.ForceHttpsIdempotent | utils/performance.ts:82 | forcing https twice is forcing it once |
| Accessibility.BookLabel | utils/accessibility.ts:6-32 | starts with `Libro: ` and the title, then the authors clause exactly when there are authors, then the year clause when a year is given; ends with the status clause |
| Accessibility.YearClauseInserted | utils/accessibility.ts:19-21 | a non-empty year inserts exactly `, publicado en <year>` after the title and authors and changes nothing else; an empty year is the same as none |
| Accessibility.FavoriteClauseInserted | utils/accessibility.ts:23-25 | the favourite flag inserts exactly `, en favoritos` before the status clause and changes nothing else |
| Accessibility.BookHint | utils/accessibility.ts:35-52 | starts with `Toca para ver detalles`; includes the preview clause when there is a preview; ends with the quitar clause exactly when the book is a favourite, otherwise with the agregar clause |
| Accessibility.HintDeterminesFlags | utils/accessibility.ts:35-52 | different flag combinations give different hints |
| Accessibility.ReadingStatusLabel | utils/accessibility.ts:55-66 | the three statuses get their three labels |
| Accessibility.ReadingStatusLabelsDistinct | utils/accessibility.ts:55-66 | the three labels differ from each other and from `Sin estado de lectura`, which every other input gets |
| Accessibility.ButtonLabel | utils/accessibility.ts:69-84 | an action outside the table comes back unchanged; a table action gets its non-empty table entry |
| Accessibility.ActionLabel | utils/accessibility.ts:70-81 | the table has an entry exactly for the ten actions `favorite`, `unfavorite`, `search`, `clear`, `back`, `close`, `retry`, `refresh`, `details` and `read`, and every entry is non-empty |
| Accessibility.ButtonLabelMentionsItem | utils/accessibility.ts:70-81 | a given item name appears in the favourite, unfavourite, details and read labels; the other actions ignore it |
| Accessibility.FormFieldProps | utils/accessibility.ts:87-112 | the label is extended with `, requerido` and then `, error: …`. It is invalid exactly when the error is non-empty, and carries a hint exactly when the hint is non-empty |
| Accessibility.ListItemProps | utils/accessibility.ts:136-143 | the label is the description followed by `, elemento <index+1> de <total>` |
| JsString.NatToStringRoundTrip | utils/accessibility.ts:141 | reading back the decimal digits of a position gives the number |
| Accessibility.PositionInjective | utils/accessibility.ts:141 | different position/total pairs give different `elemento … de …` texts |
| Accessibility.ListItemLabelDeterminesPosition | utils/accessibility.ts:141 | for non-negative position and total, different positions give different labels |
| Accessibility.ImageAccessibilityProps | utils/accessibility.ts:165-186 | a decorative image has no label and is hidden. Otherwise the label is `Portada del libro ` and the title, plus ` de ` and the joined authors when there are any |
| FeaturedBooks.Shuffle | hooks/useFeaturedBooks.ts:45-46 | the shuffle is a permutation: same elements, same counts |
| FeaturedBooks.ShuffleReachesEveryOrder | hooks/useFeaturedBooks.ts:45-46 | every ordering of the books is the outcome of some sequence of picks |
| FeaturedBooks.IsQualityBook | hooks/useFeaturedBooks.ts:37-42 | a book qualifies when its cover, title, non-empty author list and description of more than 50 characters are all present and truthy |
| FeaturedBooks.QualityNeedsEveryField | hooks/useFeaturedBooks.ts:37-42 | a book missing its cover, title, authors or description, with an empty author array, or with a description of at most 50 characters is never featured |
| FeaturedBooks.SelectFeatured | hooks/useFeaturedBooks.ts:37-47 | at most 12 books, all passing the quality filter, drawn from the fetched ones. All quality books are kept when there are at most 12, and exactly 12 are taken otherwise |
| FeaturedBooks.LoadFeaturedBooks | hooks/useFeaturedBooks.ts:20-65 | loading ends false. On a cache hit the cached array is shown and nothing is fetched. A fetched selection is shown and cached under `featured_books_main`. On error the message is set and the cached books, if any, are shown |
| FeaturedBooks.LoadedBooksAreFeatured | hooks/useFeaturedBooks.ts:33-51 | after a fetch the shown books are quality books, at most 12, drawn from the result, and the cache returns them |
| FeaturedBooks.CacheHitIsStable | hooks/useFeaturedBooks.ts:25-31 | a cache hit leaves the cache as it was, so an immediate reload hits again with the same books |
| FeaturedBooks.IsolatedErrorFindsNoCache | hooks/useFeaturedBooks.ts:53-61 | with nobody else writing the cache during the request, the error fallback finds nothing and the previous books stay |
| FeaturedBooks.Refresh | hooks/useFeaturedBooks.ts:67-71 | after clearing the cache the reload always fetches |
| FeaturedBooks.HeroIndex | hooks/useFeaturedBooks.ts:93 | the index lies in `[0, len)` for a non-empty list |
| FeaturedBooks.HeroIndexReachesAll | hooks/useFeaturedBooks.ts:93 | every index can be chosen |
| FeaturedBooks.HeroPick | hooks/useFeaturedBooks.ts:90-96 | once loading is over and there are books, the hero is one of them; otherwise the previous hero stays |
| Carousel.JsRem | components/FreeBookCarousel.tsx:48 | JavaScript `%`: magnitude below `n`, the sign of the dividend, and a difference from it that is a multiple of `n` |
| Carousel.Next | components/FreeBookCarousel.tsx:74-77 | a valid index maps to a valid index |
| Carousel.Prev | components/FreeBookCarousel.tsx:69-72 | a valid index maps to a valid index |
| Carousel.PrevNextInverse | components/FreeBookCarousel.tsx:69-77 | on valid indices previous undoes next and next undoes previous |
| Carousel.StepsWrap | components/FreeBookCarousel.tsx:47-49 | `k` auto-scroll steps from `i` land on `(i + k) mod n` |
| Carousel.FullRoundReturns | components/FreeBookCarousel.tsx:47-49 | `n` auto-scroll steps return to the starting index |
| Carousel.ScreenOf | components/FreeBookCarousel.tsx:79-97 | the spinner while loading; otherwise a non-empty error is shown before anything else; otherwise the no-books text exactly when the list is empty, and the slides (with arrows) exactly when it is not |
| Carousel.FetchFreeBooks | components/FreeBookCarousel.tsx:24-40 | loading ends. An empty result sets `No se encontraron libros gratuitos.` and leaves the books alone. A failure sets `Error al cargar los libros gratuitos.`. Otherwise the books are the result and there is no error |
| Carousel.FirstFetchScreens | components/FreeBookCarousel.tsx:24-40 | from the initial state an empty result shows the message with no books; a non-empty result shows the slides at a valid index |
| Carousel.ScrollToIndex | components/FreeBookCarousel.tsx:56-61 | the index changes, to the target, only when the scroll view is mounted |
| Carousel.HandleNext | components/FreeBookCarousel.tsx:74-77 | with the view mounted the index moves to the next one; otherwise nothing changes |
| Carousel.HandlePrevious | components/FreeBookCarousel.tsx:69-72 | with the view mounted the index moves to the previous one; otherwise nothing changes |
| Carousel.AutoScroll | components/FreeBookCarousel.tsx:45-54 | with the view mounted each tick moves to the next index; otherwise nothing changes |
| Carousel.StepsKeepIndexValid | components/FreeBookCarousel.tsx:69-77 | arrows and timer keep the index on a book, and the left arrow undoes the right one |
| Carousel.Shorten | components/FreeBookCarousel.tsx:120-125 | text within the limit is unchanged; longer text becomes its first `n` characters plus `...` |
| Carousel.ShortenIdempotent | components/FreeBookCarousel.tsx:120 | shortening twice equals shortening once |
| Carousel.CardTitle | components/FreeBookCarousel.tsx:120 | at most 23 characters; titles of at most 20 are shown whole, longer ones as their first 20 plus `...` |
| Carousel.CardAuthors | components/FreeBookCarousel.tsx:121-127 | no author list shows `Autor desconocido`; a list is joined with `, ` and cut at 15 characters |
| Carousel.EmptyAuthorsShowBlank | components/FreeBookCarousel.tsx:122 | an empty author array is truthy, so it shows an empty line, not the fallback |

## Left out

- Storage and network I/O is not modelled as such. AsyncStorage becomes the `Store` map plus an `Io` outcome per operation. The Google Books requests (`searchBooks`, `searchBooksReadOnLine`, `getBookDetails`, `getRecommendedBooks`) become their results, passed in as arguments. Only the self-exclusion filter of `getRecommendedBooks` is modelled.
- The description cleaner of services/api.ts:23-40 is not modelled. It relies on regex word boundaries, an initials heuristic and a `##` marker. The cleaner modelled is the one in utils/validation.ts.
- `validatePreviewUrl` is not modelled, because it depends on the WHATWG URL parser.
- `debounce`, `BatchRequestManager` and the request cancellation in the search hook are not modelled, because they are timers, promises and cancellation.
- Interleavings of concurrent async calls are not modelled. Every operation runs to completion before the next starts. The one place where another writer matters, the featured-books cache during a request, takes the cache as an argument.
- `Math.random` is replaced by explicit choices, as described above. The comparator `() => 0.5 - Math.random()` is taken to yield some permutation. `FeaturedBooks.ShuffleReachesEveryOrder` shows the picks cover every permutation; which permutations an engine's sort actually produces is not modelled.
- `handleScroll` (components/FreeBookCarousel.tsx:63-67) is not modelled: it uses float division and rounding. The index invariant is stated for the arrows and the timer only.
- String lengths count Unicode scalar values. JavaScript's `length`, `slice` and `substring` count UTF-16 code units, so the 20, 15, 50 and 1000 character limits differ for text outside the Basic Multilingual Plane.
- Inputs are assumed to have their declared types. The `typeof … !== 'string'` guards of utils/validation.ts are not modelled, and numbers are integers (no NaN, no fractions).
- Api.ExcludeRequested: the contract states which items are kept and how many times each occurs, but not that they keep their relative order; the body is the order-preserving `Seqs.Filter`.
- Accessibility.ButtonLabel: action names that are `Object.prototype` members (`toString`, `constructor`, …) would return a function, not a string; the model treats them as misses.
- `getLoadingAccessibilityProps`, `getErrorAccessibilityProps`, `getSuccessAccessibilityProps`, `getModalAccessibilityProps`, `getTabAccessibilityProps` and `announceForAccessibility` are not modelled. They are constant prop objects around one interpolated string, or logging.
- The favorites context has no optimistic update, rollback or reading-page field in the code, so none is modelled.
- The context's error slot is never set. The store functions catch every fault, so the catch branches of contexts/BookContext.tsx:47, 62, 72, 82 cannot run. The model has no path into them.
- Rendering, styling, animation, theming, SEO and the UI components that only call the store, context and validators are not modelled.

## Findings

| source | as written | input that shows it | evidently intended | confidence | as-written member | corrected member |
|---|---|---|---|---|---|---|
| utils/validation.ts:27 | the accepted statuses list `LeÃ­do`, the UTF-8 bytes of `í` read as Latin-1 | `validateReadingStatus("Leído")` is `false` | accept `Leído`, the `ReadingStatus` value of services/api.ts:4 used throughout the app | high; not executed | Validation.ValidateReadingStatusAsWritten | Validation.ValidateReadingStatus |
| utils/validation.ts:39 | `javascript:` is removed in a single pass, so the removal can assemble a new occurrence | `cleanAndFormatDescription("javajavascript:script:")` is `"javascript:"` | no `javascript:` (any letter case) left in the cleaned description | medium; not executed | Validation.CleanLeavesScript | Validation.CleanAndFormatDescriptionFixed |
