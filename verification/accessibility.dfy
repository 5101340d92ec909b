/** The label and hint builders of `utils/accessibility.ts`. An optional string argument is an
    `Option<string>` and counts as given only when it is truthy, i.e. present and non-empty;
    an optional boolean is a `bool` (absent is `false`). Numbers are integers. */
module Accessibility {
  import opened Wrappers
  import opened JsString
  import opened Seqs
  import Validation

  /** A string argument that JavaScript treats as truthy. */
  predicate Given(s: Option<string>) {
    s.Some? && s.value != ""
  }

  /** `authors && authors.length > 0`. */
  predicate HasAuthors(authors: Option<seq<string>>) {
    authors.Some? && |authors.value| > 0
  }

  /** `authors.join(', ')` when there are authors. */
  function AuthorList(authors: Option<seq<string>>): string
    requires HasAuthors(authors)
  {
    Join(authors.value, ", ")
  }

  // ---------------------------------------------------------------------------------------
  // generateBookAccessibilityLabel

  const FavoriteClause: string := ", en favoritos"

  function AuthorsClause(authors: Option<seq<string>>): string {
    if HasAuthors(authors) then ", por " + AuthorList(authors) else ""
  }

  function YearClause(year: Option<string>): string {
    if Given(year) then ", publicado en " + year.value else ""
  }

  function StatusClause(readingStatus: Option<string>): string {
    if Given(readingStatus) then ", estado: " + readingStatus.value else ""
  }

  /** The label starts with the title, then the authors when there are any, then the year
      when given, and ends with the status clause. */
  function BookLabel(title: string, authors: Option<seq<string>>, year: Option<string>,
                     isFavorite: bool, readingStatus: Option<string>): (r: string)
    ensures "Libro: " + title <= r
    ensures HasAuthors(authors) ==> "Libro: " + title + (", por " + AuthorList(authors)) <= r
    ensures !HasAuthors(authors) ==> "Libro: " + title + YearClause(year) <= r
    ensures "Libro: " + title + AuthorsClause(authors) + YearClause(year) <= r
    ensures var st := StatusClause(readingStatus);
      |r| >= |st| && r[|r| - |st|..] == st
  {
    var head := "Libro: " + title + AuthorsClause(authors);
    var st := StatusClause(readingStatus);
    var x := head + YearClause(year) + FavoriteFlag(isFavorite);
    var y := head + YearClause(year);
    ConcatEnds("Libro: " + title, AuthorsClause(authors));
    ConcatEnds(head, YearClause(year));
    ConcatEnds(y, FavoriteFlag(isFavorite));
    ConcatEnds(x, st);
    PrefixTrans(head, y, x);
    PrefixTrans(head, x, x + st);
    PrefixTrans("Libro: " + title, head, x + st);
    PrefixTrans(y, x, x + st);
    assert !HasAuthors(authors) ==> head == "Libro: " + title;
    x + st
  }

  function FavoriteFlag(isFavorite: bool): string {
    if isFavorite then FavoriteClause else ""
  }

  /** With none of the optional parts the label is just the title. */
  lemma BareBookLabel(title: string, authors: Option<seq<string>>, year: Option<string>,
                      readingStatus: Option<string>)
    requires !HasAuthors(authors) && !Given(year) && !Given(readingStatus)
    ensures BookLabel(title, authors, year, false, readingStatus) == "Libro: " + title
  {
  }

  /** Marking a book as favourite inserts exactly `", en favoritos"` after the title, authors
      and year and before the status, and changes nothing else; so the flag always shows. */
  lemma FavoriteClauseInserted(title: string, authors: Option<seq<string>>, year: Option<string>,
                               readingStatus: Option<string>)
    ensures var plain := BookLabel(title, authors, year, false, readingStatus);
      var fav := BookLabel(title, authors, year, true, readingStatus);
      var p := |plain| - |StatusClause(readingStatus)|;
      && 0 <= p <= |plain|
      && fav == plain[..p] + FavoriteClause + plain[p..]
      && fav != plain
  {
    var head := "Libro: " + title + AuthorsClause(authors) + YearClause(year);
    var st := StatusClause(readingStatus);
    assert head + FavoriteFlag(false) == head;
    ConcatEnds(head, st);
    assert |BookLabel(title, authors, year, true, readingStatus)| == |head| + 14 + |st|;
  }

  /** Giving a non-empty year inserts exactly `", publicado en <year>"` after the title and
      authors, and changes nothing else; an empty year is the same as none. */
  lemma YearClauseInserted(title: string, authors: Option<seq<string>>, year: string,
                           isFavorite: bool, readingStatus: Option<string>)
    ensures var plain := BookLabel(title, authors, None, isFavorite, readingStatus);
      var dated := BookLabel(title, authors, Some(year), isFavorite, readingStatus);
      var p := |"Libro: " + title + AuthorsClause(authors)|;
      && p <= |plain|
      && (year != "" ==> dated == plain[..p] + (", publicado en " + year) + plain[p..])
      && (year == "" ==> dated == plain)
  {
    var head := "Libro: " + title + AuthorsClause(authors);
    var ff, st := FavoriteFlag(isFavorite), StatusClause(readingStatus);
    LabelParts(title, authors, None, isFavorite, readingStatus);
    LabelParts(title, authors, Some(year), isFavorite, readingStatus);
    InsertClause(head, YearClause(Some(year)), ff, st);
  }

  /** Proof step for `YearClauseInserted`: unfolds `BookLabel` into its five clauses so
      that the year clause can be located. */
  lemma LabelParts(title: string, authors: Option<seq<string>>, year: Option<string>,
                   isFavorite: bool, readingStatus: Option<string>)
    ensures BookLabel(title, authors, year, isFavorite, readingStatus)
      == "Libro: " + title + AuthorsClause(authors) + YearClause(year) + FavoriteFlag(isFavorite)
         + StatusClause(readingStatus)
  {
  }

  /** A clause `m` between `head` and the rest sits at index `|head|` of the text without it. */
  lemma InsertClause(head: string, m: string, ff: string, st: string)
    ensures |head| <= |head + "" + ff + st|
    ensures head + m + ff + st == (head + "" + ff + st)[..|head|] + m + (head + "" + ff + st)[|head|..]
    ensures m == "" ==> head + m + ff + st == head + "" + ff + st
  {
    assert head + "" + ff + st == head + (ff + st);
    assert head + m + ff + st == head + m + (ff + st);
    InsertAt(head, m, ff + st);
  }

  // ---------------------------------------------------------------------------------------
  // generateBookAccessibilityHint

  const HintStart: string := "Toca para ver detalles"
  const PreviewClause: string := ", incluye vista previa para leer"
  const RemoveClause: string := ", toca el coraz\U{F3}n para quitar de favoritos"
  const AddClause: string := ", toca el coraz\U{F3}n para agregar a favoritos"

  /** The two closing clauses have the same length and differ. */
  lemma ClauseFacts()
    ensures |HintStart| == 22 && |PreviewClause| == 32
    ensures |RemoveClause| == |AddClause| == 42
    ensures RemoveClause != AddClause
  {
    assert RemoveClause[25] != AddClause[25];
  }

  function BookHint(hasPreview: bool, isFavorite: bool): (r: string)
    ensures |r| == 22 + (if hasPreview then 32 else 0) + 42
    ensures r[..22] == HintStart
    ensures hasPreview ==> r[22..54] == PreviewClause
    ensures isFavorite <==> r[|r| - 42..] == RemoveClause
    ensures !isFavorite <==> r[|r| - 42..] == AddClause
  {
    ClauseFacts();
    HintStart
    + (if hasPreview then PreviewClause else "")
    + (if isFavorite then RemoveClause else AddClause)
  }

  /** The hint tells both flags apart: distinct arguments give distinct hints. */
  lemma HintDeterminesFlags(p1: bool, f1: bool, p2: bool, f2: bool)
    requires BookHint(p1, f1) == BookHint(p2, f2)
    ensures p1 == p2 && f1 == f2
  {
    var h := BookHint(p1, f1);
    assert |h| == |BookHint(p2, f2)|;
  }

  // ---------------------------------------------------------------------------------------
  // getReadingStatusAccessibilityLabel

  const NoStatusLabel: string := "Sin estado de lectura"

  function ReadingStatusLabel(status: Option<string>): (r: string)
    ensures status == Some(Validation.Read) ==> r == "Libro completado"
    ensures status == Some(Validation.Reading) ==> r == "Leyendo actualmente"
    ensures status == Some(Validation.ToRead) ==> r == "Pendiente de lectura"
  {
    match status
    case Some(s) =>
      if s == Validation.Read then "Libro completado"
      else if s == Validation.Reading then "Leyendo actualmente"
      else if s == Validation.ToRead then "Pendiente de lectura"
      else NoStatusLabel
    case None => NoStatusLabel
  }

  /** The three statuses get three labels distinct from each other and from the fallback,
      which every other input (including no status) receives. */
  lemma ReadingStatusLabelsDistinct(a: Option<string>, b: Option<string>)
    ensures ReadingStatusLabel(a) == NoStatusLabel <==>
      a !in {Some(Validation.Read), Some(Validation.Reading), Some(Validation.ToRead)}
    ensures ReadingStatusLabel(a) != NoStatusLabel && ReadingStatusLabel(a) == ReadingStatusLabel(b)
      ==> a == b
  {
    assert "Libro completado"[0] != NoStatusLabel[0];
    assert "Leyendo actualmente"[0] != NoStatusLabel[0];
    assert "Pendiente de lectura"[0] != NoStatusLabel[0];
    assert "Libro completado"[2] != "Leyendo actualmente"[2];
    assert Validation.Read[2] != Validation.Reading[2];
    assert Validation.Read[0] != Validation.ToRead[0];
    assert Validation.Reading[0] != Validation.ToRead[0];
  }

  // ---------------------------------------------------------------------------------------
  // getButtonAccessibilityLabel

  /** The entry of the `actionLabels` table for `action`, if the table has one. */
  function ActionLabel(action: string, itemName: Option<string>): (r: Option<string>)
    ensures r.Some? <==> action in Actions
    ensures r.Some? ==> r.value != ""
  {
    var named := Given(itemName);
    if action == "favorite" then
      Some(if named then "Agregar " + itemName.value + " a favoritos" else "Agregar a favoritos")
    else if action == "unfavorite" then
      Some(if named then "Quitar " + itemName.value + " de favoritos" else "Quitar de favoritos")
    else if action == "search" then Some("Buscar libros")
    else if action == "clear" then Some("Limpiar b\U{FA}squeda")
    else if action == "back" then Some("Volver atr\U{E1}s")
    else if action == "close" then Some("Cerrar")
    else if action == "retry" then Some("Intentar de nuevo")
    else if action == "refresh" then Some("Actualizar")
    else if action == "details" then
      Some(if named then "Ver detalles de " + itemName.value else "Ver detalles")
    else if action == "read" then
      Some(if named then "Leer " + itemName.value else "Leer libro")
    else None
  }

  /** `sub` occurs in `s` starting at index `i`. */
  predicate OccursAt(s: string, sub: string, i: int) {
    0 <= i <= |s| - |sub| && s[i..i + |sub|] == sub
  }

  /** The actions the table knows. */
  const Actions: set<string> :=
    {"favorite", "unfavorite", "search", "clear", "back", "close", "retry", "refresh", "details", "read"}

  /** `actionLabels[action] || action`. */
  function ButtonLabel(action: string, itemName: Option<string>): (r: string)
    ensures action !in Actions ==> r == action
    ensures action in Actions ==> ActionLabel(action, itemName) == Some(r) && r != ""
  {
    match ActionLabel(action, itemName)
    case Some(l) => if l != "" then l else action
    case None => action
  }

  /** A given item name appears in the label of the four actions that mention it, and the
      other six actions ignore the item name. */
  lemma ButtonLabelMentionsItem(action: string, itemName: Option<string>)
    ensures Given(itemName) && action in {"favorite", "unfavorite", "details", "read"} ==>
      exists i :: OccursAt(ButtonLabel(action, itemName), itemName.value, i)
    ensures action !in {"favorite", "unfavorite", "details", "read"} ==>
      ButtonLabel(action, itemName) == ButtonLabel(action, None)
  {
    if Given(itemName) && action in {"favorite", "unfavorite", "details", "read"} {
      var r := ButtonLabel(action, itemName);
      var n := itemName.value;
      var i := if action == "favorite" then 8 else if action == "unfavorite" then 7
        else if action == "details" then 16 else 5;
      assert r[i..i + |n|] == n;
      assert OccursAt(r, n, i);
    }
  }

  // ---------------------------------------------------------------------------------------
  // getFormFieldAccessibilityProps

  /** The props object: the label text, the invalid flag (absent means `false`) and the hint. */
  datatype FieldProps = FieldProps(text: string, role: string, invalid: bool, hint: Option<string>)

  function FormFieldProps(fieldLabel: string, error: Option<string>, required: bool,
                          hint: Option<string>): (p: FieldProps)
    ensures p.role == "textbox"
    ensures p.invalid <==> Given(error)
    ensures p.hint.Some? <==> Given(hint)
    ensures p.hint.Some? ==> p.hint == hint
    ensures |p.text| == |fieldLabel| + (if required then 11 else 0)
      + (if Given(error) then 9 + |error.value| else 0)
    ensures p.text[..|fieldLabel|] == fieldLabel
    ensures required ==> p.text[|fieldLabel|..|fieldLabel| + 11] == ", requerido"
    ensures Given(error) ==> p.text[|p.text| - 9 - |error.value|..] == ", error: " + error.value
  {
    var l := fieldLabel + (if required then ", requerido" else "")
      + (if Given(error) then ", error: " + error.value else "");
    FieldProps(l, "textbox", Given(error), if Given(hint) then hint else None)
  }

  // ---------------------------------------------------------------------------------------
  // getListItemAccessibilityProps

  /** The props object of a list item. */
  datatype ItemProps = ItemProps(text: string, role: string)

  /** `elemento ${index + 1} de ${total}`. */
  function Position(index: int, total: int): string {
    "elemento " + (IntToString(index + 1) + (" de " + IntToString(total)))
  }

  function ListItemProps(index: int, total: int, description: string): (p: ItemProps)
    ensures p.role == "button"
    ensures |p.text| >= |description|
    ensures p.text[..|description|] == description
    ensures p.text[|description|..] == ", " + Position(index, total)
  {
    var suffix := ", " + Position(index, total);
    SplitConcat(description, suffix);
    ItemProps(description + suffix, "button")
  }

  /** Equal strings with a common prefix agree after it. */
  lemma DropCommonPrefix(p: string, x: string, y: string)
    requires p + x == p + y
    ensures x == y
  {
    SplitConcat(p, x);
    SplitConcat(p, y);
  }

  /** The number of leading digits of `s`. */
  function DigitRunLength(s: string): nat {
    if |s| > 0 && IsDigit(s[0]) then 1 + DigitRunLength(s[1..]) else 0
  }

  /** Digits followed by a non-digit: the digit run is exactly the digits. */
  lemma {:induction false} DigitRun(a: string, rest: string)
    requires forall i :: 0 <= i < |a| ==> IsDigit(a[i])
    requires |rest| > 0 && !IsDigit(rest[0])
    ensures DigitRunLength(a + rest) == |a|
  {
    if |a| > 0 {
      assert (a + rest)[1..] == a[1..] + rest;
      DigitRun(a[1..], rest);
    } else {
      assert a + rest == rest;
    }
  }

  /** A digit string followed by `" de "` is split at that space. */
  lemma DigitsSplit(a: string, b: string, x: string, y: string)
    requires forall i :: 0 <= i < |a| ==> IsDigit(a[i])
    requires forall i :: 0 <= i < |b| ==> IsDigit(b[i])
    requires a + (" de " + x) == b + (" de " + y)
    ensures a == b && x == y
  {
    DigitRun(a, " de " + x);
    DigitRun(b, " de " + y);
    SplitConcat(a, " de " + x);
    SplitConcat(b, " de " + y);
    DropCommonPrefix(" de ", x, y);
  }

  /** The counter part of a list-item label determines the position and the total. */
  lemma PositionInjective(i1: nat, t1: nat, i2: nat, t2: nat)
    requires Position(i1, t1) == Position(i2, t2)
    ensures i1 == i2 && t1 == t2
  {
    var a, b := NatToString(i1 + 1), NatToString(i2 + 1);
    var x, y := NatToString(t1), NatToString(t2);
    DropCommonPrefix("elemento ", a + (" de " + x), b + (" de " + y));
    DigitsSplit(a, b, x, y);
    NatToStringInjective(i1 + 1, i2 + 1);
    NatToStringInjective(t1, t2);
  }

  /** For a non-negative position and total the list-item label determines both: distinct
      positions always get distinct labels. */
  lemma ListItemLabelDeterminesPosition(d: string, i1: nat, t1: nat, i2: nat, t2: nat)
    requires ListItemProps(i1, t1, d).text == ListItemProps(i2, t2, d).text
    ensures i1 == i2 && t1 == t2
  {
    DropCommonPrefix(d, ", " + Position(i1, t1), ", " + Position(i2, t2));
    DropCommonPrefix(", ", Position(i1, t1), Position(i2, t2));
    PositionInjective(i1, t1, i2, t2);
  }

  // ---------------------------------------------------------------------------------------
  // getImageAccessibilityProps

  /** The props object of a cover image: a decorative image has no label and is hidden. */
  datatype ImageProps = ImageProps(text: Option<string>, role: string, hidden: bool)

  function ImageAccessibilityProps(title: string, authors: Option<seq<string>>,
                                   isDecorative: bool): (p: ImageProps)
    ensures p.role == "image"
    ensures isDecorative <==> p.text == None
    ensures isDecorative <==> p.hidden
    ensures !isDecorative ==>
      && |p.text.value| >= 18 + |title|
      && p.text.value[..18 + |title|] == "Portada del libro " + title
      && (HasAuthors(authors) ==> p.text.value[18 + |title|..] == " de " + AuthorList(authors))
      && (!HasAuthors(authors) ==> p.text.value == "Portada del libro " + title)
  {
    if isDecorative then ImageProps(None, "image", true)
    else
      var cover := "Portada del libro " + title
        + (if HasAuthors(authors) then " de " + AuthorList(authors) else "");
      ImageProps(Some(cover), "image", false)
  }
}
