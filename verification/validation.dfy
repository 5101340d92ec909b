/** The input validators and the description cleaner of `utils/validation.ts`. */
module Validation {
  import opened Seqs
  import opened JsString

  // ---------------------------------------------------------------------------------------
  // Search queries

  /** `validateSearchQuery(q)`: the empty string is rejected outright; otherwise the trimmed
      query must have between 2 and 100 characters. */
  function ValidateSearchQuery(q: string): (ok: bool)
    ensures ok <==> 2 <= |Trim(q)| <= 100
    ensures q == "" ==> !ok
  {
    if q == "" then false
    else
      var trimmed := Trim(q);
      2 <= |trimmed| <= 100
  }

  /** A query made only of whitespace is never valid, however long. */
  lemma BlankQueryRejected(q: string)
    requires AllSpace(q)
    ensures !ValidateSearchQuery(q)
  {
    TrimEmptyIffAllSpace(q);
  }

  /** The characters `sanitizeSearchQuery` deletes. */
  predicate IsUnsafe(c: char) {
    c == '<' || c == '>' || c == '&'
  }

  /** Survives `.replace(/[<>]/g, '')`. */
  predicate NotBracket(c: char) {
    c != '<' && c != '>'
  }

  /** Survives `.replace(/[&]/g, '')`. */
  predicate NotAmpersand(c: char) {
    c != '&'
  }

  /** A character `sanitizeSearchQuery` keeps. */
  predicate IsSafe(c: char) {
    !IsUnsafe(c)
  }

  /** The two deletion passes together delete exactly the unsafe characters, in one pass. */
  lemma {:induction false} FilterTwice(q: string)
    ensures Filter(Filter(q, NotBracket), NotAmpersand) == Filter(q, IsSafe)
    decreases |q|
  {
    if |q| > 0 {
      FilterTwice(q[1..]);
      var rest := Filter(q[1..], NotBracket);
      if NotBracket(q[0]) {
        var x := [q[0]] + rest;
        assert x[0] == q[0] && x[1..] == rest;
      }
    }
  }

  /** `sanitizeSearchQuery(q)`: delete every `<` and `>`, then every `&`, then trim. The result
      is the query with its unsafe characters deleted, the others kept in order, then trimmed. */
  function SanitizeSearchQuery(q: string): (r: string)
    ensures r == Trim(Filter(q, IsSafe))
    ensures forall i :: 0 <= i < |r| ==> !IsUnsafe(r[i])
    ensures IsTrimmed(r)
    ensures forall c :: c in r ==> c in q
  {
    var noBrackets := Filter(q, NotBracket);
    var noAmpersands := Filter(noBrackets, NotAmpersand);
    FilterTwice(q);
    FilterMultiset(q, NotBracket);
    FilterMultiset(noBrackets, NotAmpersand);
    var r := Trim(noAmpersands);
    TrimChars(noAmpersands);
    assert forall c :: c in noAmpersands ==> c in q && !IsUnsafe(c) by {
      forall c | c in noAmpersands ensures c in q && !IsUnsafe(c) {
        var i :| 0 <= i < |noAmpersands| && noAmpersands[i] == c;
        assert c in noBrackets by { assert c in multiset(noAmpersands); }
        var j :| 0 <= j < |noBrackets| && noBrackets[j] == c;
        assert c in q by { assert c in multiset(noBrackets); }
      }
    }
    r
  }

  /** Sanitizing twice is the same as sanitizing once. */
  lemma {:induction false} SanitizeIdempotent(q: string)
    ensures SanitizeSearchQuery(SanitizeSearchQuery(q)) == SanitizeSearchQuery(q)
  {
    var s := SanitizeSearchQuery(q);
    assert forall i :: 0 <= i < |s| ==> NotBracket(s[i]);
    assert Filter(s, NotBracket) == s;
    assert forall i :: 0 <= i < |s| ==> NotAmpersand(s[i]);
    assert Filter(s, NotAmpersand) == s;
    TrimFixesTrimmed(s);
  }

  // ---------------------------------------------------------------------------------------
  // Book ids

  /** The class `[a-zA-Z0-9_-]`. */
  predicate IsIdChar(c: char) {
    ('a' <= c <= 'z') || ('A' <= c <= 'Z') || ('0' <= c <= '9') || c == '_' || c == '-'
  }

  /** `validateBookId(id)`: `/^[a-zA-Z0-9_-]+$/` matches the whole id and it has at most 50
      characters. */
  method ValidateBookId(id: string) returns (ok: bool)
    ensures ok <==> 0 < |id| <= 50 && forall i :: 0 <= i < |id| ==> IsIdChar(id[i])
  {
    if |id| == 0 {
      return false;
    }
    var i := 0;
    while i < |id|
      invariant 0 <= i <= |id|
      invariant forall j :: 0 <= j < i ==> IsIdChar(id[j])
    {
      if !IsIdChar(id[i]) {
        return false;
      }
      i := i + 1;
    }
    ok := |id| <= 50;
  }

  // ---------------------------------------------------------------------------------------
  // Reading statuses

  /** The three statuses of the `ReadingStatus` type. */
  const Read: string := "Le\U{ED}do"
  const ToRead: string := "Por leer"
  const Reading: string := "Leyendo"

  /** The first entry of the source's status list: `Leído` whose UTF-8 bytes were read back
      as Latin-1, giving `Ã` (U+00C3) followed by a soft hyphen (U+00AD). */
  const MisencodedRead: string := "Le\U{C3}\U{AD}do"

  /** `validateReadingStatus(status)` as written: membership in the list
      `["LeÃ­do", "Por leer", "Leyendo"]`. */
  function ValidateReadingStatusAsWritten(status: string): (ok: bool)
    ensures ok <==> status in {MisencodedRead, ToRead, Reading}
  {
    status in [MisencodedRead, ToRead, Reading]
  }

  /** The status `Leído`, the one the application itself stores, is rejected as written. */
  lemma AsWrittenRejectsRead()
    ensures !ValidateReadingStatusAsWritten(Read)
    ensures ValidateReadingStatusAsWritten(MisencodedRead)
  {
    assert Read[2] != MisencodedRead[2];
    assert Read != ToRead && Read != Reading;
  }

  /** The intended validator: membership in the `ReadingStatus` type. */
  function ValidateReadingStatus(status: string): (ok: bool)
    ensures ok <==> status == Read || status == ToRead || status == Reading
  {
    status in [Read, ToRead, Reading]
  }

  /** The intended validator accepts every status the application stores and nothing else;
      it differs from the code exactly on `Leído` and its misencoded form. */
  lemma ValidateReadingStatusCorrected(status: string)
    ensures ValidateReadingStatus(Read) && ValidateReadingStatus(ToRead) && ValidateReadingStatus(Reading)
    ensures ValidateReadingStatus(status) != ValidateReadingStatusAsWritten(status)
      <==> status == Read || status == MisencodedRead
  {
    assert Read[2] != MisencodedRead[2];
    assert Read != ToRead && Read != Reading;
    assert MisencodedRead != ToRead && MisencodedRead != Reading;
  }

  // ---------------------------------------------------------------------------------------
  // Description cleaning

  /** No `<` has a `>` anywhere after it: nothing left that `<[^>]*>` could match. */
  predicate NoTag(s: string) {
    forall i, j :: 0 <= i < j < |s| && s[i] == '<' ==> s[j] != '>'
  }

  /** No two whitespace characters in a row. */
  predicate NoDoubleSpace(s: string) {
    forall i :: 0 <= i < |s| - 1 ==> !(IsSpace(s[i]) && IsSpace(s[i + 1]))
  }

  /** Every whitespace character is a plain space. */
  predicate OnlyPlainSpaces(s: string) {
    forall i :: 0 <= i < |s| ==> IsSpace(s[i]) ==> s[i] == ' '
  }

  /** Prepending a character keeps `NoTag` unless it is a `<` with a `>` after it. */
  lemma NoTagCons(c: char, t: string)
    ensures NoTag([c] + t) <==> NoTag(t) && (c == '<' ==> '>' !in t)
  {
    var s := [c] + t;
    if NoTag(t) && (c == '<' ==> '>' !in t) {
      forall i, j | 0 <= i < j < |s| && s[i] == '<' ensures s[j] != '>' {
        if i == 0 { assert s[j] == t[j - 1]; } else { assert t[i - 1] == '<'; }
      }
    }
    if NoTag(s) {
      forall i, j | 0 <= i < j < |t| && t[i] == '<' ensures t[j] != '>' {
        assert s[i + 1] == '<' && s[j + 1] == t[j];
      }
      if c == '<' {
        forall j | 0 <= j < |t| ensures t[j] != '>' {
          assert s[0] == '<' && s[j + 1] == t[j];
        }
      }
    }
  }

  /** A slice of a string without tags has none. */
  lemma NoTagSlice(s: string, a: nat, b: nat)
    requires a <= b <= |s| && NoTag(s)
    ensures NoTag(s[a..b])
  {
    var t := s[a..b];
    forall i, j | 0 <= i < j < |t| && t[i] == '<' ensures t[j] != '>' {
      assert s[a + i] == '<' && s[a + j] == t[j];
    }
  }

  /** What follows the first `>` of `s`. */
  function AfterFirstGt(s: string): (r: string)
    requires '>' in s
    ensures |r| < |s|
  {
    if s[0] == '>' then s[1..] else AfterFirstGt(s[1..])
  }

  /** `s.replace(/<[^>]*>/g, '')`: scanning left to right, a `<` with some `>` after it starts
      a tag running to the first such `>`, and the whole tag is deleted; a `<` with no `>` after
      it is kept. */
  function StripTags(s: string): (r: string)
    ensures NoTag(r)
    ensures NoTag(s) ==> r == s
    decreases |s|
  {
    if |s| == 0 then ""
    else if s[0] == '<' && '>' in s[1..] then StripTags(AfterFirstGt(s[1..]))
    else
      var rest := StripTags(s[1..]);
      assert s == [s[0]] + s[1..];
      NoTagCons(s[0], s[1..]);
      NoTagCons(s[0], rest);
      [s[0]] + rest
  }

  /** Text without `<` has no tag, so stripping leaves it unchanged. */
  lemma StripTagsNoLt(s: string)
    requires '<' !in s
    ensures NoTag(s) && StripTags(s) == s
  {
    forall i | 0 <= i < |s| ensures s[i] != '<' {
      assert s[i] in s;
    }
  }

  /** The first `>` after a run without one is the one that ends the run. */
  lemma {:induction false} AfterFirstGtSkips(t: string, b: string)
    requires '>' !in t
    ensures AfterFirstGt(t + ">" + b) == b
    decreases |t|
  {
    var s := t + ">" + b;
    if |t| == 0 {
      assert s == ">" + b;
    } else {
      assert s[0] == t[0] && s[1..] == t[1..] + ">" + b;
      AfterFirstGtSkips(t[1..], b);
    }
  }

  /** A leading character other than `<` is kept. */
  lemma StripTagsStep(s: string)
    requires |s| > 0 && s[0] != '<'
    ensures StripTags(s) == [s[0]] + StripTags(s[1..])
  {
  }

  /** A leading tag `<t>` is deleted whole. */
  lemma StripTagsAtTag(t: string, b: string)
    requires '>' !in t
    ensures StripTags("<" + t + ">" + b) == StripTags(b)
  {
    var s := "<" + t + ">" + b;
    assert s[1..] == t + ">" + b;
    assert '>' in s[1..] by { assert s[1..][|t|] == '>'; }
    AfterFirstGtSkips(t, b);
  }

  /** A tag `<t>` is deleted whole, the text before it is kept, and stripping goes on after
      it. With `NoTag(s) ==> StripTags(s) == s` this fixes the result for every input: when the
      first `<` of a text has no `>` after it, no later `<` has one either, so the text is
      `NoTag`; otherwise the text splits as `a + "<" + t + ">" + b` with no `<` in `a` and no
      `>` in `t`. */
  lemma {:induction false} StripTagsDeletesTag(a: string, t: string, b: string)
    requires '<' !in a && '>' !in t
    ensures StripTags(a + "<" + t + ">" + b) == a + StripTags(b)
    decreases |a|
  {
    if |a| == 0 {
      assert a + "<" + t + ">" + b == "<" + t + ">" + b;
      StripTagsAtTag(t, b);
    } else {
      var s := a + "<" + t + ">" + b;
      assert s[0] == a[0] && s[1..] == a[1..] + "<" + t + ">" + b;
      StripTagsStep(s);
      StripTagsDeletesTag(a[1..], t, b);
      ConcatAssoc([a[0]], a[1..], StripTags(b));
      assert a == [a[0]] + a[1..];
    }
  }

  /** The pattern `javascript:`. */
  const Script: string := "javascript:"

  /** The case folding of the `i` flag on ASCII letters. Without the `u` flag no non-ASCII
      character folds onto an ASCII one, so this is the whole folding for this pattern. */
  function AsciiLower(c: char): char {
    if 'A' <= c <= 'Z' then (c as int + 32) as char else c
  }

  /** `/javascript:/i` matches `s` at position `i`. */
  predicate ScriptAt(s: string, i: nat) {
    i + |Script| <= |s| && forall k :: 0 <= k < |Script| ==> AsciiLower(s[i + k]) == Script[k]
  }

  /** `s` contains `javascript:` in any letter case. */
  predicate HasScript(s: string) {
    exists i: nat | i < |s| :: ScriptAt(s, i)
  }

  /** Past a first character that starts no match, the matches are those of the tail. */
  lemma HasScriptTail(s: string)
    requires |s| > 0 && !ScriptAt(s, 0)
    ensures HasScript(s) <==> HasScript(s[1..])
  {
    if HasScript(s[1..]) {
      var i: nat :| i < |s| - 1 && ScriptAt(s[1..], i);
      assert ScriptAt(s, i + 1);
    }
    if HasScript(s) {
      var i: nat :| i < |s| && ScriptAt(s, i);
      assert ScriptAt(s[1..], i - 1);
    }
  }

  /** `s.replace(/javascript:/gi, '')`: one left-to-right pass deleting each match. */
  function RemoveScript(s: string): (r: string)
    ensures |r| <= |s|
    ensures NoTag(s) ==> NoTag(r)
    ensures '>' !in s ==> '>' !in r
    ensures !HasScript(s) ==> r == s
    ensures HasScript(s) ==> |r| < |s|
    decreases |s|
  {
    if |s| == 0 then ""
    else if ScriptAt(s, 0) then
      if NoTag(s) then NoTagSlice(s, |Script|, |s|); RemoveScript(s[|Script|..])
      else RemoveScript(s[|Script|..])
    else
      var rest := RemoveScript(s[1..]);
      assert s == [s[0]] + s[1..];
      HasScriptTail(s);
      NoTagCons(s[0], s[1..]);
      NoTagCons(s[0], rest);
      [s[0]] + rest
  }

  /** `s.replace(/\s+/g, ' ')`: every maximal run of whitespace becomes one space. */
  function CollapseSpace(s: string): (r: string)
    ensures NoDoubleSpace(r)
    ensures OnlyPlainSpaces(r)
    ensures |s| > 0 ==> |r| > 0 && (IsSpace(r[0]) <==> IsSpace(s[0]))
    decreases |s|
  {
    if |s| == 0 then ""
    else if IsSpace(s[0]) then
      var n := LeadingSpaces(s);
      " " + CollapseSpace(s[n..])
    else [s[0]] + CollapseSpace(s[1..])
  }

  /** Collapsing whitespace cannot create a tag: it only shortens runs of whitespace. */
  lemma {:induction false} CollapseKeepsNoTag(s: string)
    requires NoTag(s)
    ensures NoTag(CollapseSpace(s))
    ensures '>' !in s ==> '>' !in CollapseSpace(s)
    decreases |s|
  {
    if |s| > 0 {
      if IsSpace(s[0]) {
        var n := LeadingSpaces(s);
        NoTagSlice(s, n, |s|);
        CollapseKeepsNoTag(s[n..]);
        assert '>' !in s ==> '>' !in s[n..] by {
          if '>' in s[n..] { var j :| 0 <= j < |s| - n && s[n..][j] == '>'; assert s[n + j] == '>'; }
        }
        NoTagCons(' ', CollapseSpace(s[n..]));
      } else {
        assert s == [s[0]] + s[1..];
        NoTagCons(s[0], s[1..]);
        CollapseKeepsNoTag(s[1..]);
        NoTagCons(s[0], CollapseSpace(s[1..]));
      }
    }
  }

  /** A character that is not whitespace. */
  predicate NotSpace(c: char) {
    !IsSpace(c)
  }

  /** A leading run of whitespace filters away. */
  lemma {:induction false} SkipSpaces(s: string, n: nat)
    requires n <= |s| && AllSpace(s[..n])
    ensures Filter(s, NotSpace) == Filter(s[n..], NotSpace)
    decreases n
  {
    if n > 0 {
      assert s[..n][0] == s[0];
      var t := s[1..];
      var head := t[..n - 1];
      assert AllSpace(head) by {
        forall i | 0 <= i < |head| ensures IsSpace(head[i]) {
          assert head[i] == s[..n][i + 1];
        }
      }
      SkipSpaces(t, n - 1);
      assert t[n - 1..] == s[n..];
    }
  }

  /** Replacing a leading run of whitespace by one space keeps the other characters. */
  lemma SpaceRunKeepsText(s: string, n: nat, rest: string)
    requires 0 < n <= |s| && AllSpace(s[..n])
    requires Filter(rest, NotSpace) == Filter(s[n..], NotSpace)
    ensures Filter(" " + rest, NotSpace) == Filter(s, NotSpace)
  {
    var x := " " + rest;
    assert x[0] == ' ' && x[1..] == rest;
    SkipSpaces(s, n);
  }

  /** Keeping a leading character keeps the other characters. */
  lemma CharKeepsText(s: string, rest: string)
    requires |s| > 0
    requires Filter(rest, NotSpace) == Filter(s[1..], NotSpace)
    ensures Filter([s[0]] + rest, NotSpace) == Filter(s, NotSpace)
  {
    var x := [s[0]] + rest;
    assert x[0] == s[0] && x[1..] == rest;
  }

  /** Collapsing whitespace keeps every other character, in order. */
  lemma {:induction false} CollapseKeepsText(s: string)
    ensures Filter(CollapseSpace(s), NotSpace) == Filter(s, NotSpace)
    decreases |s|
  {
    if |s| > 0 {
      if IsSpace(s[0]) {
        var n := LeadingSpaces(s);
        CollapseKeepsText(s[n..]);
        SpaceRunKeepsText(s, n, CollapseSpace(s[n..]));
      } else {
        CollapseKeepsText(s[1..]);
        CharKeepsText(s, CollapseSpace(s[1..]));
      }
    }
  }

  /** A leading run of exactly `n` whitespace characters is what `LeadingSpaces` counts. */
  lemma {:induction false} LeadingSpacesExact(s: string, n: nat)
    requires n <= |s|
    requires forall i :: 0 <= i < n ==> IsSpace(s[i])
    requires n < |s| ==> !IsSpace(s[n])
    ensures LeadingSpaces(s) == n
    decreases n
  {
    if n > 0 {
      var t := s[1..];
      assert forall i :: 0 <= i < n - 1 ==> t[i] == s[i + 1];
      LeadingSpacesExact(t, n - 1);
    }
  }

  /** A leading run of whitespace stops before a final non-whitespace character. */
  lemma {:induction false} LeadingSpacesBelow(s: string)
    requires |s| > 0 && !IsSpace(s[|s| - 1])
    ensures LeadingSpaces(s) < |s|
    decreases |s|
  {
    if IsSpace(s[0]) && |s| > 1 {
      LeadingSpacesBelow(s[1..]);
    }
  }

  /** Collapsing keeps a leading character that is not whitespace. */
  lemma CollapseCons(s: string)
    requires |s| > 0 && !IsSpace(s[0])
    ensures CollapseSpace(s) == [s[0]] + CollapseSpace(s[1..])
  {
  }

  /** Collapsing turns a leading whitespace run into one space. */
  lemma CollapseRun(s: string)
    requires |s| > 0 && IsSpace(s[0])
    ensures LeadingSpaces(s) <= |s|
    ensures CollapseSpace(s) == " " + CollapseSpace(s[LeadingSpaces(s)..])
  {
  }

  /** A whitespace run between two words becomes one space: collapsing `x + w + y` collapses
      `x` and `y` on their own and joins them with `" "`. */
  lemma {:induction false} CollapseGap(x: string, w: string, y: string)
    requires |w| > 0 && AllSpace(w)
    requires |x| > 0 ==> !IsSpace(x[|x| - 1])
    requires |y| > 0 ==> !IsSpace(y[0])
    ensures CollapseSpace(x + w + y) == CollapseSpace(x) + " " + CollapseSpace(y)
    decreases |x|
  {
    if |x| == 0 {
      GapAtStart(w, y);
      assert x + w + y == w + y;
    } else if !IsSpace(x[0]) {
      CollapseGap(x[1..], w, y);
      GapAfterChar(x, w, y);
    } else {
      LeadingSpacesBelow(x);
      CollapseGap(x[LeadingSpaces(x)..], w, y);
      GapAfterRun(x, w, y);
    }
  }

  /** The gap at the very start of the text. */
  lemma GapAtStart(w: string, y: string)
    requires |w| > 0 && AllSpace(w)
    requires |y| > 0 ==> !IsSpace(y[0])
    ensures CollapseSpace(w + y) == " " + CollapseSpace(y)
  {
    var s := w + y;
    assert forall i :: 0 <= i < |w| ==> s[i] == w[i];
    assert |y| > 0 ==> s[|w|] == y[0];
    LeadingSpacesExact(s, |w|);
    CollapseRun(s);
    assert s[|w|..] == y;
  }

  /** The gap after a leading non-whitespace character, given the gap in the rest. */
  lemma GapAfterChar(x: string, w: string, y: string)
    requires |x| > 0 && !IsSpace(x[0])
    requires CollapseSpace(x[1..] + w + y) == CollapseSpace(x[1..]) + " " + CollapseSpace(y)
    ensures CollapseSpace(x + w + y) == CollapseSpace(x) + " " + CollapseSpace(y)
  {
    var s := x + w + y;
    assert s[0] == x[0] && s[1..] == x[1..] + w + y;
    CollapseCons(s);
    CollapseCons(x);
    ConcatAssoc([x[0]], CollapseSpace(x[1..]), " " + CollapseSpace(y));
  }

  /** The gap after a leading whitespace run of `x`, given the gap in the rest. */
  lemma GapAfterRun(x: string, w: string, y: string)
    requires |x| > 0 && IsSpace(x[0]) && LeadingSpaces(x) < |x|
    requires CollapseSpace(x[LeadingSpaces(x)..] + w + y)
      == CollapseSpace(x[LeadingSpaces(x)..]) + " " + CollapseSpace(y)
    ensures CollapseSpace(x + w + y) == CollapseSpace(x) + " " + CollapseSpace(y)
  {
    var s := x + w + y;
    var n := LeadingSpaces(x);
    assert forall i :: 0 <= i < n ==> s[i] == x[..n][i];
    assert s[n] == x[n];
    LeadingSpacesExact(s, n);
    CollapseRun(s);
    CollapseRun(x);
    assert s[n..] == x[n..] + w + y;
    ConcatAssoc(" ", CollapseSpace(x[n..]), " " + CollapseSpace(y));
  }

  /** Text whose whitespace is already single plain spaces is left alone. */
  lemma {:induction false} CollapseFixesSpaced(s: string)
    requires NoDoubleSpace(s) && OnlyPlainSpaces(s)
    ensures CollapseSpace(s) == s
    decreases |s|
  {
    if |s| > 0 {
      SliceKeepsSpacing(s, 1, |s|);
      CollapseFixesSpaced(s[1..]);
      if IsSpace(s[0]) {
        assert |s| > 1 ==> !IsSpace(s[1]);
        assert LeadingSpaces(s) == 1 by {
          if |s| > 1 { assert s[1..][0] == s[1]; }
        }
      }
    }
  }

  /** A slice keeps the absence of double and non-plain whitespace. */
  lemma SliceKeepsSpacing(s: string, a: nat, b: nat)
    requires a <= b <= |s| && NoDoubleSpace(s) && OnlyPlainSpaces(s)
    ensures NoDoubleSpace(s[a..b]) && OnlyPlainSpaces(s[a..b])
  {
    var t := s[a..b];
    forall i | 0 <= i < |t| - 1 ensures !(IsSpace(t[i]) && IsSpace(t[i + 1])) {
      assert t[i] == s[a + i] && t[i + 1] == s[a + i + 1];
    }
  }

  /** Only whitespace filters to nothing. */
  lemma FilterAllSpace(s: string)
    requires AllSpace(s)
    ensures Filter(s, NotSpace) == []
  {
    assert s[..|s|] == s;
    SkipSpaces(s, |s|);
  }

  /** Trimming deletes only whitespace: the other characters stay, in order. */
  lemma TrimKeepsText(c: string)
    ensures Filter(Trim(c), NotSpace) == Filter(c, NotSpace)
  {
    var a := LeadingSpaces(c);
    var t := Trim(c);
    SkipSpaces(c, a);
    SliceSplit(c, a, a + |t|);
    FilterAppend(t, c[a + |t|..], NotSpace);
    FilterAllSpace(c[a + |t|..]);
  }

  /** `s.replace(/\s+/g, ' ').trim()`: the input's non-whitespace characters, in order, with
      single plain spaces between them and none at either end. */
  function SpaceNormalize(u: string): (t: string)
    ensures IsTrimmed(t) && NoDoubleSpace(t) && OnlyPlainSpaces(t)
    ensures Filter(t, NotSpace) == Filter(u, NotSpace)
    ensures forall i :: 0 <= i < |t| && !IsSpace(t[i]) ==> t[i] in u
  {
    var c := CollapseSpace(u);
    var t := Trim(c);
    TrimmedCollapsedFacts(u, c, t);
    NormalizedText(u, c, t);
    t
  }

  /** Collapsing and then trimming keeps the input's non-whitespace characters in order. */
  lemma NormalizedText(u: string, c: string, t: string)
    requires c == CollapseSpace(u) && t == Trim(c)
    ensures Filter(t, NotSpace) == Filter(u, NotSpace)
  {
    CollapseKeepsText(u);
    TrimKeepsText(c);
  }

  /** The collapsed text, trimmed, keeps the collapsed spacing and the input's characters. */
  lemma TrimmedCollapsedFacts(u: string, c: string, t: string)
    requires c == CollapseSpace(u) && t == Trim(c)
    ensures IsTrimmed(t) && NoDoubleSpace(t) && OnlyPlainSpaces(t)
    ensures forall i :: 0 <= i < |t| && !IsSpace(t[i]) ==> t[i] in u
  {
    var a := LeadingSpaces(c);
    SliceKeepsSpacing(c, a, a + |t|);
    CollapsedTextFromInput(u, c);
    SliceFromInput(c, a, t, u);
  }

  /** A slice keeps the property that every non-space character comes from `u`. */
  lemma SliceFromInput(c: string, a: nat, t: string, u: string)
    requires a + |t| <= |c| && t == c[a..a + |t|]
    requires forall j :: 0 <= j < |c| && !IsSpace(c[j]) ==> c[j] in u
    ensures forall i :: 0 <= i < |t| && !IsSpace(t[i]) ==> t[i] in u
  {
    forall i | 0 <= i < |t| && !IsSpace(t[i]) ensures t[i] in u {
      assert t[i] == c[a + i];
    }
  }

  /** Every non-space character of the collapsed text comes from the input. */
  lemma CollapsedTextFromInput(u: string, c: string)
    requires c == CollapseSpace(u)
    ensures forall j :: 0 <= j < |c| && !IsSpace(c[j]) ==> c[j] in u
  {
    CollapseKeepsText(u);
    FilterMultiset(u, NotSpace);
    forall j | 0 <= j < |c| && !IsSpace(c[j]) ensures c[j] in u {
      assert c[j] in Filter(c, NotSpace);
      assert c[j] in multiset(Filter(u, NotSpace));
    }
  }

  /** Collapsing keeps a final character that is not whitespace. */
  lemma {:induction false} CollapseLast(s: string)
    requires |s| > 0 && !IsSpace(s[|s| - 1])
    ensures var c := CollapseSpace(s); |c| > 0 && !IsSpace(c[|c| - 1])
    decreases |s|
  {
    if !IsSpace(s[0]) {
      CollapseCons(s);
      if |s| > 1 { CollapseLast(s[1..]); }
    } else {
      LeadingSpacesBelow(s);
      CollapseRun(s);
      CollapseLast(s[LeadingSpaces(s)..]);
    }
  }

  /** A trimmed word stays trimmed when collapsed, so normalizing leaves it collapsed. */
  lemma NormalizeTrimmed(x: string)
    requires |x| > 0 && IsTrimmed(x)
    ensures var c := CollapseSpace(x); |c| > 0 && IsTrimmed(c) && SpaceNormalize(x) == c
  {
    CollapseLast(x);
    TrimFixesTrimmed(CollapseSpace(x));
  }

  /** Normalizing keeps a whitespace gap between two trimmed pieces of text as one space. */
  lemma SpaceNormalizeGap(x: string, w: string, y: string)
    requires |x| > 0 && IsTrimmed(x) && |y| > 0 && IsTrimmed(y)
    requires |w| > 0 && AllSpace(w)
    ensures SpaceNormalize(x + w + y) == SpaceNormalize(x) + " " + SpaceNormalize(y)
  {
    CollapseGap(x, w, y);
    NormalizeTrimmed(x);
    NormalizeTrimmed(y);
    var j := CollapseSpace(x) + " " + CollapseSpace(y);
    assert j[0] == CollapseSpace(x)[0];
    assert j[|j| - 1] == CollapseSpace(y)[|CollapseSpace(y)| - 1];
    TrimFixesTrimmed(j);
  }

  /** Trimming whitespace padding off trimmed, non-empty text gives that text back. */
  lemma TrimPadded(p: string, c: string, q: string)
    requires AllSpace(p) && AllSpace(q) && |c| > 0 && IsTrimmed(c)
    ensures Trim(p + c + q) == c
  {
    var s := p + c + q;
    var e := |p| + |c|;
    assert forall i :: 0 <= i < |p| ==> s[i] == p[i];
    assert forall j :: e <= j < |s| ==> s[j] == q[j - e];
    assert s[|p|] == c[0] && s[e - 1] == c[|c| - 1];
    LeadingSpacesExact(s, |p|);
    TrimEnds(s, |p|, e);
    assert s[|p|..e] == c;
  }

  /** Trimming keeps exactly the slice from the first non-whitespace character to the last. */
  lemma TrimEnds(s: string, i: nat, e: nat)
    requires LeadingSpaces(s) == i && i < e <= |s| && !IsSpace(s[e - 1])
    requires forall j :: e <= j < |s| ==> IsSpace(s[j])
    ensures Trim(s) == s[i..e]
  {
    var r := Trim(s);
    var k := |r|;
    // The last character of the slice is not whitespace, so it lies inside `r`.
    assert forall j :: i + k <= j < |s| ==> s[j] == s[i + k..][j - i - k];
    assert k > 0;
    // The last character of `r` is not whitespace, so it lies inside the slice.
    assert r[k - 1] == s[i + k - 1];
    assert k == e - i;
  }

  /** Text that is all whitespace normalizes to the empty string. */
  lemma SpaceNormalizeAllSpace(s: string)
    requires AllSpace(s)
    ensures SpaceNormalize(s) == ""
  {
    var t := SpaceNormalize(s);
    FilterAllSpace(s);
    assert AllSpace(t);
  }

  /** Collapsing leaves whitespace padding around trimmed, non-empty text as at most one
      space on each side. */
  lemma CollapsePadded(w: string, x: string, w2: string)
    requires AllSpace(w) && AllSpace(w2) && |x| > 0 && IsTrimmed(x)
    ensures CollapseSpace(w + x + w2)
         == (if |w| > 0 then " " else "") + CollapseSpace(x) + (if |w2| > 0 then " " else "")
  {
    var q := if |w2| > 0 then " " else "";
    CollapseTrailingPad(x, w2);
    ConcatAssoc(w, x, w2);
    if |w| > 0 {
      assert (x + w2)[0] == x[0];
      GapAtStart(w, x + w2);
      ConcatAssoc(" ", CollapseSpace(x), q);
    } else {
      assert w + (x + w2) == x + w2;
    }
  }

  /** Collapsing leaves whitespace after text that ends in a word as one space. */
  lemma CollapseTrailingPad(x: string, w2: string)
    requires AllSpace(w2) && |x| > 0 && !IsSpace(x[|x| - 1])
    ensures CollapseSpace(x + w2) == CollapseSpace(x) + (if |w2| > 0 then " " else "")
  {
    if |w2| > 0 {
      CollapseGap(x, w2, "");
      assert x + w2 + "" == x + w2;
    } else {
      assert x + w2 == x;
    }
  }

  /** Padding trimmed, non-empty text with whitespace does not change its normalized form. */
  lemma SpaceNormalizePadded(w: string, x: string, w2: string)
    requires AllSpace(w) && AllSpace(w2) && |x| > 0 && IsTrimmed(x)
    ensures SpaceNormalize(w + x + w2) == SpaceNormalize(x)
  {
    CollapsePadded(w, x, w2);
    NormalizeTrimmed(x);
    TrimPadded(if |w| > 0 then " " else "", CollapseSpace(x), if |w2| > 0 then " " else "");
  }

  /** Whitespace before or after any text makes no difference to its normalized form.
      Together with `SpaceNormalizeGap` (each inner run becomes one space) and
      `CollapseFixesSpaced` (text already in normal form is kept as it is) this fixes
      `SpaceNormalize` on every input. */
  lemma SpaceNormalizeOuterSpace(w: string, x: string, w2: string)
    requires AllSpace(w) && AllSpace(w2)
    ensures SpaceNormalize(w + x + w2) == SpaceNormalize(x)
  {
    if AllSpace(x) {
      AllSpaceConcat(w, x);
      AllSpaceConcat(w + x, w2);
      SpaceNormalizeAllSpace(w + x + w2);
      SpaceNormalizeAllSpace(x);
    } else {
      TrimEmptyIffAllSpace(x);
      var a := LeadingSpaces(x);
      var core := Trim(x);
      TrimParts(x, a, core);
      OuterSpaceAroundCore(w, x[..a], core, x[a + |core|..], w2);
    }
  }

  /** Text is its leading whitespace, its trimmed core and its trailing whitespace. */
  lemma TrimParts(x: string, a: nat, core: string)
    requires a == LeadingSpaces(x) && core == Trim(x)
    ensures a + |core| <= |x| && x == x[..a] + core + x[a + |core|..]
  {
    ThreeSlices(x, a, a + |core|);
  }

  /** `SpaceNormalizeOuterSpace` for text that is whitespace around a trimmed core. */
  lemma OuterSpaceAroundCore(w: string, lead: string, core: string, trail: string, w2: string)
    requires AllSpace(w) && AllSpace(lead) && AllSpace(trail) && AllSpace(w2)
    requires |core| > 0 && IsTrimmed(core)
    ensures SpaceNormalize(w + (lead + core + trail) + w2) == SpaceNormalize(lead + core + trail)
  {
    SpaceNormalizePadded(lead, core, trail);
    AllSpaceConcat(w, lead);
    AllSpaceConcat(trail, w2);
    Regroup(w, lead, core, trail, w2);
    SpaceNormalizePadded(w + lead, core, trail + w2);
  }


  /** Normalizing whitespace cannot create a tag. */
  lemma SpaceNormalizeKeepsNoTag(u: string)
    requires NoTag(u)
    ensures NoTag(SpaceNormalize(u))
  {
    CollapseKeepsNoTag(u);
    TrimKeepsNoTag(CollapseSpace(u));
  }

  /** Trimming cannot create a tag: it keeps a slice. */
  lemma TrimKeepsNoTag(c: string)
    requires NoTag(c)
    ensures NoTag(Trim(c))
  {
    NoTagSlice(c, LeadingSpaces(c), LeadingSpaces(c) + |Trim(c)|);
  }

  /** The text before truncation: tags stripped, `javascript:` removed, whitespace collapsed
      and trimmed. */
  function NormalizeDescription(d: string): (t: string)
    ensures IsTrimmed(t) && NoDoubleSpace(t) && OnlyPlainSpaces(t) && NoTag(t)
    ensures Filter(t, NotSpace) == Filter(RemoveScript(StripTags(d)), NotSpace)
    ensures t == SpaceNormalize(RemoveScript(StripTags(d)))
  {
    var u := RemoveScript(StripTags(d));
    SpaceNormalizeKeepsNoTag(u);
    SpaceNormalize(u)
  }

  /** The length limit of a cleaned description, before the ellipsis. */
  const MaxDescription: nat := 1000

  /** The length cut: text longer than 1000 characters becomes its first 1000 followed by
      `...`; the shape of the text is kept. */
  function Truncate(t: string): (r: string)
    ensures |t| <= MaxDescription ==> r == t
    ensures |t| > MaxDescription ==>
              && |r| == MaxDescription + 3
              && r[..MaxDescription] == t[..MaxDescription]
              && r[MaxDescription..] == "..."
    ensures IsTrimmed(t) ==> IsTrimmed(r)
    ensures NoDoubleSpace(t) ==> NoDoubleSpace(r)
    ensures NoTag(t) ==> NoTag(r)
  {
    if |t| > MaxDescription then
      var r := t[..MaxDescription] + "...";
      assert r[..MaxDescription] == t[..MaxDescription];
      assert NoTag(t) ==> NoTag(r) by {
        if NoTag(t) {
          NoTagSlice(t, 0, MaxDescription);
          forall i, j | 0 <= i < j < |r| && r[i] == '<' ensures r[j] != '>' {
            if j < MaxDescription { assert r[i] == t[i] && r[j] == t[j]; }
          }
        }
      }
      assert NoDoubleSpace(t) ==> NoDoubleSpace(r) by {
        if NoDoubleSpace(t) {
          forall i | 0 <= i < |r| - 1 ensures !(IsSpace(r[i]) && IsSpace(r[i + 1])) {
            if i + 1 < MaxDescription { assert r[i] == t[i] && r[i + 1] == t[i + 1]; }
          }
        }
      }
      r
    else t
  }

  /** `cleanAndFormatDescription(d)`: `""` for an empty description; otherwise the normalized
      text, cut to its first 1000 characters followed by `...` when longer. */
  function CleanAndFormatDescription(d: string): (r: string)
    ensures d == "" ==> r == ""
    ensures |r| <= MaxDescription + 3
    ensures IsTrimmed(r) && NoDoubleSpace(r) && NoTag(r)
    ensures d != "" && |NormalizeDescription(d)| <= MaxDescription ==> r == NormalizeDescription(d)
    ensures d != "" && |NormalizeDescription(d)| > MaxDescription ==>
      r == NormalizeDescription(d)[..MaxDescription] + "..."
  {
    if d == "" then "" else Truncate(NormalizeDescription(d))
  }

  /** Plain text (no `<`, no `javascript:`, single plain spaces, trimmed, at most 1000
      characters) is its own cleaned description: cleaning is idempotent on such text. */
  lemma CleanFixesPlainText(d: string)
    requires '<' !in d && !HasScript(d)
    requires IsTrimmed(d) && NoDoubleSpace(d) && OnlyPlainSpaces(d)
    requires |d| <= MaxDescription
    ensures CleanAndFormatDescription(d) == d
  {
    if d != "" {
      StripTagsNoLt(d);
      CollapseFixesSpaced(d);
      TrimFixesTrimmed(d);
    }
  }

  // ---------------------------------------------------------------------------------------
  // The single-pass `javascript:` removal, and the repeated removal it evidently intends

  /** The input that shows the single pass is not enough. */
  const NestedScript: string := "javajavascript:script:"

  /** No match starts at any of the first four characters of the example. */
  lemma NestedScriptPrefixUnmatched()
    ensures forall i :: 0 <= i < 4 ==> !ScriptAt(NestedScript, i)
  {
    var d := NestedScript;
    assert AsciiLower(d[4]) != Script[4];
    assert AsciiLower(d[1]) != Script[0] && AsciiLower(d[2]) != Script[0] && AsciiLower(d[3]) != Script[0];
  }

  /** From the fifth character on, the example is a match followed by `script:`. */
  lemma NestedScriptTail()
    ensures NestedScript[..4] == "java"
    ensures RemoveScript(NestedScript[4..]) == "script:"
  {
    var d := NestedScript;
    assert ScriptAt(d[4..], 0);
    assert d[4..][|Script|..] == "script:";
    assert !HasScript("script:");
  }

  /** A first character that starts no match is kept, and the pass goes on from the next. */
  lemma RemoveScriptStep(s: string)
    requires |s| > 0 && !ScriptAt(s, 0)
    ensures RemoveScript(s) == [s[0]] + RemoveScript(s[1..])
  {
  }

  /** The matches in the tail are those of the whole text, one position on. */
  lemma ScriptAtTail(s: string, i: nat)
    requires |s| > 0
    ensures ScriptAt(s[1..], i) <==> ScriptAt(s, i + 1)
  {
    if i + 1 + |Script| <= |s| {
      var t := s[1..];
      forall j | i <= j < i + |Script| ensures t[j] == s[j + 1] {
      }
    }
  }

  /** A prefix in which no match starts is kept whole, and the pass goes on after it. */
  lemma {:induction false} RemoveScriptKeepsPrefix(d: string, n: nat)
    requires n <= |d|
    requires forall i :: 0 <= i < n ==> !ScriptAt(d, i)
    ensures RemoveScript(d) == d[..n] + RemoveScript(d[n..])
    decreases n
  {
    if n > 0 {
      RemoveScriptStep(d);
      var t := d[1..];
      forall i | 0 <= i < n - 1 ensures !ScriptAt(t, i) {
        ScriptAtTail(d, i);
      }
      RemoveScriptKeepsPrefix(t, n - 1);
      DropDrop(d, n - 1);
      TakeCons(d, n);
      ConcatAssoc([d[0]], t[..n - 1], RemoveScript(d[n..]));
    } else {
      EmptyPrefix(d);
    }
  }
  /** A leading match is deleted whole and the removal goes on after it. */
  lemma RemoveScriptAtMatch(m: string, b: string)
    requires |m| == |Script| && ScriptAt(m, 0)
    ensures RemoveScript(m + b) == RemoveScript(b)
  {
    var d := m + b;
    assert ScriptAt(d, 0) by {
      forall k | 0 <= k < |Script| ensures AsciiLower(d[k]) == Script[k] {
        assert d[k] == m[k];
      }
    }
    assert d[|Script|..] == b;
  }

  /** The first match is deleted, and only it: the text before it, where no match starts, is
      kept, and the removal goes on after it. With `RemoveScriptKeepsPrefix` and
      `!HasScript(s) ==> RemoveScript(s) == s` this fixes the result for every input. */
  lemma RemoveScriptDeletesMatch(a: string, m: string, b: string)
    requires |m| == |Script| && ScriptAt(m, 0)
    requires forall i :: 0 <= i < |a| ==> !ScriptAt(a + m + b, i)
    ensures RemoveScript(a + m + b) == a + RemoveScript(b)
  {
    var mb := m + b;
    ConcatAssoc(a, m, b);
    SplitConcat(a, mb);
    RemoveScriptKeepsPrefix(a + mb, |a|);
    RemoveScriptAtMatch(m, b);
  }



  /** Taking nothing off the front leaves the text as it is. */
  lemma EmptyPrefix(d: string)
    ensures d[..0] + d[0..] == d
  {
  }

  /** A text that is `java` followed by text the pass turns into `script:` comes out as
      `javascript:`. */
  lemma JavaThenScript(d: string)
    requires |d| >= 4 && forall i :: 0 <= i < 4 ==> !ScriptAt(d, i)
    requires d[..4] == "java" && RemoveScript(d[4..]) == "script:"
    ensures RemoveScript(d) == Script
  {
    RemoveScriptKeepsPrefix(d, 4);
    ScriptSplit();
  }

  /** One pass of removal assembles a new `javascript:` from the pieces around the match. */
  lemma SinglePassLeavesScript()
    ensures RemoveScript(NestedScript) == Script
  {
    NestedScriptPrefixUnmatched();
    NestedScriptTail();
    JavaThenScript(NestedScript);
  }

  /** `javascript:` is `java` followed by `script:`. */
  lemma ScriptSplit()
    ensures "java" + "script:" == Script
  {
  }

  /** The example holds no `<`. */
  lemma NestedScriptUntagged()
    ensures '<' !in NestedScript
  {
  }

  /** `javascript:` holds no whitespace and matches itself. */
  lemma ScriptFacts()
    ensures forall i :: 0 <= i < |Script| ==> !IsSpace(Script[i])
    ensures ScriptAt(Script, 0)
  {
  }

  /** The assembled `javascript:` survives into the cleaned description. */
  lemma CleanLeavesScript()
    ensures CleanAndFormatDescription(NestedScript) == Script
    ensures HasScript(CleanAndFormatDescription(NestedScript))
  {
    SinglePassLeavesScript();
    NestedScriptUntagged();
    StripTagsNoLt(NestedScript);
    ScriptFacts();
    CollapseFixesSpaced(Script);
    TrimFixesTrimmed(Script);
  }

  /** `s.replace(/javascript:/gi, '')` repeated until nothing changes. */
  function RemoveScriptFully(s: string): (r: string)
    ensures !HasScript(r)
    ensures NoTag(s) ==> NoTag(r)
    ensures !HasScript(s) ==> r == s
    decreases |s|
  {
    var t := RemoveScript(s);
    if t == s then s else RemoveScriptFully(t)
  }

  /** Repeating the single pass changes nothing in the end: the full removal of `s` is the
      full removal of what one pass leaves. With `RemoveScript` pinned by its own lemmas and
      `!HasScript(s) ==> r == s`, this fixes `RemoveScriptFully` on every input. */
  lemma RemoveScriptFullyStep(s: string)
    ensures RemoveScriptFully(RemoveScript(s)) == RemoveScriptFully(s)
  {
  }

  /** A slice of text without `javascript:` has none. */
  lemma NoScriptSlice(s: string, a: nat, b: nat)
    requires a <= b <= |s| && !HasScript(s)
    ensures !HasScript(s[a..b])
  {
    forall i: nat | i < b - a ensures !ScriptAt(s[a..b], i) {
      ScriptAtSlice(s, a, b, i);
    }
  }

  /** A match inside a slice is a match of the whole text at the shifted index. */
  lemma ScriptAtSlice(s: string, a: nat, b: nat, i: nat)
    requires a <= b <= |s|
    ensures ScriptAt(s[a..b], i) <==> i + |Script| <= b - a && ScriptAt(s, a + i)
  {
    if i + |Script| <= b - a {
      forall j | i <= j < i + |Script| ensures s[a..b][j] == s[a + j] {
      }
    }
  }

  /** Whether a match starts at 0 depends only on the first `|Script|` characters. */
  lemma ScriptAtSamePrefix(a: string, b: string)
    requires |a| >= |Script| && |b| >= |Script| && a[..|Script|] == b[..|Script|]
    ensures ScriptAt(a, 0) <==> ScriptAt(b, 0)
  {
    assert forall k :: 0 <= k < |Script| ==> a[k] == a[..|Script|][k] && b[k] == b[..|Script|][k];
  }

  /** `[c] + t` has a match iff one starts at `c` or `t` has one. */
  lemma HasScriptCons(c: char, t: string)
    ensures HasScript([c] + t) <==> ScriptAt([c] + t, 0) || HasScript(t)
  {
    var s := [c] + t;
    if HasScript(t) {
      var i: nat :| i < |t| && ScriptAt(t, i);
      assert ScriptAt(s, i + 1);
    }
    if HasScript(s) && !ScriptAt(s, 0) {
      var i: nat :| i < |s| && ScriptAt(s, i);
      assert ScriptAt(t, i - 1);
    }
  }

  /** Where the collapsed text shows no whitespace, it shows the original characters. */
  lemma {:induction false} CollapsePrefix(s: string, k: nat)
    requires k <= |CollapseSpace(s)|
    requires forall i :: 0 <= i < k ==> !IsSpace(CollapseSpace(s)[i])
    ensures k <= |s| && CollapseSpace(s)[..k] == s[..k]
    decreases |s|
  {
    if k > 0 {
      assert !IsSpace(s[0]);
      var rest := CollapseSpace(s[1..]);
      assert CollapseSpace(s) == [s[0]] + rest;
      assert forall i :: 0 <= i < k - 1 ==> !IsSpace(rest[i]) by {
        forall i | 0 <= i < k - 1 ensures !IsSpace(rest[i]) {
          assert rest[i] == CollapseSpace(s)[i + 1];
        }
      }
      CollapsePrefix(s[1..], k - 1);
      assert CollapseSpace(s)[..k] == [s[0]] + rest[..k - 1];
      assert s[..k] == [s[0]] + s[1..][..k - 1];
    }
  }

  /** A match at the start of collapsed text is a match at the start of the original. */
  lemma CollapseScriptAtStart(s: string)
    requires ScriptAt(CollapseSpace(s), 0)
    ensures ScriptAt(s, 0)
  {
    var c := CollapseSpace(s);
    assert forall i :: 0 <= i < |Script| ==> !IsSpace(c[i]) by {
      forall i | 0 <= i < |Script| ensures !IsSpace(c[i]) {
        assert AsciiLower(c[i]) == Script[i];
      }
    }
    CollapsePrefix(s, |Script|);
    ScriptAtSamePrefix(c, s);
  }

  /** Collapsing whitespace cannot assemble `javascript:`, which holds no whitespace. */
  lemma {:induction false} CollapseKeepsNoScript(s: string)
    requires !HasScript(s)
    ensures !HasScript(CollapseSpace(s))
    decreases |s|
  {
    if |s| > 0 {
      var c := CollapseSpace(s);
      if ScriptAt(c, 0) {
        CollapseScriptAtStart(s);
        assert HasScript(s);
      }
      if IsSpace(s[0]) {
        var n := LeadingSpaces(s);
        NoScriptSlice(s, n, |s|);
        assert s[n..|s|] == s[n..];
        CollapseKeepsNoScript(s[n..]);
        HasScriptCons(' ', CollapseSpace(s[n..]));
      } else {
        NoScriptSlice(s, 1, |s|);
        assert s[1..|s|] == s[1..];
        CollapseKeepsNoScript(s[1..]);
        HasScriptCons(s[0], CollapseSpace(s[1..]));
      }
    }
  }

  /** Normalizing whitespace cannot assemble `javascript:`. */
  lemma SpaceNormalizeKeepsNoScript(u: string)
    requires !HasScript(u)
    ensures !HasScript(SpaceNormalize(u))
  {
    CollapseKeepsNoScript(u);
    TrimKeepsNoScript(CollapseSpace(u));
  }

  /** Trimming cannot assemble `javascript:`: it keeps a slice. */
  lemma TrimKeepsNoScript(c: string)
    requires !HasScript(c)
    ensures !HasScript(Trim(c))
  {
    NoScriptSlice(c, LeadingSpaces(c), LeadingSpaces(c) + |Trim(c)|);
  }

  /** The length cut cannot assemble `javascript:`: the ellipsis holds none of its letters. */
  lemma TruncateKeepsNoScript(t: string)
    requires !HasScript(t)
    ensures !HasScript(Truncate(t))
  {
    var r := Truncate(t);
    if |t| > MaxDescription {
      forall i: nat | i < |r| ensures !ScriptAt(r, i) {
        if i + |Script| <= MaxDescription {
          forall j | i <= j < i + |Script| ensures r[j] == t[j] {
            assert r[..MaxDescription][j] == t[..MaxDescription][j];
          }
          assert !ScriptAt(t, i);
        } else if i + |Script| <= |r| {
          var j := i + |Script| - 1;
          assert r[MaxDescription..][j - MaxDescription] == '.';
          assert AsciiLower(r[j]) != Script[|Script| - 1];
        }
      }
    }
  }

  /** The text before truncation, with `javascript:` removed until none is left. */
  function NormalizeDescriptionFixed(d: string): (t: string)
    ensures IsTrimmed(t) && NoDoubleSpace(t) && OnlyPlainSpaces(t) && NoTag(t)
    ensures !HasScript(t)
    ensures Filter(t, NotSpace) == Filter(RemoveScriptFully(StripTags(d)), NotSpace)
    ensures t == SpaceNormalize(RemoveScriptFully(StripTags(d)))
  {
    var u := RemoveScriptFully(StripTags(d));
    SpaceNormalizeKeepsNoTag(u);
    SpaceNormalizeKeepsNoScript(u);
    SpaceNormalize(u)
  }

  /** `cleanAndFormatDescription` as evidently intended: the same cleaning, but no
      `javascript:` in any letter case survives. */
  function CleanAndFormatDescriptionFixed(d: string): (r: string)
    ensures d == "" ==> r == ""
    ensures |r| <= MaxDescription + 3
    ensures IsTrimmed(r) && NoDoubleSpace(r) && NoTag(r)
    ensures !HasScript(r)
    ensures d != "" && !HasScript(StripTags(d)) ==> r == CleanAndFormatDescription(d)
  {
    if d == "" then ""
    else
      var t := NormalizeDescriptionFixed(d);
      TruncateKeepsNoScript(t);
      Truncate(t)
  }
}
