/**
 What each hand-coded pattern matches, stated as the shape of the text it
 accepts: for every pattern, a lemma that a text of that shape is matched
 (with the replacement the rule prescribes) and a lemma that whatever is
 matched has that shape.
 */
module PatternFacts {
  import opened Text
  import opened Patterns

  /* ---------- word-bounded fixed strings ---------- */

  /** A word-bounded string matches exactly where it occurs with a non-word
      character (or the start of the text) before it and, when the pattern
      also ends in a boundary, a non-word character (or the end) after it. */
  lemma WordMatch(t: string, trailing: bool, r: string, s: string, i: nat)
    requires |t| > 0 && IsWordChar(t[0]) && (trailing ==> IsWordChar(t[|t| - 1])) && i <= |s|
    ensures MatchAt(Word(t, trailing, r), s, i).Some?
        <==> && OccursAt(s, t, i)
             && (i == 0 || !IsWordChar(s[i - 1]))
             && (trailing ==> i + |t| == |s| || !IsWordChar(s[i + |t|]))
    ensures MatchAt(Word(t, trailing, r), s, i).Some? ==> MatchAt(Word(t, trailing, r), s, i).value == Match(|t|, r)
  {
    if OccursAt(s, t, i) {
      OccursAtChars(s, t, i);
      assert s[i] == t[0];
      assert s[i + |t| - 1] == t[|t| - 1];
    }
  }

  /* ---------- timestamp("<column>") ---------- */

  function TimestampCall(c: string): string {
    TimestampHead + c + CallEnd
  }

  function IntegerCall(c: string, mode: string): string {
    IntegerHead + c + ArgumentSeparator + mode + ")"
  }

  /** A call `timestamp("<column>")` with a non-empty column name free of `"`
      is matched, whatever precedes it, and becomes `integer("<column>", <mode>)`. */
  lemma TimestampColumnMatches(s: string, i: nat, c: string, mode: string)
    requires ColumnName(c) && OccursAt(s, TimestampCall(c), i)
    ensures MatchAt(TimestampColumn(mode), s, i) == Some(Match(|TimestampCall(c)|, IntegerCall(c, mode)))
  {
    OccursAtConcat(s, TimestampHead + c, CallEnd, i);
    OccursAtConcat(s, TimestampHead, c, i);
    var a := i + |TimestampHead|;
    ColumnRun(s, c, a, CallEnd);
  }

  /** Whatever the timestamp pattern matches is a one-argument call
      `timestamp("<column>")`, rewritten with the column name copied verbatim. */
  lemma TimestampColumnShape(s: string, i: nat, mode: string) returns (c: string)
    requires i <= |s| && MatchAt(TimestampColumn(mode), s, i).Some?
    ensures ColumnName(c) && OccursAt(s, TimestampCall(c), i)
    ensures MatchAt(TimestampColumn(mode), s, i) == Some(Match(|TimestampCall(c)|, IntegerCall(c, mode)))
  {
    var a := i + |TimestampHead|;
    var e := SpanUntil(s, '"', a);
    c := s[a..e];
    assert OccursAt(s, c, a);
    OccursAtConcat(s, TimestampHead, c, i);
    OccursAtConcat(s, TimestampHead + c, CallEnd, i);
    TimestampColumnMatches(s, i, c, mode);
  }

  /* ---------- <name>Enum("<column>") ---------- */

  function EnumCall(w: string, c: string): string {
    w + EnumCallTail + c + CallEnd
  }

  function TextCall(c: string): string {
    TextHead + c + CallEnd
  }

  /** A call occurs exactly where its pieces occur one after another. */
  lemma EnumCallPieces(s: string, i: nat, w: string, c: string)
    ensures OccursAt(s, EnumCall(w, c), i) <==>
      && OccursAt(s, w, i)
      && OccursAt(s, EnumCallTail, i + |w|)
      && OccursAt(s, c, i + |w| + 6)
      && OccursAt(s, CallEnd, i + |w| + 6 + |c|)
  {
    OccursAtConcat(s, w + EnumCallTail + c, CallEnd, i);
    OccursAtConcat(s, w + EnumCallTail, c, i);
    OccursAtConcat(s, w, EnumCallTail, i);
  }

  /** A call `<name>Enum("<column>")`, with at least one word character before
      `Enum`, is matched and becomes `text("<column>")`. */
  lemma EnumColumnMatches(s: string, i: nat, w: string, c: string)
    requires EnumStem(w) && ColumnName(c) && OccursAt(s, EnumCall(w, c), i)
    ensures MatchAt(EnumColumn, s, i) == Some(Match(|EnumCall(w, c)|, TextCall(c)))
  {
    EnumCallPieces(s, i, w, c);
    EnumColumnAttempt(s, i, w, c);
    assert MatchAt(EnumColumn, s, i) == MatchEnumColumn(s, i);
  }

  /** Whatever the enum-column pattern matches is a call `<name>Enum("<column>")`,
      rewritten to `text("<column>")`. */
  lemma EnumColumnShape(s: string, i: nat) returns (w: string, c: string)
    requires i <= |s| && MatchAt(EnumColumn, s, i).Some?
    ensures EnumStem(w) && ColumnName(c) && OccursAt(s, EnumCall(w, c), i)
    ensures MatchAt(EnumColumn, s, i) == Some(Match(|EnumCall(w, c)|, TextCall(c)))
  {
    assert MatchAt(EnumColumn, s, i) == MatchEnumColumn(s, i);
    var e, f := EnumColumnFields(s, i);
    w, c := EnumColumnSlices(s, i, e, f);
    EnumCallPieces(s, i, w, c);
    EnumColumnMatches(s, i, w, c);
  }

  /* ---------- integer("<column>", { mode: 'timestamp' }).default ---------- */

  function TimestampDefaultText(c: string, mode: string): string {
    IntegerHead + c + ArgumentSeparator + mode + DefaultCall
  }

  /** An `integer("<column>", { mode: 'timestamp' }).default` prefix is matched
      and its option object is replaced by `mode`. */
  lemma TimestampDefaultMatches(s: string, i: nat, c: string, mode: string)
    requires ColumnName(c) && OccursAt(s, TimestampDefaultText(c, TimestampMode), i)
    ensures MatchAt(TimestampDefault(mode), s, i)
         == Some(Match(|TimestampDefaultText(c, TimestampMode)|, TimestampDefaultText(c, mode)))
  {
    var tail := ArgumentSeparator + TimestampMode + DefaultCall;
    assert TimestampDefaultText(c, TimestampMode) == IntegerHead + c + tail;
    OccursAtConcat(s, IntegerHead + c, tail, i);
    OccursAtConcat(s, IntegerHead, c, i);
    var a := i + |IntegerHead|;
    ColumnRun(s, c, a, tail);
  }

  /** Whatever the timestamp-default pattern matches is an
      `integer("<column>", { mode: 'timestamp' }).default` prefix. */
  lemma TimestampDefaultShape(s: string, i: nat, mode: string) returns (c: string)
    requires i <= |s| && MatchAt(TimestampDefault(mode), s, i).Some?
    ensures ColumnName(c) && OccursAt(s, TimestampDefaultText(c, TimestampMode), i)
    ensures MatchAt(TimestampDefault(mode), s, i)
         == Some(Match(|TimestampDefaultText(c, TimestampMode)|, TimestampDefaultText(c, mode)))
  {
    assert MatchAt(TimestampDefault(mode), s, i) == MatchTimestampDefault(s, i, mode);
    var e := TimestampDefaultFields(s, i, mode);
    c := TimestampDefaultColumn(s, i, e);
    TimestampDefaultMatches(s, i, c, mode);
  }

  /* ---------- export const <name>Enum = pgEnum(<args>) ---------- */

  function LineEnd(semicolon: bool): string {
    if semicolon then ";\n" else "\n"
  }

  function EnumDeclarationText(w: string, a: string, semicolon: bool): string {
    DeclarationHead + w + DeclarationTail + a + ")" + LineEnd(semicolon)
  }

  /** A declaration occurs exactly where its pieces occur one after another. */
  lemma DeclarationPieces(s: string, i: nat, w: string, a: string, semicolon: bool)
    ensures OccursAt(s, EnumDeclarationText(w, a, semicolon), i) <==>
      && OccursAt(s, DeclarationHead, i)
      && OccursAt(s, w, i + 13)
      && OccursAt(s, DeclarationTail, i + 13 + |w|)
      && OccursAt(s, a, i + 27 + |w|)
      && OccursAt(s, ")", i + 27 + |w| + |a|)
      && OccursAt(s, LineEnd(semicolon), i + 28 + |w| + |a|)
  {
    var h, t, ending := DeclarationHead, DeclarationTail, LineEnd(semicolon);
    OccursAtConcat(s, h + w + t + a + ")", ending, i);
    OccursAtConcat(s, h + w + t + a, ")", i);
    OccursAtConcat(s, h + w + t, a, i);
    OccursAtConcat(s, h + w, t, i);
    OccursAtConcat(s, h, w, i);
  }

  /** A declaration `export const <name>Enum = pgEnum(<args>)`, with at least one
      word character before `Enum`, arguments free of `)` (possibly spanning
      lines), an optional `;` and a newline, is matched in full and deleted. */
  lemma EnumDeclarationMatches(s: string, i: nat, w: string, a: string, semicolon: bool)
    requires EnumStem(w) && EnumArguments(a) && OccursAt(s, EnumDeclarationText(w, a, semicolon), i)
    ensures MatchAt(EnumDeclaration, s, i) == Some(Match(|EnumDeclarationText(w, a, semicolon)|, ""))
  {
    DeclarationPieces(s, i, w, a, semicolon);
    DeclarationAttempt(s, i, w, a, semicolon);
    DeclarationLength(w, a, semicolon);
    assert MatchAt(EnumDeclaration, s, i) == MatchEnumDeclaration(s, i);
  }

  /** Whatever the declaration pattern matches is a whole declaration
      `export const <name>Enum = pgEnum(<args>)` with its optional `;` and its newline. */
  lemma EnumDeclarationShape(s: string, i: nat) returns (w: string, a: string, semicolon: bool)
    requires i <= |s| && MatchAt(EnumDeclaration, s, i).Some?
    ensures EnumStem(w) && EnumArguments(a) && OccursAt(s, EnumDeclarationText(w, a, semicolon), i)
    ensures MatchAt(EnumDeclaration, s, i) == Some(Match(|EnumDeclarationText(w, a, semicolon)|, ""))
  {
    w, a, semicolon := DeclarationFields(s, i);
    DeclarationPieces(s, i, w, a, semicolon);
    EnumDeclarationMatches(s, i, w, a, semicolon);
  }

  /** Every deleted declaration ends with `)`, an optional `;`, and a newline. */
  lemma EnumDeclarationEnd(s: string, k: nat) returns (c: nat)
    requires k <= |s| && MatchAt(EnumDeclaration, s, k).Some?
    ensures k < c < |s| && s[c] == ')'
    ensures var e := k + MatchAt(EnumDeclaration, s, k).value.len;
            || (e == c + 2 && s[c + 1] == '\n')
            || (e == c + 3 && s[c + 1] == ';' && s[c + 2] == '\n')
  {
    assert MatchAt(EnumDeclaration, s, k) == MatchEnumDeclaration(s, k);
    var e;
    e, c := DeclarationHeadFields(s, k);
    var semicolon := DeclarationTailFields(s, k, e + 10, c);
  }

  /* ---------- proof steps ----------

     The lemmas below only serve the proofs above. Each match attempt is
     taken apart in small steps, which keeps every proof obligation small:
     the positions a successful attempt has checked ("Fields"), the pieces
     cut out at those positions ("Slices"), and the attempt rebuilt from the
     positions alone ("Chain"). */

  /** A stretch free of `q`, followed by a text that starts with `q`, is exactly
      the greedy run of characters other than `q`. */
  lemma RunUntil(s: string, body: string, a: nat, q: char, closing: string)
    requires q !in body && OccursAt(s, body, a)
    requires |closing| > 0 && closing[0] == q && OccursAt(s, closing, a + |body|)
    ensures SpanUntil(s, q, a) == a + |body|
    ensures s[a..a + |body|] == body
  {
    OccursAtChars(s, body, a);
    OccursAtChars(s, closing, a + |body|);
    forall k | a <= k < a + |body|
      ensures s[k] != q
    {
      assert s[a + (k - a)] == body[k - a];
    }
    SpanUntilIs(s, q, a, a + |body|);
  }

  /** A column name followed by a closing text that starts with `"` is the
      greedy run up to that quote. */
  lemma ColumnRun(s: string, c: string, a: nat, closing: string)
    requires ColumnName(c) && OccursAt(s, c, a)
    requires |closing| > 0 && closing[0] == '"' && OccursAt(s, closing, a + |c|)
    ensures SpanUntil(s, '"', a) == a + |c|
    ensures s[a..a + |c|] == c
  {
    RunUntil(s, c, a, '"', closing);
  }

  // Enum columns.

  /** The word characters of `w + "Enum"` run up to the `(` that follows them. */
  lemma EnumNameRun(s: string, i: nat, w: string, tail: string)
    requires EnumStem(w) && |tail| > 4 && tail[..4] == "Enum" && !IsWordChar(tail[4])
    requires OccursAt(s, w, i) && OccursAt(s, tail, i + |w|)
    ensures WordRunEnd(s, i) == i + |w| + 4
  {
    OccursAtChars(s, w, i);
    OccursAtChars(s, tail, i + |w|);
    var e := i + |w| + 4;
    forall k | i <= k < e
      ensures IsWordChar(s[k])
    {
      if k < i + |w| {
        assert s[i + (k - i)] == w[k - i];
      } else {
        assert s[i + |w| + (k - i - |w|)] == tail[k - i - |w|];
        assert tail[k - i - |w|] == tail[..4][k - i - |w|];
      }
    }
    assert s[i + |w| + 4] == tail[4];
    WordRunEndIs(s, i, e);
  }

  /** The name of an enum call runs up to the `(` after `Enum`. */
  lemma EnumCallNameRun(s: string, i: nat, w: string)
    requires EnumStem(w) && OccursAt(s, w, i) && OccursAt(s, EnumCallTail, i + |w|)
    ensures WordRunEnd(s, i) == i + |w| + 4
  {
    EnumNameRun(s, i, w, EnumCallTail);
  }

  /** The enum-column attempt at `i` when the pieces of a call `<name>Enum("<column>")` are there. */
  lemma EnumColumnAttempt(s: string, i: nat, w: string, c: string)
    requires EnumStem(w) && ColumnName(c) && i <= |s|
    requires OccursAt(s, w, i) && OccursAt(s, EnumCallTail, i + |w|)
    requires OccursAt(s, c, i + |w| + 6) && OccursAt(s, CallEnd, i + |w| + 6 + |c|)
    ensures MatchEnumColumn(s, i) == Some(Match(|EnumCall(w, c)|, TextCall(c)))
  {
    EnumCallNameRun(s, i, w);
    var e := i + |w| + 4;
    var f := ColumnEnd(s, c, e + 2);
    EnumColumnChain(s, i, e, f, c);
    assert |EnumCall(w, c)| == f + 2 - i;
  }

  /** A column name followed by its closing `")` ends at the quote. */
  lemma ColumnEnd(s: string, c: string, a: nat) returns (f: nat)
    requires ColumnName(c) && OccursAt(s, c, a) && OccursAt(s, CallEnd, a + |c|)
    ensures f == a + |c| == SpanUntil(s, '"', a) && s[a..f] == c && OccursAt(s, CallEnd, f)
  {
    ColumnRun(s, c, a, CallEnd);
    f := a + |c|;
  }

  /** The enum-column attempt at `i` from the positions it checks: the end
      `e` of the name and the closing quote `f` of the column. */
  lemma EnumColumnChain(s: string, i: nat, e: nat, f: nat, c: string)
    requires i + 5 <= e && e + 2 < f <= |s|
    requires e == WordRunEnd(s, i) && OccursAt(s, EnumCallTail, e - 4)
    requires f == SpanUntil(s, '"', e + 2) && OccursAt(s, CallEnd, f) && s[e + 2..f] == c
    ensures MatchEnumColumn(s, i) == Some(Match(f + 2 - i, TextCall(c)))
  {
  }

  /** What a successful enum-column attempt has checked: the name's word run
      up to `e`, ending in `Enum("`, and the column up to its quote at `f`. */
  lemma EnumColumnFields(s: string, i: nat) returns (e: nat, f: nat)
    requires i <= |s| && MatchEnumColumn(s, i).Some?
    ensures e == WordRunEnd(s, i) && i + 5 <= e && e + 2 < f <= |s|
    ensures OccursAt(s, EnumCallTail, e - 4) && OccursAt(s, CallEnd, f)
    ensures f == SpanUntil(s, '"', e + 2)
  {
    e := WordRunEnd(s, i);
    f := SpanUntil(s, '"', e + 2);
  }

  /** The name and the column cut out of a checked enum call. */
  lemma EnumColumnSlices(s: string, i: nat, e: nat, f: nat) returns (w: string, c: string)
    requires i + 5 <= e && e + 2 < f <= |s|
    requires forall k :: i <= k < e ==> IsWordChar(s[k])
    requires forall k :: e + 2 <= k < f ==> s[k] != '"'
    requires OccursAt(s, EnumCallTail, e - 4) && OccursAt(s, CallEnd, f)
    ensures EnumStem(w) && ColumnName(c)
    ensures OccursAt(s, w, i) && OccursAt(s, EnumCallTail, i + |w|)
    ensures OccursAt(s, c, i + |w| + 6) && OccursAt(s, CallEnd, i + |w| + 6 + |c|)
  {
    w := s[i..e - 4];
    c := s[e + 2..f];
    assert OccursAt(s, w, i);
    assert OccursAt(s, c, e + 2);
    forall k | 0 <= k < |w|
      ensures IsWordChar(w[k])
    {
      assert w[k] == s[i + k];
    }
  }

  // Timestamp defaults.

  /** What a successful timestamp-default attempt has checked: the head, the
      column name up to its closing quote at `e`, and the rest of the prefix. */
  lemma TimestampDefaultFields(s: string, i: nat, mode: string) returns (e: nat)
    requires i <= |s| && MatchTimestampDefault(s, i, mode).Some?
    ensures OccursAt(s, IntegerHead, i) && i + |IntegerHead| < e <= |s|
    ensures e == SpanUntil(s, '"', i + |IntegerHead|)
    ensures OccursAt(s, ArgumentSeparator + TimestampMode + DefaultCall, e)
  {
    e := SpanUntil(s, '"', i + |IntegerHead|);
  }

  /** The column name cut out of a checked timestamp-default prefix. */
  lemma TimestampDefaultColumn(s: string, i: nat, e: nat) returns (c: string)
    requires OccursAt(s, IntegerHead, i) && i + |IntegerHead| < e <= |s|
    requires forall k :: i + |IntegerHead| <= k < e ==> s[k] != '"'
    requires OccursAt(s, ArgumentSeparator + TimestampMode + DefaultCall, e)
    ensures ColumnName(c) && OccursAt(s, TimestampDefaultText(c, TimestampMode), i)
  {
    var a := i + |IntegerHead|;
    var tail := ArgumentSeparator + TimestampMode + DefaultCall;
    c := s[a..e];
    assert OccursAt(s, c, a);
    OccursAtConcat(s, IntegerHead, c, i);
    OccursAtConcat(s, IntegerHead + c, tail, i);
    assert TimestampDefaultText(c, TimestampMode) == IntegerHead + c + tail;
  }

  // Enum declarations.

  /** The length of a declaration, from its pieces. */
  lemma DeclarationLength(w: string, a: string, semicolon: bool)
    ensures |EnumDeclarationText(w, a, semicolon)| == 29 + |w| + |a| + (if semicolon then 1 else 0)
  {
  }

  /** The end of a declaration: the first `)` after the arguments, then the line ending. */
  lemma DeclarationEnding(s: string, i: nat, a: nat, c: nat, semicolon: bool)
    requires i < a < c < |s| && OccursAt(s, LineEnd(semicolon), c + 1)
    ensures DeclarationAfterArguments(s, i, a, c) == Some(Match(c + 2 - i + (if semicolon then 1 else 0), ""))
  {
    if !semicolon {
      OccursAtChars(s, "\n", c + 1);
      assert s[c + 1] == '\n' != ';';
    }
  }

  /** The attempt at `i` when the declaration's pieces are where they should be. */
  lemma DeclarationAttempt(s: string, i: nat, w: string, a: string, semicolon: bool)
    requires EnumStem(w) && EnumArguments(a) && i <= |s|
    requires OccursAt(s, DeclarationHead, i)
    requires OccursAt(s, w, i + 13) && OccursAt(s, DeclarationTail, i + 13 + |w|)
    requires OccursAt(s, a, i + 27 + |w|) && OccursAt(s, ")", i + 27 + |w| + |a|)
    requires OccursAt(s, LineEnd(semicolon), i + 28 + |w| + |a|)
    ensures MatchEnumDeclaration(s, i) == Some(Match(29 + |w| + |a| + (if semicolon then 1 else 0), ""))
  {
    var e := DeclarationNameEnd(s, i, w);
    var c := ArgumentsEnd(s, e + 10, a);
    DeclarationChain(s, i, e, c, semicolon);
  }

  /** The name of a declaration ends where its `Enum` does. */
  lemma DeclarationNameEnd(s: string, i: nat, w: string) returns (e: nat)
    requires EnumStem(w) && OccursAt(s, w, i + 13) && OccursAt(s, DeclarationTail, i + 13 + |w|)
    ensures e == WordRunEnd(s, i + 13) && e == i + 17 + |w| && OccursAt(s, DeclarationTail, e - 4)
  {
    DeclarationNameRun(s, i, w);
    e := i + 17 + |w|;
  }

  /** Arguments free of `)` and followed by one run up to that `)`. */
  lemma ArgumentsEnd(s: string, a0: nat, a: string) returns (c: nat)
    requires EnumArguments(a) && OccursAt(s, a, a0) && OccursAt(s, ")", a0 + |a|)
    ensures c == a0 + |a| && c == SpanUntil(s, ')', a0) && c < |s|
  {
    RunUntil(s, a, a0, ')', ")");
    c := a0 + |a|;
  }

  /** The attempt at `i` from the positions it checks: the end `e` of the
      name, the first `)` at `c` after the arguments, and the line end after it. */
  lemma DeclarationChain(s: string, i: nat, e: nat, c: nat, semicolon: bool)
    requires i + 18 <= e && e + 10 < c < |s|
    requires OccursAt(s, DeclarationHead, i) && e == WordRunEnd(s, i + 13)
    requires OccursAt(s, DeclarationTail, e - 4) && SpanUntil(s, ')', e + 10) == c
    requires OccursAt(s, LineEnd(semicolon), c + 1)
    ensures MatchEnumDeclaration(s, i) == Some(Match(c + 2 - i + (if semicolon then 1 else 0), ""))
  {
    DeclarationStart(s, i, e);
    DeclarationName(s, i, e, c);
    DeclarationEnding(s, i, e + 10, c, semicolon);
  }

  /** Past the head `export const `, the attempt goes on from the end of the name's word run. */
  lemma DeclarationStart(s: string, i: nat, e: nat)
    requires i <= |s| && OccursAt(s, DeclarationHead, i) && e == WordRunEnd(s, i + 13)
    ensures MatchEnumDeclaration(s, i) == DeclarationAfterName(s, i, e)
  {
  }

  /** The name of a declaration runs up to the space after `Enum`. */
  lemma DeclarationNameRun(s: string, i: nat, w: string)
    requires EnumStem(w) && OccursAt(s, w, i + 13) && OccursAt(s, DeclarationTail, i + 13 + |w|)
    ensures WordRunEnd(s, i + 13) == i + 17 + |w|
  {
    EnumNameRun(s, i + 13, w, DeclarationTail);
  }

  /** Past a name that ends in `Enum` and is followed by ` = pgEnum(`, the
      attempt goes on with the arguments, up to the first `)`. */
  lemma DeclarationName(s: string, i: nat, e: nat, c: nat)
    requires i + 18 <= e && e + 10 <= c <= |s|
    requires OccursAt(s, DeclarationTail, e - 4) && SpanUntil(s, ')', e + 10) == c
    ensures DeclarationAfterName(s, i, e) == DeclarationAfterArguments(s, i, e + 10, c)
  {
  }

  /** What a successful attempt at `i` has checked, up to the name. */
  lemma DeclarationHeadFields(s: string, i: nat) returns (e: nat, c: nat)
    requires i <= |s| && MatchEnumDeclaration(s, i).Some?
    ensures e == WordRunEnd(s, i + 13) && i + 18 <= e && e + 10 <= c <= |s|
    ensures OccursAt(s, DeclarationHead, i) && OccursAt(s, DeclarationTail, e - 4)
    ensures c == SpanUntil(s, ')', e + 10)
    ensures MatchEnumDeclaration(s, i) == DeclarationAfterArguments(s, i, e + 10, c)
  {
    e := WordRunEnd(s, i + 13);
    c := SpanUntil(s, ')', e + 10);
  }

  /** What a successful attempt has checked after the arguments. */
  lemma DeclarationTailFields(s: string, i: nat, a0: nat, c: nat) returns (semicolon: bool)
    requires i < a0 <= c <= |s| && (c == |s| || s[c] == ')')
    requires DeclarationAfterArguments(s, i, a0, c).Some?
    ensures a0 < c < |s| && OccursAt(s, ")", c) && OccursAt(s, LineEnd(semicolon), c + 1)
    ensures DeclarationAfterArguments(s, i, a0, c) == Some(Match(c + 2 - i + (if semicolon then 1 else 0), ""))
    ensures if semicolon then c + 2 < |s| && s[c + 1] == ';' && s[c + 2] == '\n' else s[c + 1] == '\n'
  {
    semicolon := OccursAt(s, ";\n", c + 1);
    assert s[c..c + 1] == [s[c]];
    OccursAtChars(s, LineEnd(semicolon), c + 1);
  }

  /** The name and the arguments of a matched declaration, with the pieces in place. */
  lemma DeclarationFields(s: string, i: nat) returns (w: string, a: string, semicolon: bool)
    requires i <= |s| && MatchEnumDeclaration(s, i).Some?
    ensures EnumStem(w) && EnumArguments(a)
    ensures OccursAt(s, DeclarationHead, i)
    ensures OccursAt(s, w, i + 13) && OccursAt(s, DeclarationTail, i + 13 + |w|)
    ensures OccursAt(s, a, i + 27 + |w|) && OccursAt(s, ")", i + 27 + |w| + |a|)
    ensures OccursAt(s, LineEnd(semicolon), i + 28 + |w| + |a|)
  {
    var e, c := DeclarationHeadFields(s, i);
    semicolon := DeclarationTailFields(s, i, e + 10, c);
    w, a := DeclarationSlices(s, i, e, c, semicolon);
  }

  /** The name and the arguments cut out of the text at the offsets a match has checked. */
  lemma DeclarationSlices(s: string, i: nat, e: nat, c: nat, semicolon: bool) returns (w: string, a: string)
    requires i + 18 <= e && e + 10 < c <= |s|
    requires forall k :: i + 13 <= k < e ==> IsWordChar(s[k])
    requires forall k :: e + 10 <= k < c ==> s[k] != ')'
    requires OccursAt(s, DeclarationTail, e - 4) && OccursAt(s, ")", c) && OccursAt(s, LineEnd(semicolon), c + 1)
    ensures EnumStem(w) && EnumArguments(a)
    ensures OccursAt(s, w, i + 13) && OccursAt(s, DeclarationTail, i + 13 + |w|)
    ensures OccursAt(s, a, i + 27 + |w|) && OccursAt(s, ")", i + 27 + |w| + |a|)
    ensures OccursAt(s, LineEnd(semicolon), i + 28 + |w| + |a|)
  {
    var p := i + 13;
    w := s[p..e - 4];
    a := s[e + 10..c];
    forall k | 0 <= k < |w|
      ensures IsWordChar(w[k])
    {
      assert w[k] == s[p + k];
    }
  }
}
