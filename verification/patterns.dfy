/**
 The fixed patterns of the PostgreSQL-to-SQLite schema conversion, each
 hand-coded as a match attempt at one position of the text. A match attempt
 answers what Python's `re` engine answers when it tries the pattern at that
 position: the text it consumes and the text that replaces it.
 */
module Patterns {
  import opened Text

  /** A successful match attempt: the number of characters consumed and their replacement. */
  datatype Match = Match(len: nat, replacement: string)

  datatype Pattern =
      /** A fixed string, replaced by a fixed string. */
    | Literal(target: string, replacement: string)
      /** A fixed string with a word boundary before it, and after it when
          `trailingBoundary` holds, replaced by a fixed string. */
    | Word(target: string, trailingBoundary: bool, replacement: string)
      /** A whole `export const <name>Enum = pgEnum(<args>)` statement, its
          optional `;` and its newline, deleted. */
    | EnumDeclaration
      /** A `timestamp("<column>")` call, rewritten to an `integer("<column>", <mode>)` call. */
    | TimestampColumn(mode: string)
      /** A `<name>Enum("<column>")` call, rewritten to a `text("<column>")` call. */
    | EnumColumn
      /** An `integer("<column>", { mode: 'timestamp' }).default` prefix, rewritten
          with `<mode>` as its option object. */
    | TimestampDefault(mode: string)

  predicate Valid(p: Pattern) {
    match p
    case Literal(t, _) => |t| > 0
    case Word(t, _, _) => |t| > 0
    case _ => true
  }

  const DeclarationHead := "export const "
  const DeclarationTail := "Enum = pgEnum("
  const TimestampHead := "timestamp(\""
  const IntegerHead := "integer(\""
  const TextHead := "text(\""
  const EnumCallTail := "Enum(\""
  /** The closing quote and parenthesis of a one-argument call. */
  const CallEnd := "\")"
  /** The closing quote of a column name followed by the separator of a second argument. */
  const ArgumentSeparator := "\", "
  /** The option object of a SQLite timestamp column. */
  const TimestampMode := "{ mode: 'timestamp' }"
  const DefaultCall := ").default"

  /** A column-name literal: at least one character, none of them a double quote. */
  predicate ColumnName(c: string) {
    |c| > 0 && '"' !in c
  }

  /** The argument text of a `pgEnum(...)` declaration: at least one character, no `)`. */
  predicate EnumArguments(a: string) {
    |a| > 0 && ')' !in a
  }

  /** The identifier part in front of `Enum`: at least one word character. */
  predicate EnumStem(w: string) {
    |w| > 0 && AllWordChars(w)
  }

  /** The declaration pattern at `i`: the head `export const `, then the rest
      of the statement after the name's run of word characters. */
  function MatchEnumDeclaration(s: string, i: nat): Option<Match>
    requires i <= |s|
  {
    if !OccursAt(s, DeclarationHead, i) then None
    else DeclarationAfterName(s, i, WordRunEnd(s, i + |DeclarationHead|))
  }

  /** The run of word characters ending at `e` must end in `Enum`, with at
      least one character before it, and be followed by ` = pgEnum(`; the
      name cannot give back characters, as `\w+` could only stop inside
      the run where `Enum = pgEnum(` cannot follow. */
  function DeclarationAfterName(s: string, i: nat, e: nat): Option<Match>
    requires i + |DeclarationHead| <= e <= |s|
  {
    if e < i + |DeclarationHead| + 5 || !OccursAt(s, DeclarationTail, e - 4) then None
    else DeclarationAfterArguments(s, i, e + 10, SpanUntil(s, ')', e + 10))
  }

  /** The arguments run from `a` to the first `)` at `c`; they must be
      non-empty, and the `)` must be followed by `;` and a newline, or by a
      newline. */
  function DeclarationAfterArguments(s: string, i: nat, a: nat, c: nat): Option<Match>
    requires i < a <= c <= |s|
  {
    if c == a || c == |s| then None
    else if OccursAt(s, ";\n", c + 1) then Some(Match(c + 3 - i, ""))
    else if OccursAt(s, "\n", c + 1) then Some(Match(c + 2 - i, ""))
    else None
  }

  function MatchTimestampColumn(s: string, i: nat, mode: string): Option<Match>
    requires i <= |s|
  {
    if !OccursAt(s, TimestampHead, i) then None
    else
      var a := i + |TimestampHead|;
      var c := SpanUntil(s, '"', a);
      if c == a || !OccursAt(s, CallEnd, c) then None
      else Some(Match(c + 2 - i, IntegerHead + s[a..c] + ArgumentSeparator + mode + ")"))
  }

  function MatchEnumColumn(s: string, i: nat): Option<Match>
    requires i <= |s|
  {
    var e := WordRunEnd(s, i);
    if e < i + 5 || !OccursAt(s, EnumCallTail, e - 4) then None
    else
      var a := e + 2;
      var c := SpanUntil(s, '"', a);
      if c == a || !OccursAt(s, CallEnd, c) then None
      else Some(Match(c + 2 - i, TextHead + s[a..c] + CallEnd))
  }

  function MatchTimestampDefault(s: string, i: nat, mode: string): Option<Match>
    requires i <= |s|
  {
    if !OccursAt(s, IntegerHead, i) then None
    else
      var a := i + |IntegerHead|;
      var c := SpanUntil(s, '"', a);
      var tail := ArgumentSeparator + TimestampMode + DefaultCall;
      if c == a || !OccursAt(s, tail, c) then None
      else Some(Match(c + |tail| - i, IntegerHead + s[a..c] + ArgumentSeparator + mode + DefaultCall))
  }

  /** The attempt to match `p` at position `i` of `s`; a match never consumes
      an empty stretch and never runs past the end of the text. */
  function MatchAt(p: Pattern, s: string, i: nat): (m: Option<Match>)
    requires Valid(p) && i <= |s|
    ensures m.Some? ==> 0 < m.value.len <= |s| - i
  {
    match p
    case Literal(t, r) =>
      if OccursAt(s, t, i) then Some(Match(|t|, r)) else None
    case Word(t, trailing, r) =>
      if IsWordBoundary(s, i) && OccursAt(s, t, i) && (!trailing || IsWordBoundary(s, i + |t|))
      then Some(Match(|t|, r)) else None
    case EnumDeclaration => MatchEnumDeclaration(s, i)
    case TimestampColumn(mode) => MatchTimestampColumn(s, i, mode)
    case EnumColumn => MatchEnumColumn(s, i)
    case TimestampDefault(mode) => MatchTimestampDefault(s, i, mode)
  }
}
