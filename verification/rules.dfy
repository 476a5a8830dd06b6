/**
 The twelve rewrite rules of the schema conversion, in the order the
 conversion applies them, and what each rule does to a whole text.
 */
module Rules {
  import opened Text
  import opened Patterns
  import opened ReSub
  import opened PatternFacts

  const PgCoreImport := "from \"drizzle-orm/pg-core\""
  const SqliteCoreImport := "from \"drizzle-orm/sqlite-core\""
  const UuidDefault := ".default(sql`gen_random_uuid()`)"
  const RandomBlobDefault := ".default(sql`(lower(hex(randomblob(16))))`)"
  const DefaultNow := ".defaultNow()"

  /** Step 1: the import of the PostgreSQL core module. */
  const ImportRule := Literal(PgCoreImport, SqliteCoreImport)
  /** Step 2: `\bpgTable\b`. */
  const TableRule := Word("pgTable", true, "sqliteTable")
  /** Step 3: whole `pgEnum` declarations. */
  const EnumDeclarationRule := EnumDeclaration
  /** Step 4, column types: `\bvarchar\(`. */
  const VarcharRule := Word("varchar(", false, "text(")
  /** Step 4: `timestamp("<column>")`. */
  const TimestampRule := TimestampColumn(TimestampMode)
  /** Step 4: `\bjsonb\(`. */
  const JsonbRule := Word("jsonb(", false, "text(")
  /** Step 4: `\bdecimal\(`. */
  const DecimalRule := Word("decimal(", false, "real(")
  /** Step 4: `\bdate\(`. */
  const DateRule := Word("date(", false, "text(")
  /** Step 5: enum columns `<name>Enum("<column>")`. */
  const EnumColumnRule := EnumColumn
  /** Step 6: the UUID default. */
  const UuidRule := Literal(UuidDefault, RandomBlobDefault)
  /** Step 6: `.defaultNow()`, deleted. */
  const DefaultNowRule := Literal(DefaultNow, "")
  /** Step 7: timestamp defaults. */
  const TimestampDefaultRule := TimestampDefault(TimestampMode)

  /** The column-type rules guarded by a word boundary before them only. */
  const TypeRules := [VarcharRule, JsonbRule, DecimalRule, DateRule]

  /** Every rule, in the order the conversion applies them. */
  const AllRules := [ImportRule, TableRule, EnumDeclarationRule, VarcharRule, TimestampRule,
                     JsonbRule, DecimalRule, DateRule, EnumColumnRule, UuidRule, DefaultNowRule,
                     TimestampDefaultRule]

  /** The option object the replacement templates of steps 4 and 7 produce as
      written: their `\'` escapes are kept, backslash included, by the
      template expansion of `re.sub`. */
  const WrittenMode := "{ mode: \\'timestamp\\' }"
  const WrittenTimestampRule := TimestampColumn(WrittenMode)
  const WrittenTimestampDefaultRule := TimestampDefault(WrittenMode)

  /** The rules as the script writes them: the same order, with the
      templates of steps 4 and 7 as written. */
  const WrittenRules := [ImportRule, TableRule, EnumDeclarationRule, VarcharRule, WrittenTimestampRule,
                         JsonbRule, DecimalRule, DateRule, EnumColumnRule, UuidRule, DefaultNowRule,
                         WrittenTimestampDefaultRule]

  /* ---------- step 1 ---------- */

  lemma ImportUnspellable()
    ensures Unspellable(PgCoreImport, SqliteCoreImport)
  {
    var t, r := PgCoreImport, SqliteCoreImport;
    assert r[..|t|][18] == 's' != 'p' == t[..|t|][18];
  }

  /** Step 1 replaces every occurrence of the PostgreSQL import, leaves none
      behind, and changes nothing in a text without one. */
  lemma ImportRewrite(s: string)
    ensures Sub(ImportRule, s) == ReplaceAll(s, PgCoreImport, SqliteCoreImport)
    ensures AbsentFrom(Sub(ImportRule, s), PgCoreImport, 0)
    ensures AbsentFrom(s, PgCoreImport, 0) ==> Sub(ImportRule, s) == s
  {
    LiteralIsReplaceAll(PgCoreImport, SqliteCoreImport, s);
    if AbsentFrom(s, PgCoreImport, 0) {
      ReplaceAllAbsent(s, PgCoreImport, SqliteCoreImport);
    }
    ImportUnspellable();
    ReplaceAllRemovesTarget(s, PgCoreImport, SqliteCoreImport);
  }

  /* ---------- steps 2 and 4: word-bounded names ---------- */

  /** `pgTable` is rewritten at `i` exactly when it occurs there with a
      non-word character or an edge of the text on both sides. */
  lemma TableRuleAt(s: string, i: nat)
    requires i <= |s|
    ensures MatchAt(TableRule, s, i).Some?
        <==> && OccursAt(s, "pgTable", i)
             && (i == 0 || !IsWordChar(s[i - 1]))
             && (i + 7 == |s| || !IsWordChar(s[i + 7]))
    ensures MatchAt(TableRule, s, i).Some? ==> MatchAt(TableRule, s, i).value == Match(7, "sqliteTable")
  {
    WordMatch("pgTable", true, "sqliteTable", s, i);
  }

  /** A column type is rewritten at `i` exactly when its name and `(` occur
      there with a non-word character or the start of the text before them;
      what follows does not matter. */
  lemma TypeRuleAt(p: Pattern, s: string, i: nat)
    requires p in TypeRules && i <= |s|
    ensures MatchAt(p, s, i).Some?
        <==> OccursAt(s, p.target, i) && (i == 0 || !IsWordChar(s[i - 1]))
    ensures MatchAt(p, s, i).Some? ==> MatchAt(p, s, i).value == Match(|p.target|, p.replacement)
  {
    assert p.Word? && !p.trailingBoundary && |p.target| > 0 && IsWordChar(p.target[0]);
    WordMatch(p.target, false, p.replacement, s, i);
  }

  /** Where every occurrence of the name is glued to a word character before
      it (as in `myvarchar(`), the rule changes nothing. */
  lemma EmbeddedWordKept(p: Pattern, s: string)
    requires p == TableRule || p in TypeRules
    requires forall k :: OccursAt(s, p.target, k) ==> k > 0 && IsWordChar(s[k - 1])
    ensures Sub(p, s) == s
  {
    forall k | 0 <= k < |s|
      ensures MatcherOf(p)(s, k).None?
    {
      if p == TableRule {
        TableRuleAt(s, k);
      } else {
        TypeRuleAt(p, s, k);
      }
    }
    NoMatchUnchanged(MatcherOf(p), s);
  }

  /* ---------- step 3: enum declarations ---------- */

  /** Every deleted declaration ends with a newline, so a last line without
      one (a declaration on the final line included) is kept as it is. */
  lemma UnterminatedTailKept(s: string, n: nat) returns (head: string)
    requires n <= |s| && '\n' !in s[n..]
    ensures Sub(EnumDeclarationRule, s) == head + s[n..]
  {
    var m := MatcherOf(EnumDeclarationRule);
    forall k | 0 <= k < |s| && m(s, k).Some?
      ensures k + m(s, k).value.len <= n
    {
      var c := EnumDeclarationEnd(s, k);
      var e := k + m(s, k).value.len;
      assert s[e - 1] == '\n';
    }
    head := TailKept(m, s, 0, n);
  }

  /* ---------- step 4: timestamp columns ---------- */

  /** A whole `timestamp("<column>")` call becomes an `integer` call with the
      column name copied and the timestamp mode as its second argument. */
  lemma TimestampCallRewrite(c: string, mode: string)
    requires ColumnName(c)
    ensures Sub(TimestampColumn(mode), TimestampCall(c)) == IntegerCall(c, mode)
  {
    var s := TimestampCall(c);
    assert OccursAt(s, s, 0);
    TimestampColumnMatches(s, 0, c, mode);
    SoleMatch(MatcherOf(TimestampColumn(mode)), s, IntegerCall(c, mode));
  }

  /** Step 4 as intended: `timestamp("<column>")` becomes
      `integer("<column>", { mode: 'timestamp' })`. */
  lemma TimestampColumnRewrite(c: string)
    requires ColumnName(c)
    ensures Sub(TimestampRule, "timestamp(\"" + c + "\")") == "integer(\"" + c + "\", { mode: 'timestamp' })"
  {
    TimestampCallRewrite(c, TimestampMode);
    TimestampTailSpelled();
    assert IntegerCall(c, TimestampMode) == IntegerHead + c + (ArgumentSeparator + TimestampMode + ")");
  }

  /** Step 4 as intended adds no backslash: one appears in its output only
      where the column name has one. */
  lemma TimestampColumnClean(c: string)
    requires ColumnName(c)
    ensures '\\' in Sub(TimestampRule, TimestampCall(c)) <==> '\\' in c
  {
    TimestampCallRewrite(c, TimestampMode);
    var tail := ArgumentSeparator + TimestampMode + ")";
    assert IntegerCall(c, TimestampMode) == IntegerHead + c + tail;
    IntegerPartsClean();
  }

  /** Step 4 as written puts backslashes into its output, for every column. */
  lemma WrittenTimestampEscapes(c: string)
    requires ColumnName(c)
    ensures Sub(WrittenTimestampRule, "timestamp(\"" + c + "\")")
         == "integer(\"" + c + "\", { mode: \\'timestamp\\' })"
    ensures '\\' in Sub(WrittenTimestampRule, TimestampCall(c))
  {
    TimestampCallRewrite(c, WrittenMode);
    var tail := ArgumentSeparator + WrittenMode + ")";
    WrittenTailSpelled();
    assert IntegerCall(c, WrittenMode) == IntegerHead + c + tail;
    assert tail[11] == '\\';
  }

  /** A `timestamp("<column>", ...)` call with further arguments is not matched. */
  lemma TimestampWithOptionsUnmatched(s: string, i: nat, c: string, mode: string)
    requires ColumnName(c) && OccursAt(s, TimestampHead + c + ArgumentSeparator, i)
    ensures MatchAt(TimestampColumn(mode), s, i).None?
  {
    OccursAtConcat(s, TimestampHead + c, ArgumentSeparator, i);
    OccursAtConcat(s, TimestampHead, c, i);
    var a := i + |TimestampHead|;
    ColumnRun(s, c, a, ArgumentSeparator);
    OccursAtChars(s, ArgumentSeparator, a + |c|);
    assert s[a + |c| + 1] == ',' != ')';
    assert !OccursAt(s, CallEnd, a + |c|) by {
      if OccursAt(s, CallEnd, a + |c|) {
        OccursAtChars(s, CallEnd, a + |c|);
      }
    }
  }

  /* ---------- step 6: default expressions ---------- */

  lemma UuidUnspellable()
    ensures Unspellable(UuidDefault, RandomBlobDefault)
  {
    var t, r := UuidDefault, RandomBlobDefault;
    assert r[..|t|][13] == '(' != 'g' == t[..|t|][13];
  }

  /** Every `gen_random_uuid()` default becomes a `randomblob(16)` default,
      and none is left behind. */
  lemma UuidRewrite(s: string)
    ensures Sub(UuidRule, s) == ReplaceAll(s, UuidDefault, RandomBlobDefault)
    ensures AbsentFrom(Sub(UuidRule, s), UuidDefault, 0)
    ensures AbsentFrom(s, UuidDefault, 0) ==> Sub(UuidRule, s) == s
  {
    LiteralIsReplaceAll(UuidDefault, RandomBlobDefault, s);
    if AbsentFrom(s, UuidDefault, 0) {
      ReplaceAllAbsent(s, UuidDefault, RandomBlobDefault);
    }
    UuidUnspellable();
    ReplaceAllRemovesTarget(s, UuidDefault, RandomBlobDefault);
  }

  /** Every non-overlapping `.defaultNow()` of the step's input is deleted,
      each taking its 13 characters with it. */
  lemma DefaultNowRemoval(s: string)
    ensures Sub(DefaultNowRule, s) == ReplaceAll(s, DefaultNow, "")
    ensures |Sub(DefaultNowRule, s)| == |s| - 13 * CountAll(s, DefaultNow)
    ensures AbsentFrom(s, DefaultNow, 0) ==> Sub(DefaultNowRule, s) == s
  {
    LiteralIsReplaceAll(DefaultNow, "", s);
    if AbsentFrom(s, DefaultNow, 0) {
      ReplaceAllAbsent(s, DefaultNow, "");
    }
    ReplaceAllLength(s, DefaultNow, "");
  }

  /* ---------- step 7: timestamp defaults ---------- */

  /** Step 7 as intended rewrites every timestamp default to itself: the step
      changes no text at all. */
  lemma TimestampDefaultIdentity(s: string)
    ensures Sub(TimestampDefaultRule, s) == s
  {
    var m := MatcherOf(TimestampDefaultRule);
    forall k | 0 <= k < |s| && m(s, k).Some?
      ensures m(s, k).value.replacement == s[k..k + m(s, k).value.len]
    {
      var c := TimestampDefaultShape(s, k, TimestampMode);
    }
    SelfReplacingUnchanged(m, s, 0);
  }

  /** Step 7 as written is no identity: it puts backslashes into every
      timestamp default that is already in SQLite form. */
  lemma WrittenTimestampDefaultChanges(c: string)
    requires ColumnName(c)
    ensures Sub(WrittenTimestampDefaultRule, TimestampDefaultText(c, TimestampMode))
         == TimestampDefaultText(c, WrittenMode)
    ensures TimestampDefaultText(c, WrittenMode) != TimestampDefaultText(c, TimestampMode)
  {
    var s := TimestampDefaultText(c, TimestampMode);
    assert OccursAt(s, s, 0);
    TimestampDefaultMatches(s, 0, c, WrittenMode);
    SoleMatch(MatcherOf(WrittenTimestampDefaultRule), s, TimestampDefaultText(c, WrittenMode));
  }

  /* ---------- proof steps ----------

     Literal spellings, kept apart so that the proofs using them need not
     unfold the string constants. */

  /** The corrected tail of the `integer` call, spelled out. */
  lemma TimestampTailSpelled()
    ensures ArgumentSeparator + TimestampMode + ")" == "\", { mode: 'timestamp' })"
  {
  }

  /** The fixed parts of the corrected `integer` call hold no backslash. */
  lemma IntegerPartsClean()
    ensures '\\' !in IntegerHead && '\\' !in ArgumentSeparator + TimestampMode + ")"
  {
    assert '\\' !in ArgumentSeparator && '\\' !in TimestampMode;
  }

  /** The tail of the `integer` call as written, spelled out. */
  lemma WrittenTailSpelled()
    ensures ArgumentSeparator + WrittenMode + ")" == "\", { mode: \\'timestamp\\' })"
  {
  }
}
