/**
 The whole conversion of a Drizzle schema from PostgreSQL to SQLite: the
 twelve rewrite rules applied one after another, each to the whole output of
 the one before, then a fixed comment inserted after the `zod` import line.
 */
module ConvertSchema {
  import opened Text
  import opened Patterns
  import opened ReSub
  import opened PatternFacts
  import opened Rules

  predicate AllValid(rules: seq<Pattern>) {
    forall k :: 0 <= k < |rules| ==> Valid(rules[k])
  }

  /** The rules applied in order, each to the whole output of the one before. */
  function ApplyAll(rules: seq<Pattern>, s: string): string
    requires AllValid(rules)
    decreases |rules|
  {
    if rules == [] then s else ApplyAll(rules[1..], Sub(rules[0], s))
  }

  /** The rules of steps 1 to 7, corrected or as written. */
  predicate IsPipeline(rules: seq<Pattern>) {
    rules == AllRules || rules == WrittenRules
  }

  /** Steps 1 to 7 of the conversion, with the corrected templates of steps 4 and 7. */
  function Rewrite(s: string): string {
    ApplyAll(AllRules, s)
  }

  /** Steps 1 to 7 as the script writes them. */
  function WrittenRewrite(s: string): string {
    ApplyAll(WrittenRules, s)
  }

  /** The anchor after whose line the comment goes. */
  const ZodImport := "import { z } from \"zod\";"

  /** The comment block of step 8, kept character for character: a blank
      line, fourteen comment lines and another blank line. */
  const EnumComment := "\n"
    + "// SQLite Schema - Converted from PostgreSQL\n"
    + "// Note: Enums are replaced with TEXT fields. Validation should be done at application level.\n"
    + "// Enum values documentation:\n"
    + "// - user_status: 'online', 'offline', 'away', 'busy', 'gaming'\n"
    + "// - privacy_level: 'everyone', 'friends_only', 'private'\n"
    + "// - event_type: 'tournament', 'convention', 'release', 'stream', 'community', 'personal', 'game_pod'\n"
    + "// - event_status: 'active', 'cancelled', 'completed', 'draft'\n"
    + "// - attendee_status: 'attending', 'maybe', 'not_attending'\n"
    + "// - game_session_status: 'waiting', 'active', 'paused', 'completed', 'cancelled'\n"
    + "// - notification_type: 'event_join', 'event_leave', 'game_invite', 'message', 'system', 'friend_request', 'friend_accepted', 'pod_filled', 'pod_almost_full', 'spectator_join'\n"
    + "// - notification_priority: 'low', 'normal', 'high', 'urgent'\n"
    + "// - stream_session_status: 'scheduled', 'live', 'ended', 'cancelled'\n"
    + "// - collaboration_request_status: 'pending', 'accepted', 'declined', 'expired', 'cancelled'\n"
    + "// And more... (check original schema for complete list)\n"
    + "\n"

  /** `block` inserted just after the first newline at or after the first
      occurrence of `anchor`, or at the very start when no newline follows;
      the text is unchanged when `anchor` does not occur. */
  function InsertAfterLine(s: string, anchor: string, block: string): (r: string)
    ensures AbsentFrom(s, anchor, 0) ==> r == s
    ensures !AbsentFrom(s, anchor, 0) ==> |r| == |s| + |block|
  {
    FindSpec(s, anchor, 0);
    var k := Find(s, anchor, 0);
    if k == -1 then s
    else
      var p := Find(s, "\n", k) + 1;
      s[..p] + block + s[p..]
  }

  /** Step 8: the comment goes after the line of the first `zod` import. */
  function InsertEnumComment(s: string): string {
    InsertAfterLine(s, ZodImport, EnumComment)
  }

  /** The corrected conversion of one schema text. */
  function Convert(s: string): string {
    InsertEnumComment(Rewrite(s))
  }

  /** The conversion of one schema text as the script writes it. */
  function WrittenConvert(s: string): string {
    InsertEnumComment(WrittenRewrite(s))
  }

  /* ---------- steps 1 to 7 ---------- */

  /** `p` matches nowhere in `s`. */
  predicate Inert(p: Pattern, s: string)
    requires Valid(p)
  {
    forall i :: 0 <= i < |s| ==> MatchAt(p, s, i).None?
  }

  lemma InertUnchanged(p: Pattern, s: string)
    requires Valid(p) && Inert(p, s)
    ensures Sub(p, s) == s
  {
    NoMatchUnchanged(MatcherOf(p), s);
  }

  /** A text that no rule matches passes through all of them unchanged. */
  lemma {:induction false} ApplyAllInert(rules: seq<Pattern>, s: string)
    requires AllValid(rules) && forall k :: 0 <= k < |rules| ==> Inert(rules[k], s)
    ensures ApplyAll(rules, s) == s
    decreases |rules|
  {
    if rules != [] {
      InertUnchanged(rules[0], s);
      ApplyAllInert(rules[1..], s);
    }
  }

  /** Applying `a + b` is applying `a`, then `b` to what `a` leaves. */
  lemma {:induction false} ApplyAllSplit(a: seq<Pattern>, b: seq<Pattern>, s: string)
    requires AllValid(a) && AllValid(b)
    ensures AllValid(a + b) && ApplyAll(a + b, s) == ApplyAll(b, ApplyAll(a, s))
    decreases |a|
  {
    if a == [] {
      assert a + b == b;
    } else {
      assert (a + b)[1..] == a[1..] + b;
      ApplyAllSplit(a[1..], b, Sub(a[0], s));
    }
  }

  /** Two rule lists of the same length give the same result when, at each
      step, they hold the same rule or both rules match nowhere in the text
      that step receives. */
  lemma {:induction false} ApplyAllAgree(a: seq<Pattern>, b: seq<Pattern>, s: string)
    requires AllValid(a) && AllValid(b) && |a| == |b|
    requires forall k :: 0 <= k < |a| ==>
      a[k] == b[k] || (Inert(a[k], ApplyAll(a[..k], s)) && Inert(b[k], ApplyAll(a[..k], s)))
    ensures ApplyAll(a, s) == ApplyAll(b, s)
    decreases |a|
  {
    if a != [] {
      assert a[..0] == [];
      if a[0] != b[0] {
        InertUnchanged(a[0], s);
        InertUnchanged(b[0], s);
      }
      var t := Sub(a[0], s);
      forall k | 0 <= k < |a[1..]|
        ensures ApplyAll(a[1..][..k], t) == ApplyAll(a[..k + 1], s)
      {
        assert a[..k + 1][1..] == a[1..][..k];
      }
      ApplyAllAgree(a[1..], b[1..], t);
    }
  }

  /** The text that step `k` of the corrected pipeline receives. */
  function Before(k: nat, s: string): string
    requires k <= |AllRules|
  {
    ApplyAll(AllRules[..k], s)
  }

  /** The timestamp pattern matches at the same places whatever its mode. */
  lemma TimestampInert(mode: string, s: string)
    requires Inert(TimestampRule, s)
    ensures Inert(TimestampColumn(mode), s)
  {
    forall i | 0 <= i < |s|
      ensures MatchAt(TimestampColumn(mode), s, i).None?
    {
      assert MatchAt(TimestampRule, s, i).None?;
    }
  }

  /** The timestamp-default pattern matches at the same places whatever its mode. */
  lemma TimestampDefaultInert(mode: string, s: string)
    requires Inert(TimestampDefaultRule, s)
    ensures Inert(TimestampDefault(mode), s)
  {
    forall i | 0 <= i < |s|
      ensures MatchAt(TimestampDefault(mode), s, i).None?
    {
      assert MatchAt(TimestampDefaultRule, s, i).None?;
    }
  }

  /** The escaped templates make a difference only through a match: when no
      `timestamp("<column>")` call reaches step 4 and no timestamp default
      reaches step 7, the script as written and the corrected one agree. */
  lemma PipelinesAgree(s: string)
    requires Inert(TimestampRule, Before(4, s)) && Inert(TimestampDefaultRule, Before(11, s))
    ensures WrittenRewrite(s) == Rewrite(s)
  {
    PipelineSteps(s);
    ApplyAllAgree(AllRules, WrittenRules, s);
  }

  /** Under the same conditions the whole conversions agree, comment included. */
  lemma ConvertsAgree(s: string)
    requires Inert(TimestampRule, Before(4, s)) && Inert(TimestampDefaultRule, Before(11, s))
    ensures WrittenConvert(s) == Convert(s)
  {
    PipelinesAgree(s);
  }

  /** Step by step, the two pipelines hold the same rule, except at steps 4
      and 7, where neither rule matches the text the step receives. */
  lemma PipelineSteps(s: string)
    requires Inert(TimestampRule, Before(4, s)) && Inert(TimestampDefaultRule, Before(11, s))
    ensures forall k :: 0 <= k < |AllRules| ==>
      || AllRules[k] == WrittenRules[k]
      || (Inert(AllRules[k], Before(k, s)) && Inert(WrittenRules[k], Before(k, s)))
  {
    TimestampInert(WrittenMode, Before(4, s));
    TimestampDefaultInert(WrittenMode, Before(11, s));
    forall k | 0 <= k < |AllRules|
      ensures || AllRules[k] == WrittenRules[k]
              || (Inert(AllRules[k], Before(k, s)) && Inert(WrittenRules[k], Before(k, s)))
    {
    }
  }

  /** A declaration holds the `(` of `pgEnum(`. */
  lemma DeclarationNeedsParen(s: string, i: nat)
    requires i <= |s| && MatchAt(EnumDeclarationRule, s, i).Some?
    ensures '(' in s
  {
    assert MatchAt(EnumDeclarationRule, s, i) == MatchEnumDeclaration(s, i);
    var e, c := DeclarationHeadFields(s, i);
    OccursAtContains(s, DeclarationTail, e - 4, 13);
  }

  /** Every rule after the first two, corrected or as written, matches only
      where a `(` occurs. */
  lemma NeedsParen(rules: seq<Pattern>, k: nat, s: string, i: nat)
    requires IsPipeline(rules) && 2 <= k < |rules| && i <= |s| && MatchAt(rules[k], s, i).Some?
    ensures '(' in s
  {
    if k == 2 {
      DeclarationNeedsParen(s, i);
    } else if k == 4 {
      TimestampNeedsParen(rules[4].mode, s, i);
    } else if k == 8 {
      EnumColumnNeedsParen(s, i);
    } else if k == 9 {
      LiteralNeedsParen(UuidDefault, RandomBlobDefault, s, i, 8);
    } else if k == 10 {
      LiteralNeedsParen(DefaultNow, "", s, i, 11);
    } else if k == 11 {
      TimestampDefaultNeedsParen(rules[11].mode, s, i);
    } else {
      TypeNeedsParen(rules[k], s, i);
    }
  }

  /** A `timestamp("<column>")` call holds its `(`. */
  lemma TimestampNeedsParen(mode: string, s: string, i: nat)
    requires i <= |s| && MatchAt(TimestampColumn(mode), s, i).Some?
    ensures '(' in s
  {
    OccursAtContains(s, TimestampHead, i, 9);
  }

  /** An enum call holds the `(` after `Enum`. */
  lemma EnumColumnNeedsParen(s: string, i: nat)
    requires i <= |s| && MatchAt(EnumColumnRule, s, i).Some?
    ensures '(' in s
  {
    var e := WordRunEnd(s, i);
    OccursAtContains(s, EnumCallTail, e - 4, 4);
  }

  /** A fixed string with a `(` at index `j` brings it along. */
  lemma LiteralNeedsParen(t: string, r: string, s: string, i: nat, j: nat)
    requires j < |t| && t[j] == '(' && i <= |s| && MatchAt(Literal(t, r), s, i).Some?
    ensures '(' in s
  {
    OccursAtContains(s, t, i, j);
  }

  /** A timestamp default starts with the `(` of `integer(`. */
  lemma TimestampDefaultNeedsParen(mode: string, s: string, i: nat)
    requires i <= |s| && MatchAt(TimestampDefault(mode), s, i).Some?
    ensures '(' in s
  {
    OccursAtContains(s, IntegerHead, i, 7);
  }

  /** The names of the column-type rules end in `(`. */
  lemma TypeNeedsParen(p: Pattern, s: string, i: nat)
    requires p in TypeRules && i <= |s| && MatchAt(p, s, i).Some?
    ensures '(' in s
  {
    TypeRuleAt(p, s, i);
    OccursAtContains(s, p.target, i, |p.target| - 1);
  }

  /** A text with no `(`, no PostgreSQL import and no `pgTable` comes out of
      steps 1 to 7 unchanged, corrected or as written. */
  lemma RewriteQuietText(s: string)
    requires '(' !in s && AbsentFrom(s, PgCoreImport, 0) && AbsentFrom(s, "pgTable", 0)
    ensures Rewrite(s) == s
    ensures WrittenRewrite(s) == s
  {
    PipelineQuietText(AllRules, s);
    PipelineQuietText(WrittenRules, s);
  }

  /** No rule of either pipeline matches a text with no `(`, no PostgreSQL
      import and no `pgTable`. */
  lemma PipelineQuietText(rules: seq<Pattern>, s: string)
    requires IsPipeline(rules)
    requires '(' !in s && AbsentFrom(s, PgCoreImport, 0) && AbsentFrom(s, "pgTable", 0)
    ensures ApplyAll(rules, s) == s
  {
    forall k | 0 <= k < |rules|
      ensures Inert(rules[k], s)
    {
      forall i | 0 <= i < |s|
        ensures MatchAt(rules[k], s, i).None?
      {
        if k == 0 {
          assert !OccursAt(s, PgCoreImport, i);
        } else if k == 1 {
          TableRuleAt(s, i);
        } else if MatchAt(rules[k], s, i).Some? {
          NeedsParen(rules, k, s, i);
        }
      }
    }
    ApplyAllInert(rules, s);
  }

  /* ---------- step 8 ---------- */

  /** A newline at or after an occurrence of an anchor free of newlines lies past its end. */
  lemma NewlinePastAnchor(s: string, anchor: string, k: nat, n: nat)
    requires OccursAt(s, anchor, k) && '\n' !in anchor && k <= n < |s| && s[n] == '\n'
    ensures k + |anchor| <= n
  {
  }

  /** Where the block lands: right after the first newline that follows the
      first occurrence of an anchor free of newlines, past the whole anchor, or
      at position 0 when no newline follows; the text on both sides is kept as
      it was. */
  lemma Placement(s: string, anchor: string, block: string, k: nat) returns (p: nat)
    requires FirstFrom(s, anchor, 0, k) && '\n' !in anchor
    ensures p <= |s| && InsertAfterLine(s, anchor, block) == s[..p] + block + s[p..]
    ensures p == 0 <==> forall j :: k <= j < |s| ==> s[j] != '\n'
    ensures p > 0 ==> (&& k + |anchor| < p
                       && s[p - 1] == '\n'
                       && forall j :: k <= j < p - 1 ==> s[j] != '\n')
  {
    FindIsFirst(s, anchor, 0, k);
    p := Find(s, "\n", k) + 1;
    NewlineAfter(s, anchor, k, p);
  }

  /** The first newline at or after an occurrence of an anchor free of
      newlines: position `p - 1`, or none when `p` is 0. */
  lemma NewlineAfter(s: string, anchor: string, k: nat, p: int)
    requires OccursAt(s, anchor, k) && '\n' !in anchor && p == Find(s, "\n", k) + 1
    ensures 0 <= p <= |s|
    ensures p == 0 <==> forall j :: k <= j < |s| ==> s[j] != '\n'
    ensures p > 0 ==> (&& k + |anchor| < p
                       && s[p - 1] == '\n'
                       && forall j :: k <= j < p - 1 ==> s[j] != '\n')
  {
    var n := p - 1;
    FindSpec(s, "\n", k);
    if n == -1 {
      forall j | k <= j < |s|
        ensures s[j] != '\n'
      {
        assert !OccursAt(s, "\n", j);
      }
    } else {
      forall j | k <= j < n
        ensures s[j] != '\n'
      {
        assert !OccursAt(s, "\n", j);
      }
      assert s[n] == '\n' by {
        OccursAtChars(s, "\n", n);
      }
      NewlinePastAnchor(s, anchor, k, n);
    }
  }

  /** The comment of step 8 lands after the line of the first `zod` import,
      or at the very start when no newline follows it; the text on both sides
      is kept, and the text grows by exactly the comment. */
  lemma CommentPlacement(s: string, k: nat) returns (p: nat)
    requires FirstFrom(s, ZodImport, 0, k)
    ensures p <= |s| && InsertEnumComment(s) == s[..p] + EnumComment + s[p..]
    ensures p == 0 <==> forall j :: k <= j < |s| ==> s[j] != '\n'
    ensures p > 0 ==> (&& k + |ZodImport| < p
                       && s[p - 1] == '\n'
                       && forall j :: k <= j < p - 1 ==> s[j] != '\n')
  {
    p := Placement(s, ZodImport, EnumComment, k);
  }

  /** Without a `zod` import the comment is not added, so a text that no rule
      touches and that has no such import is converted to itself, by the
      corrected conversion and by the one as written. */
  lemma ConvertQuietText(s: string)
    requires '(' !in s && AbsentFrom(s, PgCoreImport, 0) && AbsentFrom(s, "pgTable", 0)
    requires AbsentFrom(s, ZodImport, 0)
    ensures Convert(s) == s
    ensures WrittenConvert(s) == s
  {
    RewriteQuietText(s);
  }
}
