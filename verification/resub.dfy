/**
 `re.sub` for one fixed pattern: a left-to-right scan that tries the pattern
 at each position of the original text, emits the replacement of a match and
 resumes just after it, and otherwise copies one character and moves on. So
 the leftmost match wins, matches never overlap, and replacement text is never
 scanned again.
 */
module ReSub {
  import opened Text
  import opened Patterns

  /** A match attempt at a position of a text. */
  type Matcher = (string, nat) -> Option<Match>

  /** Every match consumes at least one character and stays inside the text. */
  ghost predicate Advances(m: Matcher) {
    forall s: string, i: nat {:trigger m(s, i)} :: m(s, i).Some? ==> 0 < m(s, i).value.len <= |s| - i
  }

  function MatcherOf(p: Pattern): (m: Matcher)
    requires Valid(p)
    ensures Advances(m)
  {
    (s: string, i: nat) => if i <= |s| then MatchAt(p, s, i) else None
  }

  /** The result of the substitution over `s[i..]`; the match attempts still
      see the whole of `s`, so a word boundary at `i` looks at `s[i - 1]`. */
  function SubFrom(m: Matcher, s: string, i: nat): string
    requires Advances(m) && i <= |s|
    decreases |s| - i
  {
    if i == |s| then []
    else if m(s, i).Some? then m(s, i).value.replacement + SubFrom(m, s, i + m(s, i).value.len)
    else [s[i]] + SubFrom(m, s, i + 1)
  }

  /** `re.sub(p, replacement, s)`. */
  function Sub(p: Pattern, s: string): string
    requires Valid(p)
  {
    SubFrom(MatcherOf(p), s, 0)
  }

  /** Positions where no match starts are copied verbatim. */
  lemma {:induction false} CopyUntil(m: Matcher, s: string, i: nat, j: nat)
    requires Advances(m) && i <= j <= |s|
    requires forall k :: i <= k < j ==> m(s, k).None?
    ensures SubFrom(m, s, i) == s[i..j] + SubFrom(m, s, j)
    decreases j - i
  {
    if i < j {
      assert SubFrom(m, s, i) == [s[i]] + SubFrom(m, s, i + 1);
      CopyUntil(m, s, i + 1, j);
      assert s[i..j] == [s[i]] + s[i + 1..j];
    }
  }

  /** The leftmost match wins: the text before it is copied, the match is
      replaced, and scanning resumes right after the matched text. */
  lemma FirstMatch(m: Matcher, s: string, i: nat, k: nat)
    requires Advances(m) && i <= k < |s|
    requires forall j :: i <= j < k ==> m(s, j).None?
    requires m(s, k).Some?
    ensures SubFrom(m, s, i)
         == s[i..k] + m(s, k).value.replacement + SubFrom(m, s, k + m(s, k).value.len)
  {
    CopyUntil(m, s, i, k);
  }

  /** `FirstMatch` for a match known in advance. */
  lemma FirstMatchIs(m: Matcher, s: string, i: nat, k: nat, found: Match)
    requires Advances(m) && i <= k < |s|
    requires forall j :: i <= j < k ==> m(s, j).None?
    requires m(s, k) == Some(found)
    ensures k + found.len <= |s|
    ensures SubFrom(m, s, i) == s[i..k] + found.replacement + SubFrom(m, s, k + found.len)
  {
    FirstMatch(m, s, i, k);
  }

  /** A text in which the pattern matches nowhere is returned unchanged. */
  lemma NoMatchUnchanged(m: Matcher, s: string)
    requires Advances(m)
    requires forall k :: 0 <= k < |s| ==> m(s, k).None?
    ensures SubFrom(m, s, 0) == s
  {
    CopyUntil(m, s, 0, |s|);
  }

  /** A match that spans the whole text leaves only its replacement. */
  lemma SoleMatch(m: Matcher, s: string, r: string)
    requires Advances(m) && m(s, 0) == Some(Match(|s|, r))
    ensures SubFrom(m, s, 0) == r
  {
    assert SubFrom(m, s, |s|) == [];
  }

  /** One step of a scan where a match, if any, is replaced by the text it
      matched: the step emits exactly the text it moves past. */
  lemma SelfReplacingStep(m: Matcher, s: string, i: nat) returns (head: string, n: nat)
    requires Advances(m) && i < |s|
    requires m(s, i).Some? ==> m(s, i).value.replacement == s[i..i + m(s, i).value.len]
    ensures 0 < n <= |s| - i
    ensures SubFrom(m, s, i) == head + SubFrom(m, s, i + n) && s[i..] == head + s[i + n..]
  {
    var r := m(s, i);
    if r.Some? {
      n := r.value.len;
    } else {
      n := 1;
      assert s[i..i + 1] == [s[i]];
    }
    head := s[i..i + n];
    assert s[i..] == s[i..i + n] + s[i + n..];
  }

  /** A pattern whose every match is replaced by the very text it matched leaves the text unchanged. */
  lemma {:induction false} SelfReplacingUnchanged(m: Matcher, s: string, i: nat)
    requires Advances(m) && i <= |s|
    requires forall k :: i <= k < |s| && m(s, k).Some? ==>
               m(s, k).value.replacement == s[k..k + m(s, k).value.len]
    ensures SubFrom(m, s, i) == s[i..]
    decreases |s| - i
  {
    if i < |s| {
      var head, n := SelfReplacingStep(m, s, i);
      SelfReplacingUnchanged(m, s, i + n);
    }
  }

  /** When every match ends by position `n`, the text from `n` on survives as
      the tail of the result. */
  lemma {:induction false} TailKept(m: Matcher, s: string, i: nat, n: nat) returns (head: string)
    requires Advances(m) && i <= n <= |s|
    requires forall k :: i <= k < |s| && m(s, k).Some? ==> k + m(s, k).value.len <= n
    ensures SubFrom(m, s, i) == head + s[n..]
    decreases |s| - i
  {
    if i == n {
      forall k | n <= k < |s|
        ensures m(s, k).None?
      {
      }
      CopyUntil(m, s, n, |s|);
      head := [];
    } else {
      var r := m(s, i);
      if r.Some? {
        var rest := TailKept(m, s, i + r.value.len, n);
        head := r.value.replacement + rest;
      } else {
        var rest := TailKept(m, s, i + 1, n);
        head := [s[i]] + rest;
      }
    }
  }

  lemma OccursAtSuffix(s: string, t: string, i: nat, k: nat)
    requires i <= |s|
    ensures OccursAt(s, t, k + i) == OccursAt(s[i..], t, k)
  {
    if 0 <= k && k + |t| <= |s| - i {
      assert s[i..][k..k + |t|] == s[k + i..k + i + |t|];
    }
  }

  /** `m` matches exactly where `t` occurs, consuming `t` and replacing it by `r`. */
  ghost predicate FindsLiteral(m: Matcher, t: string, r: string) {
    forall s: string, j: nat {:trigger m(s, j)} ::
      m(s, j) == if OccursAt(s, t, j) then Some(Match(|t|, r)) else None
  }

  lemma LiteralMatcher(t: string, r: string)
    requires |t| > 0
    ensures FindsLiteral(MatcherOf(Literal(t, r)), t, r)
  {
  }

  /** Where `t` first occurs in `s[i..]`, a scan for `t` from `i` finds its first match. */
  lemma LiteralFirstMatch(m: Matcher, t: string, r: string, s: string, i: nat, k: int)
    requires FindsLiteral(m, t, r) && |t| > 0 && i <= |s|
    requires FirstFrom(s[i..], t, 0, k)
    ensures i + k < |s|
    ensures forall j :: i <= j < i + k ==> m(s, j).None?
    ensures m(s, i + k) == Some(Match(|t|, r))
  {
    forall j | i <= j < i + k
      ensures m(s, j).None?
    {
      OccursAtSuffix(s, t, i, j - i);
    }
    OccursAtSuffix(s, t, i, k);
  }

  /** Where `t` does not occur in `s[i..]`, a scan for `t` from `i` finds no match. */
  lemma LiteralNoMatch(m: Matcher, t: string, r: string, s: string, i: nat)
    requires FindsLiteral(m, t, r) && i <= |s|
    requires AbsentFrom(s[i..], t, 0)
    ensures forall j :: i <= j < |s| ==> m(s, j).None?
  {
    forall j | i <= j < |s|
      ensures m(s, j).None?
    {
      OccursAtSuffix(s, t, i, j - i);
    }
  }

  /** One step of the fixed-string scan: the text before the first
      occurrence of `t` is copied and the occurrence is replaced by `r`. */
  lemma LiteralScanStep(m: Matcher, t: string, r: string, s: string, i: nat, k: int)
    requires Advances(m) && FindsLiteral(m, t, r) && |t| > 0 && i <= |s|
    requires k == Find(s[i..], t, 0) && k != -1
    ensures i + k + |t| <= |s|
    ensures SubFrom(m, s, i) == s[i..i + k] + r + SubFrom(m, s, i + k + |t|)
  {
    FindSpec(s[i..], t, 0);
    LiteralFirstMatch(m, t, r, s, i, k);
    FirstMatchIs(m, s, i, i + k, Match(|t|, r));
  }

  /** One step of `str.replace` on `s[i..]`, in the positions of `s`. */
  lemma ReplaceStepIn(t: string, r: string, s: string, i: nat, k: int)
    requires |t| > 0 && i <= |s| && k == Find(s[i..], t, 0) && k != -1
    ensures i + k + |t| <= |s|
    ensures ReplaceAll(s[i..], t, r) == s[i..i + k] + r + ReplaceAll(s[i + k + |t|..], t, r)
  {
    var u := s[i..];
    assert u[k + |t|..] == s[i + k + |t|..] && u[..k] == s[i..i + k];
    ReplaceAllStep(u, t, r, k, s[i..i + k], s[i + k + |t|..]);
  }

  /** The scan and `str.replace` take the same step: both copy `head` and
      emit `r`, then go on from `j`. */
  lemma LiteralBothStep(m: Matcher, t: string, r: string, s: string, i: nat, k: int) returns (head: string, j: nat)
    requires Advances(m) && FindsLiteral(m, t, r) && |t| > 0 && i <= |s|
    requires k == Find(s[i..], t, 0) && k != -1
    ensures i < j <= |s|
    ensures SubFrom(m, s, i) == head + r + SubFrom(m, s, j)
    ensures ReplaceAll(s[i..], t, r) == head + r + ReplaceAll(s[j..], t, r)
  {
    LiteralScanStep(m, t, r, s, i, k);
    ReplaceStepIn(t, r, s, i, k);
    head, j := s[i..i + k], i + k + |t|;
  }

  /** Where `t` does not occur in `s[i..]`, both the scan and `str.replace` return `s[i..]`. */
  lemma LiteralScanAbsent(m: Matcher, t: string, r: string, s: string, i: nat)
    requires Advances(m) && FindsLiteral(m, t, r) && |t| > 0 && i <= |s|
    requires Find(s[i..], t, 0) == -1
    ensures SubFrom(m, s, i) == s[i..] == ReplaceAll(s[i..], t, r)
  {
    FindSpec(s[i..], t, 0);
    LiteralNoMatch(m, t, r, s, i);
    CopyUntil(m, s, i, |s|);
    assert SubFrom(m, s, |s|) == [];
  }

  /** A scan for a fixed string, from `i` on, is exactly `str.replace` on `s[i..]`. */
  lemma {:induction false} LiteralScanIsReplaceAll(m: Matcher, t: string, r: string, s: string, i: nat)
    requires Advances(m) && FindsLiteral(m, t, r) && |t| > 0 && i <= |s|
    ensures SubFrom(m, s, i) == ReplaceAll(s[i..], t, r)
    decreases |s| - i
  {
    var k := Find(s[i..], t, 0);
    if k == -1 {
      LiteralScanAbsent(m, t, r, s, i);
    } else {
      var head, j := LiteralBothStep(m, t, r, s, i, k);
      LiteralScanIsReplaceAll(m, t, r, s, j);
    }
  }

  /** `re.sub` with a fixed-string pattern is `str.replace`: leftmost,
      non-overlapping occurrences, none of them inside inserted text. */
  lemma LiteralIsReplaceAll(t: string, r: string, s: string)
    requires |t| > 0
    ensures Sub(Literal(t, r), s) == ReplaceAll(s, t, r)
  {
    LiteralMatcher(t, r);
    LiteralScanIsReplaceAll(MatcherOf(Literal(t, r)), t, r, s, 0);
    assert s[0..] == s;
  }
}
