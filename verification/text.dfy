/**
 Character classes and substring search over strings, with the meaning that
 Python's `re` word classes and `str.find` / `str.replace` give them.
 */
module Text {

  datatype Option<+T> = None | Some(value: T)

  /** The word characters of a regular expression (`\w`), restricted to ASCII. */
  predicate IsWordChar(c: char) {
    ('a' <= c <= 'z') || ('A' <= c <= 'Z') || ('0' <= c <= '9') || c == '_'
  }

  predicate AllWordChars(s: string) {
    forall k :: 0 <= k < |s| ==> IsWordChar(s[k])
  }

  /** Whether the character just before position `k` is a word character;
      the start of the string counts as a non-word position. */
  predicate WordBefore(s: string, k: nat)
    requires k <= |s|
  {
    k > 0 && IsWordChar(s[k - 1])
  }

  /** Whether the character at position `k` is a word character;
      the end of the string counts as a non-word position. */
  predicate WordAt(s: string, k: nat)
    requires k <= |s|
  {
    k < |s| && IsWordChar(s[k])
  }

  /** A word boundary (`\b`) sits at `k` when exactly one of its two sides is a word character. */
  predicate IsWordBoundary(s: string, k: nat)
    requires k <= |s|
  {
    WordBefore(s, k) != WordAt(s, k)
  }

  /** `t` occurs in `s` starting at index `k`. */
  predicate OccursAt(s: string, t: string, k: int) {
    0 <= k && k + |t| <= |s| && s[k..k + |t|] == t
  }

  /** No occurrence of `t` starts at or after `from`. */
  predicate AbsentFrom(s: string, t: string, from: int) {
    forall j :: from <= j <= |s| ==> !OccursAt(s, t, j)
  }

  /** `k` is the first index at or after `from` where `t` occurs. */
  predicate FirstFrom(s: string, t: string, from: int, k: int) {
    from <= k && OccursAt(s, t, k) && forall j :: from <= j < k ==> !OccursAt(s, t, j)
  }

  /** `str.find(t, start)`: the first index at or after `start` where `t`
      occurs, or -1 when there is none (`FindSpec` states it). */
  function Find(s: string, t: string, start: nat): (r: int)
    requires start <= |s|
    ensures r == -1 || (start <= r && r + |t| <= |s|)
    decreases |s| - start
  {
    if OccursAt(s, t, start) then start
    else if start == |s| then -1
    else Find(s, t, start + 1)
  }

  /** `Find` reports the first occurrence at or after `start`, and -1
      exactly when there is none. */
  lemma {:induction false} FindSpec(s: string, t: string, start: nat)
    requires start <= |s|
    ensures Find(s, t, start) == -1 || FirstFrom(s, t, start, Find(s, t, start))
    ensures Find(s, t, start) == -1 <==> AbsentFrom(s, t, start)
    decreases |s| - start
  {
    if !OccursAt(s, t, start) && start < |s| {
      FindSpec(s, t, start + 1);
    }
  }

  /** The first occurrence is the one `str.find` reports. */
  lemma FindIsFirst(s: string, t: string, start: nat, k: int)
    requires start <= |s| && FirstFrom(s, t, start, k)
    ensures Find(s, t, start) == k
  {
    FindSpec(s, t, start);
    var r := Find(s, t, start);
    assert r != -1 by {
      assert OccursAt(s, t, k);
    }
  }

  /** The end of the maximal run of word characters that starts at `i`. */
  function WordRunEnd(s: string, i: nat): (e: nat)
    requires i <= |s|
    ensures i <= e <= |s|
    ensures forall k :: i <= k < e ==> IsWordChar(s[k])
    ensures !WordAt(s, e)
    decreases |s| - i
  {
    if i < |s| && IsWordChar(s[i]) then WordRunEnd(s, i + 1) else i
  }

  /** The first index at or after `i` that holds `c`, or `|s|` when there is none:
      the end of a greedy run of characters other than `c`. */
  function SpanUntil(s: string, c: char, i: nat): (e: nat)
    requires i <= |s|
    ensures i <= e <= |s|
    ensures forall k :: i <= k < e ==> s[k] != c
    ensures e == |s| || s[e] == c
    decreases |s| - i
  {
    if i < |s| && s[i] != c then SpanUntil(s, c, i + 1) else i
  }

  /** An occurrence of `a + b` is an occurrence of `a` followed by one of `b`. */
  lemma OccursAtConcat(s: string, a: string, b: string, i: int)
    ensures OccursAt(s, a + b, i) <==> OccursAt(s, a, i) && OccursAt(s, b, i + |a|)
  {
    if OccursAt(s, a, i) && OccursAt(s, b, i + |a|) {
      assert s[i..i + |a + b|] == s[i..i + |a|] + s[i + |a|..i + |a| + |b|];
    }
    if OccursAt(s, a + b, i) {
      assert s[i..i + |a|] == (a + b)[..|a|];
      assert s[i + |a|..i + |a| + |b|] == (a + b)[|a|..];
    }
  }

  /** An occurrence fixes each character it covers. */
  lemma OccursAtChars(s: string, t: string, i: int)
    requires OccursAt(s, t, i)
    ensures forall k :: 0 <= k < |t| ==> s[i + k] == t[k]
  {
    forall k | 0 <= k < |t|
      ensures s[i + k] == t[k]
    {
      assert s[i..i + |t|][k] == t[k];
    }
  }

  /** Every character of an occurrence is a character of the text. */
  lemma OccursAtContains(s: string, t: string, i: int, j: nat)
    requires OccursAt(s, t, i) && j < |t|
    ensures t[j] in s
  {
    OccursAtChars(s, t, i);
    assert s[i + j] == t[j];
  }

  /** The run of word characters from `i` is the maximal one. */
  lemma WordRunEndIs(s: string, i: nat, e: nat)
    requires i <= e <= |s|
    requires forall k :: i <= k < e ==> IsWordChar(s[k])
    requires !WordAt(s, e)
    ensures WordRunEnd(s, i) == e
  {
  }

  /** The greedy run of characters other than `c` from `i` stops at the first `c`. */
  lemma SpanUntilIs(s: string, c: char, i: nat, e: nat)
    requires i <= e <= |s|
    requires forall k :: i <= k < e ==> s[k] != c
    requires e == |s| || s[e] == c
    ensures SpanUntil(s, c, i) == e
  {
  }

  /** `str.replace(t, r)`: every occurrence of `t`, taken leftmost first and
      without overlap, replaced by `r`; the inserted text is not searched again. */
  function ReplaceAll(s: string, t: string, r: string): (out: string)
    requires |t| > 0
    decreases |s|
  {
    var k := Find(s, t, 0);
    if k == -1 then s else s[..k] + r + ReplaceAll(s[k + |t|..], t, r)
  }

  lemma ReplaceAllStep(s: string, t: string, r: string, k: int, head: string, rest: string)
    requires |t| > 0 && k == Find(s, t, 0) && k != -1
    requires head == s[..k] && rest == s[k + |t|..]
    ensures ReplaceAll(s, t, r) == head + r + ReplaceAll(rest, t, r)
  {
    assert ReplaceAll(s, t, r) == s[..k] + r + ReplaceAll(s[k + |t|..], t, r);
  }

  /** `str.count(t)`: the number of non-overlapping occurrences of `t`, counted from the left. */
  function CountAll(s: string, t: string): nat
    requires |t| > 0
    decreases |s|
  {
    var k := Find(s, t, 0);
    if k == -1 then 0 else 1 + CountAll(s[k + |t|..], t)
  }

  lemma CountAllStep(s: string, t: string, k: int, rest: string)
    requires |t| > 0 && k == Find(s, t, 0) && k != -1 && rest == s[k + |t|..]
    ensures CountAll(s, t) == 1 + CountAll(rest, t)
  {
  }

  /** Each non-overlapping occurrence trades `|t|` characters for `|r|`. */
  lemma {:induction false} ReplaceAllLength(s: string, t: string, r: string)
    requires |t| > 0
    ensures |ReplaceAll(s, t, r)| == |s| + CountAll(s, t) * (|r| - |t|)
    decreases |s|
  {
    var k := Find(s, t, 0);
    if k != -1 {
      var rest := s[k + |t|..];
      ReplaceAllLength(rest, t, r);
      ReplaceAllStep(s, t, r, k, s[..k], rest);
      CountAllStep(s, t, k, rest);
      var n, d := CountAll(rest, t), |r| - |t|;
      assert |ReplaceAll(s, t, r)| == k + |r| + |rest| + n * d;
      assert |s| == k + |t| + |rest|;
      Distribute(n, d);
    }
  }

  /** Proof step of `ReplaceAllLength`: one more occurrence adds one more difference. */
  lemma Distribute(n: int, d: int)
    ensures (1 + n) * d == d + n * d
  {
  }

  /** When `t` is already gone from `s`, replacing it is the identity, and nothing is counted. */
  lemma ReplaceAllAbsent(s: string, t: string, r: string)
    requires |t| > 0 && AbsentFrom(s, t, 0)
    ensures ReplaceAll(s, t, r) == s && CountAll(s, t) == 0
  {
    FindSpec(s, t, 0);
  }

  /** The smaller of two integers. */
  function Min(a: int, b: int): int {
    if a <= b then a else b
  }

  /** Replacing `t` by `r` can never spell a new `t`: the first character of
      `r` appears nowhere else in `t` or in `r`, and `r` disagrees with `t`
      within their common length. */
  predicate Unspellable(t: string, r: string) {
    && |t| > 0 && |r| > 0
    && (forall d :: 0 < d < |t| ==> t[d] != r[0])
    && (forall d :: 0 < d < |r| ==> r[d] != t[0])
    && r[..Min(|r|, |t|)] != t[..Min(|r|, |t|)]
  }

  /** Gluing `r` between two texts free of `t` spells no `t`, at any one position `j`. */
  lemma SpliceAt(x: string, t: string, r: string, y: string, j: int)
    requires Unspellable(t, r) && AbsentFrom(x, t, 0) && AbsentFrom(y, t, 0)
    ensures !OccursAt(x + r + y, t, j)
  {
    var out := x + r + y;
    var k := |x|;
    if 0 <= j && j + |t| <= |out| {
      if j + |t| <= k {
        assert !OccursAt(x, t, j);
        assert out[j..j + |t|] == x[j..j + |t|];
      } else if j < k {
        assert out[k] == r[0] != t[k - j];
        assert out[j..j + |t|][k - j] != t[k - j];
      } else if j == k {
        var m := Min(|r|, |t|);
        var w := out[j..j + |t|];
        forall q | 0 <= q < m
          ensures w[q] == r[q]
        {
          assert w[q] == out[k + q];
        }
        assert w[..m] == r[..m] != t[..m];
      } else if j < k + |r| {
        assert out[j] == r[j - k] != t[0];
        assert out[j..j + |t|][0] != t[0];
      } else {
        var j' := j - k - |r|;
        assert out[k + |r|..] == y;
        assert out[j..j + |t|] == out[k + |r|..][j'..j' + |t|];
        assert !OccursAt(y, t, j');
      }
    }
  }

  /** The text before the first occurrence of `t` holds no `t`. */
  lemma BeforeFirst(s: string, t: string, k: int)
    requires |t| > 0 && FirstFrom(s, t, 0, k)
    ensures AbsentFrom(s[..k], t, 0)
  {
    forall j | 0 <= j <= k
      ensures !OccursAt(s[..k], t, j)
    {
      if j + |t| <= k {
        assert s[j..j + |t|] == s[..k][j..j + |t|];
        assert !OccursAt(s, t, j);
      }
    }
  }

  /** After a replacement that cannot spell its target, no occurrence of the target survives. */
  lemma {:induction false} ReplaceAllRemovesTarget(s: string, t: string, r: string)
    requires Unspellable(t, r)
    ensures AbsentFrom(ReplaceAll(s, t, r), t, 0)
    decreases |s|
  {
    var k := Find(s, t, 0);
    FindSpec(s, t, 0);
    if k != -1 {
      var x, rest := s[..k], s[k + |t|..];
      ReplaceAllRemovesTarget(rest, t, r);
      ReplaceAllStep(s, t, r, k, x, rest);
      BeforeFirst(s, t, k);
      var y := ReplaceAll(rest, t, r);
      forall j | 0 <= j <= |x + r + y|
        ensures !OccursAt(x + r + y, t, j)
      {
        SpliceAt(x, t, r, y, j);
      }
    }
  }
}
