/**
 * The plain string operations of the .NET base library that the view compiler
 * relies on, stated over `seq<char>`: ordinal search, `StringBuilder.Replace`
 * (which replaces every non-overlapping occurrence, scanning left to right),
 * `String.Trim`, ASCII lower-casing, and the `ReplaceFirstInstance` extension
 * method of the repository.
 */
module Text {

  /** `\s` / `Char.IsWhiteSpace`, restricted to the ASCII and Latin-1 members. */
  predicate IsWhiteSpace(c: char) {
    c == ' ' || c == '\t' || c == '\n' || c == '\r' || c == '\U{000B}' || c == '\U{000C}'
    || c == '\U{0085}' || c == '\U{00A0}'
  }

  /** `\w`, restricted to ASCII letters, digits and the underscore. */
  predicate IsWordChar(c: char) {
    ('a' <= c <= 'z') || ('A' <= c <= 'Z') || ('0' <= c <= '9') || c == '_'
  }

  /** The regex class `[a-zA-Z0-9]`. */
  predicate IsAlphaNum(c: char) {
    ('a' <= c <= 'z') || ('A' <= c <= 'Z') || ('0' <= c <= '9')
  }

  /** `p` occurs in `s` starting at index `i`. */
  predicate OccursAt(s: string, p: string, i: int) {
    0 <= i && i + |p| <= |s| && s[i..i + |p|] == p
  }

  /** A slice of a slice is a slice of the whole. */
  lemma SubSlice(s: string, a: nat, b: nat, j: nat, k: nat)
    requires a <= b <= |s| && j <= k <= b - a
    ensures s[a..b][j..k] == s[a + j..a + k]
  {
    forall m | 0 <= m < k - j
      ensures s[a..b][j..k][m] == s[a + j..a + k][m]
    {
    }
  }

  /** An occurrence in a suffix is an occurrence in the whole text, shifted. */
  lemma OccursInSuffix(s: string, d: nat, p: string, i: nat)
    requires d <= |s|
    ensures OccursAt(s[d..], p, i) <==> OccursAt(s, p, d + i)
  {
    if d + i + |p| <= |s| {
      SubSlice(s, d, |s|, i, i + |p|);
    }
  }

  predicate StartsWith(s: string, p: string) {
    OccursAt(s, p, 0)
  }

  /** Ordinal `String.IndexOf(p, i)`: the first occurrence of `p` at or after `i`, or -1. */
  function IndexOfFrom(s: string, p: string, i: nat): (r: int)
    requires i <= |s|
    ensures r == -1 || (i <= r && OccursAt(s, p, r))
    ensures forall j :: i <= j && (r == -1 || j < r) ==> !OccursAt(s, p, j)
    decreases |s| - i
  {
    if OccursAt(s, p, i) then i
    else if i == |s| then -1
    else IndexOfFrom(s, p, i + 1)
  }

  function IndexOf(s: string, p: string): (r: int)
    ensures r == -1 <==> forall j :: !OccursAt(s, p, j)
    ensures r >= 0 ==> OccursAt(s, p, r) && forall j :: 0 <= j < r ==> !OccursAt(s, p, j)
  {
    IndexOfFrom(s, p, 0)
  }

  /** Ordinal `String.Contains`. */
  predicate Contains(s: string, p: string)
    ensures Contains(s, p) <==> exists j :: OccursAt(s, p, j)
  {
    IndexOf(s, p) >= 0
  }

  // ---------------------------------------------------------------------------
  // StringBuilder.Replace(a, b): every non-overlapping occurrence, left to right.
  // .NET throws ArgumentException when `a` is empty; callers model that case.
  // ---------------------------------------------------------------------------

  function ReplaceFrom(s: string, a: string, b: string, i: nat): string
    requires |a| > 0 && i <= |s|
    decreases |s| - i
  {
    if i == |s| then []
    else if OccursAt(s, a, i) then b + ReplaceFrom(s, a, b, i + |a|)
    else [s[i]] + ReplaceFrom(s, a, b, i + 1)
  }

  function ReplaceAll(s: string, a: string, b: string): string
    requires |a| > 0
  {
    ReplaceFrom(s, a, b, 0)
  }

  /** `ps` are positions, each at least `from`, of pieces of length `L` that do not overlap and end by `n`. */
  predicate Spaced(ps: seq<nat>, L: nat, from: nat, n: nat)
    ensures Spaced(ps, L, from, n) ==> from <= n && (ps != [] ==> from <= ps[0] && ps[0] + L <= n)
    decreases |ps|
  {
    if ps == [] then from <= n
    else from <= ps[0] && Spaced(ps[1..], L, ps[0] + L, n)
  }

  /** The positions at which `ReplaceFrom` finds `a`, scanning from `i`. */
  function OccurrencesFrom(s: string, a: string, i: nat): (ps: seq<nat>)
    requires |a| > 0 && i <= |s|
    ensures Spaced(ps, |a|, i, |s|)
    ensures forall k :: 0 <= k < |ps| ==> i <= ps[k] && OccursAt(s, a, ps[k])
    decreases |s| - i
  {
    if i == |s| then []
    else if OccursAt(s, a, i) then [i] + OccurrencesFrom(s, a, i + |a|)
    else OccurrencesFrom(s, a, i + 1)
  }

  function Occurrences(s: string, a: string): seq<nat>
    requires |a| > 0
  {
    OccurrencesFrom(s, a, 0)
  }

  /** `s` from `from` on, with the piece of length `L` at each position `ps[k]` replaced by `rs[k]`. */
  function SpliceFrom(s: string, L: nat, ps: seq<nat>, rs: seq<string>, from: nat): string
    requires |ps| == |rs| && Spaced(ps, L, from, |s|)
    decreases |ps|
  {
    if ps == [] then s[from..]
    else s[from..ps[0]] + rs[0] + SpliceFrom(s, L, ps[1..], rs[1..], ps[0] + L)
  }

  function Repeat(b: string, n: nat): (r: seq<string>)
    ensures |r| == n && forall k :: 0 <= k < n ==> r[k] == b
  {
    seq(n, _ => b)
  }

  lemma SpacedWeaken(ps: seq<nat>, L: nat, f: nat, g: nat, n: nat)
    requires f <= g && Spaced(ps, L, g, n)
    ensures Spaced(ps, L, f, n)
  {
  }

  lemma SpliceSkip(s: string, L: nat, ps: seq<nat>, rs: seq<string>, f: nat)
    requires f < |s| && |ps| == |rs| && Spaced(ps, L, f + 1, |s|)
    ensures Spaced(ps, L, f, |s|)
    ensures SpliceFrom(s, L, ps, rs, f) == [s[f]] + SpliceFrom(s, L, ps, rs, f + 1)
  {
    SpacedWeaken(ps, L, f, f + 1, |s|);
    if ps == [] {
      assert s[f..] == [s[f]] + s[f + 1..];
    } else {
      var rest := SpliceFrom(s, L, ps[1..], rs[1..], ps[0] + L);
      assert s[f..ps[0]] == [s[f]] + s[f + 1..ps[0]];
      assert SpliceFrom(s, L, ps, rs, f) == s[f..ps[0]] + rs[0] + rest;
      assert SpliceFrom(s, L, ps, rs, f + 1) == s[f + 1..ps[0]] + rs[0] + rest;
    }
  }

  /** Replacing every occurrence is splicing `b` in at every scanned position. */
  lemma {:induction false} ReplaceIsSplice(s: string, a: string, b: string, i: nat)
    requires |a| > 0 && i <= |s|
    ensures ReplaceFrom(s, a, b, i) == SpliceRepeat(s, a, b, i)
    decreases |s| - i
  {
    if i == |s| {
    } else if OccursAt(s, a, i) {
      ReplaceIsSplice(s, a, b, i + |a|);
      SpliceHit(s, a, b, i);
    } else {
      ReplaceIsSplice(s, a, b, i + 1);
      SpliceMiss(s, a, b, i);
    }
  }

  /** `SpliceFrom` with `b` at every scanned occurrence of `a`. */
  function SpliceRepeat(s: string, a: string, b: string, i: nat): string
    requires |a| > 0 && i <= |s|
  {
    var ps := OccurrencesFrom(s, a, i);
    SpliceFrom(s, |a|, ps, Repeat(b, |ps|), i)
  }

  lemma SpliceHit(s: string, a: string, b: string, i: nat)
    requires |a| > 0 && i < |s| && OccursAt(s, a, i)
    requires ReplaceFrom(s, a, b, i + |a|) == SpliceRepeat(s, a, b, i + |a|)
    ensures ReplaceFrom(s, a, b, i) == SpliceRepeat(s, a, b, i)
  {
    var ps := OccurrencesFrom(s, a, i);
    var tail := OccurrencesFrom(s, a, i + |a|);
    var rs := Repeat(b, |ps|);
    assert ps == [i] + tail;
    assert ps[1..] == tail;
    assert rs[1..] == Repeat(b, |tail|);
    assert s[i..i] + b == b;
  }

  lemma SpliceMiss(s: string, a: string, b: string, i: nat)
    requires |a| > 0 && i < |s| && !OccursAt(s, a, i)
    requires ReplaceFrom(s, a, b, i + 1) == SpliceRepeat(s, a, b, i + 1)
    ensures ReplaceFrom(s, a, b, i) == SpliceRepeat(s, a, b, i)
  {
    var ps := OccurrencesFrom(s, a, i + 1);
    assert ps == OccurrencesFrom(s, a, i);
    SpliceSkip(s, |a|, ps, Repeat(b, |ps|), i);
  }

  /** With no occurrence of `a`, replacing it changes nothing. */
  lemma {:induction false} ReplaceAbsent(s: string, a: string, b: string, i: nat)
    requires |a| > 0 && i <= |s|
    requires forall j :: i <= j ==> !OccursAt(s, a, j)
    ensures ReplaceFrom(s, a, b, i) == s[i..]
    decreases |s| - i
  {
    if i < |s| {
      ReplaceAbsent(s, a, b, i + 1);
      assert s[i..] == [s[i]] + s[i + 1..];
    }
  }

  /** Replacing `a` by itself changes nothing. */
  lemma {:induction false} ReplaceSelf(s: string, a: string, i: nat)
    requires |a| > 0 && i <= |s|
    ensures ReplaceFrom(s, a, a, i) == s[i..]
    decreases |s| - i
  {
    if i < |s| {
      if OccursAt(s, a, i) {
        ReplaceSelf(s, a, i + |a|);
        assert s[i..] == s[i..i + |a|] + s[i + |a|..];
      } else {
        ReplaceSelf(s, a, i + 1);
        assert s[i..] == [s[i]] + s[i + 1..];
      }
    }
  }

  /** `sb.Replace(sb.ToString(), t)` on a non-empty buffer makes the buffer `t`. */
  lemma ReplaceWhole(s: string, t: string)
    requires |s| > 0
    ensures ReplaceAll(s, s, t) == t
  {
    assert s[0..|s|] == s;
    assert OccursAt(s, s, 0);
    assert ReplaceFrom(s, s, t, |s|) == [];
  }

  /** Text before the scan position that holds no first character of `a` is copied through. */
  lemma {:induction false} ReplacePrefixSkip(p: string, t: string, a: string, b: string, i: nat)
    requires |a| > 0 && i <= |p| && a[0] !in p
    ensures ReplaceFrom(p + t, a, b, i) == p[i..] + ReplaceFrom(p + t, a, b, |p|)
    decreases |p| - i
  {
    if i < |p| {
      assert (p + t)[i] == p[i];
      if OccursAt(p + t, a, i) { OccursEnds(p + t, a, i); }
      ReplacePrefixSkip(p, t, a, b, i + 1);
      assert p[i..] == [p[i]] + p[i + 1..];
    }
  }

  /** An occurrence starts with the first character of the pattern and ends with its last. */
  lemma OccursEnds(s: string, a: string, i: int)
    requires |a| > 0 && OccursAt(s, a, i)
    ensures s[i] == a[0] && s[i + |a| - 1] == a[|a| - 1]
  {
    assert s[i..i + |a|][0] == s[i];
    assert s[i..i + |a|][|a| - 1] == s[i + |a| - 1];
  }

  lemma OccursShift(p: string, t: string, a: string, i: nat)
    requires i <= |t|
    ensures OccursAt(p + t, a, |p| + i) <==> OccursAt(t, a, i)
  {
    if |p| + i + |a| <= |p + t| {
      assert (p + t)[|p| + i..|p| + i + |a|] == t[i..i + |a|];
    }
  }

  /** A stretch without an occurrence is copied through. */
  lemma {:induction false} ReplaceCopy(s: string, a: string, b: string, i: nat, e: nat)
    requires |a| > 0 && i <= e <= |s| && forall j :: i <= j < e ==> !OccursAt(s, a, j)
    ensures ReplaceFrom(s, a, b, i) == s[i..e] + ReplaceFrom(s, a, b, e)
    decreases e - i
  {
    if i < e {
      assert !OccursAt(s, a, i);
      assert ReplaceFrom(s, a, b, i) == [s[i]] + ReplaceFrom(s, a, b, i + 1);
      ReplaceCopy(s, a, b, i + 1, e);
      assert s[i..e] == [s[i]] + s[i + 1..e];
    }
  }

  /** Scanning a text from `d + i` is scanning its suffix from `d` at `i`. */
  lemma {:induction false} ReplaceOffset(s: string, d: nat, a: string, b: string, i: nat)
    requires |a| > 0 && d + i <= |s|
    ensures ReplaceFrom(s, a, b, d + i) == ReplaceFrom(s[d..], a, b, i)
    decreases |s| - d - i
  {
    if d + i < |s| {
      OccursInSuffix(s, d, a, i);
      if OccursAt(s, a, d + i) {
        ReplaceOffset(s, d, a, b, i + |a|);
      } else {
        assert s[d..][i] == s[d + i];
        ReplaceOffset(s, d, a, b, i + 1);
      }
    }
  }

  /** Scanning `p + t` past `p` is scanning `t`. */
  lemma ReplaceShift(p: string, t: string, a: string, b: string, i: nat)
    requires |a| > 0 && i <= |t|
    ensures ReplaceFrom(p + t, a, b, |p| + i) == ReplaceFrom(t, a, b, i)
  {
    ReplaceOffset(p + t, |p|, a, b, i);
    assert (p + t)[|p|..] == t;
  }

  /** Deleting a prefix whose first character does not recur after it leaves the rest. */
  lemma ReplaceLeading(x: string, t: string)
    requires |x| > 0 && x[0] !in t
    ensures ReplaceAll(x + t, x, []) == t
  {
    assert (x + t)[0..|x|] == x;
    assert ReplaceFrom(x + t, x, [], 0) == [] + ReplaceFrom(x + t, x, [], |x|);
    ReplaceShift(x, t, x, [], 0);
    forall j | 0 <= j
      ensures !OccursAt(t, x, j)
    {
      if OccursAt(t, x, j) {
        OccursEnds(t, x, j);
      }
    }
    ReplaceAbsent(t, x, [], 0);
    assert t[0..] == t;
  }

  /** Text after `x` that holds no last character of `a` is copied through. */
  lemma {:induction false} ReplaceSuffix(x: string, q: string, a: string, b: string, i: nat)
    requires |a| > 0 && i <= |x| && a[|a| - 1] !in q
    ensures ReplaceFrom(x + q, a, b, i) == ReplaceFrom(x, a, b, i) + q
    decreases |x| - i
  {
    if i == |x| {
      ReplaceSuffixEnd(x, q, a, b);
    } else if OccursAt(x + q, a, i) {
      SuffixHit(x, q, a, i);
      ReplaceSuffix(x, q, a, b, i + |a|);
      AppendAssoc(b, ReplaceFrom(x, a, b, i + |a|), q);
    } else {
      SuffixMiss(x, q, a, i);
      ReplaceSuffix(x, q, a, b, i + 1);
      AppendAssoc([x[i]], ReplaceFrom(x, a, b, i + 1), q);
    }
  }

  lemma ReplaceSuffixEnd(x: string, q: string, a: string, b: string)
    requires |a| > 0 && a[|a| - 1] !in q
    ensures ReplaceFrom(x + q, a, b, |x|) == q
  {
    ReplaceShift(x, q, a, b, 0);
    forall j | OccursAt(q, a, j) ensures false {
      OccursEnds(q, a, j);
    }
    ReplaceAbsent(q, a, b, 0);
  }

  /** An occurrence before the end of `x` that `q` cannot finish lies inside `x`. */
  lemma SuffixHit(x: string, q: string, a: string, i: nat)
    requires |a| > 0 && i < |x| && a[|a| - 1] !in q && OccursAt(x + q, a, i)
    ensures OccursAt(x, a, i)
  {
    OccursEnds(x + q, a, i);
    assert (x + q)[i..i + |a|] == x[i..i + |a|];
  }

  lemma SuffixMiss(x: string, q: string, a: string, i: nat)
    requires |a| > 0 && i < |x| && !OccursAt(x + q, a, i)
    ensures !OccursAt(x, a, i) && (x + q)[i] == x[i]
  {
    if i + |a| <= |x| {
      assert (x + q)[i..i + |a|] == x[i..i + |a|];
    }
  }

  lemma AppendAssoc(u: string, v: string, w: string)
    ensures u + (v + w) == (u + v) + w
  {
  }

  /**
   * Replacing inside a frame: when the text before `x` holds no first character
   * of `a` and the text after holds no last character, only `x` is rewritten.
   */
  lemma ReplaceInFrame(p: string, x: string, q: string, a: string, b: string)
    requires |a| > 0 && a[0] !in p && a[|a| - 1] !in q
    ensures ReplaceAll(p + x + q, a, b) == p + ReplaceAll(x, a, b) + q
  {
    assert p + x + q == p + (x + q);
    ReplacePrefixSkip(p, x + q, a, b, 0);
    ReplaceShift(p, x + q, a, b, 0);
    ReplaceSuffix(x, q, a, b, 0);
  }

  /** A token delimited by '%' in a text with no other '%' is replaced exactly where it stands. */
  lemma {:induction false} TokenTakesBody(token: string, body: string, pre: string, rest: string)
    requires |token| > 0 && token[0] == '%' && token[|token| - 1] == '%'
    requires '%' !in pre && '%' !in rest
    ensures ReplaceAll(pre + token + rest, token, body) == pre + body + rest
  {
    ReplaceInFrame(pre, token, rest, token, body);
    ReplaceWhole(token, body);
  }

  /** A block delimited by '[' and ']' with no '[' before it and no ']' after it is deleted exactly where it stands. */
  lemma {:induction false} BlockVanishes(block: string, pre: string, post: string)
    requires |block| > 0 && block[0] == '[' && block[|block| - 1] == ']'
    requires '[' !in pre && ']' !in post
    ensures ReplaceAll(pre + block + post, block, []) == pre + post
  {
    ReplaceInFrame(pre, block, post, block, []);
    ReplaceWhole(block, []);
  }

  ghost predicate CoveredBy(ps: seq<nat>, L: nat, j: int) {
    exists k :: 0 <= k < |ps| && ps[k] <= j < ps[k] + L
  }

  /** Every `x` in `s` from `i` on lies inside one of the pieces at `ps`. */
  ghost predicate XsCovered(s: string, x: char, ps: seq<nat>, L: nat, i: nat) {
    forall j :: i <= j < |s| && s[j] == x ==> CoveredBy(ps, L, j)
  }

  /**
   * Deleting every occurrence of `t` deletes every copy of a character `x` that
   * only ever appears inside the occurrences the scan finds.
   */
  lemma {:induction false} DeleteCoveredFrom(s: string, t: string, x: char, i: nat)
    requires |t| > 0 && i <= |s|
    requires XsCovered(s, x, OccurrencesFrom(s, t, i), |t|, i)
    ensures x !in ReplaceFrom(s, t, [], i)
    decreases |s| - i
  {
    if i < |s| {
      var next := CoveredAfter(s, t, x, i);
      DeleteCoveredFrom(s, t, x, next);
      DeleteStep(s, t, x, i);
    }
  }

  /** One step of the deletion scan: an occurrence is dropped, any other character copied. */
  lemma DeleteStep(s: string, t: string, x: char, i: nat)
    requires |t| > 0 && i < |s|
    requires OccursAt(s, t, i) ==> x !in ReplaceFrom(s, t, [], i + |t|)
    requires !OccursAt(s, t, i) ==> s[i] != x && x !in ReplaceFrom(s, t, [], i + 1)
    ensures x !in ReplaceFrom(s, t, [], i)
  {
  }

  /** Where the scan goes on from `i`, the rest of it still covers every `x`. */
  lemma CoveredAfter(s: string, t: string, x: char, i: nat) returns (next: nat)
    requires |t| > 0 && i < |s|
    requires XsCovered(s, x, OccurrencesFrom(s, t, i), |t|, i)
    ensures next == (if OccursAt(s, t, i) then i + |t| else i + 1)
    ensures next <= |s| && XsCovered(s, x, OccurrencesFrom(s, t, next), |t|, next)
    ensures !OccursAt(s, t, i) ==> s[i] != x
  {
    if OccursAt(s, t, i) {
      CoveredAfterHit(s, t, x, i);
      next := i + |t|;
    } else {
      CoveredAfterMiss(s, t, x, i);
      next := i + 1;
    }
  }

  /** Past an occurrence found at `i`, the rest of the scan still covers every `x`. */
  lemma CoveredAfterHit(s: string, t: string, x: char, i: nat)
    requires |t| > 0 && i < |s| && OccursAt(s, t, i)
    requires XsCovered(s, x, OccurrencesFrom(s, t, i), |t|, i)
    ensures i + |t| <= |s| && XsCovered(s, x, OccurrencesFrom(s, t, i + |t|), |t|, i + |t|)
  {
    var ps := OccurrencesFrom(s, t, i);
    var tail := OccurrencesFrom(s, t, i + |t|);
    assert ps == [i] + tail;
    forall j | i + |t| <= j < |s| && s[j] == x
      ensures CoveredBy(tail, |t|, j)
    {
      var k :| 0 <= k < |ps| && ps[k] <= j < ps[k] + |t|;
      assert k != 0;
      assert tail[k - 1] == ps[k];
    }
  }

  /** Where nothing is found at `i`, the character there is not `x`, and the rest of the scan covers every `x`. */
  lemma CoveredAfterMiss(s: string, t: string, x: char, i: nat)
    requires |t| > 0 && i < |s| && !OccursAt(s, t, i)
    requires XsCovered(s, x, OccurrencesFrom(s, t, i), |t|, i)
    ensures s[i] != x
    ensures XsCovered(s, x, OccurrencesFrom(s, t, i + 1), |t|, i + 1)
  {
    var ps := OccurrencesFrom(s, t, i + 1);
    assert ps == OccurrencesFrom(s, t, i);
    forall k | 0 <= k < |ps|
      ensures i < ps[k]
    {
    }
    assert !CoveredBy(ps, |t|, i);
  }

  /**
   * No-nesting form of "every occurrence is deleted": when some character of `t`
   * appears in `s` only inside the occurrences of `t` that the scan finds, the
   * result of deleting them contains no occurrence of `t` at all.
   */
  lemma DeleteAllLeavesNone(s: string, t: string, x: char)
    requires |t| > 0 && x in t
    requires forall j :: 0 <= j < |s| && s[j] == x ==> CoveredBy(Occurrences(s, t), |t|, j)
    ensures x !in ReplaceAll(s, t, [])
    ensures !Contains(ReplaceAll(s, t, []), t)
  {
    DeleteCoveredFrom(s, t, x, 0);
  }

  /** `IndexOf` finds exactly the first position the replacement scan finds. */
  lemma {:induction false} IndexOfIsFirstOccurrence(s: string, a: string, i: nat)
    requires |a| > 0 && i <= |s|
    ensures var ps := OccurrencesFrom(s, a, i);
      IndexOfFrom(s, a, i) == if ps == [] then -1 else ps[0]
    decreases |s| - i
  {
    if i < |s| && !OccursAt(s, a, i) {
      IndexOfIsFirstOccurrence(s, a, i + 1);
    }
  }

  /** `Extensions.ReplaceFirstInstance`: replace the first occurrence of `find`, if any. */
  function ReplaceFirstInstance(source: string, find: string, replace: string): (r: string)
    ensures (forall j :: !OccursAt(source, find, j)) ==> r == source
    ensures forall i :: OccursAt(source, find, i) && (forall j :: 0 <= j < i ==> !OccursAt(source, find, j)) ==>
      r == source[..i] + replace + source[i + |find|..]
  {
    var index := IndexOf(source, find);
    if index < 0 then source else source[..index] + replace + source[index + |find|..]
  }

  /** Where `find` occurs at most once, replacing its first instance is replacing all of them. */
  lemma ReplaceFirstIsReplaceAllWhenUnique(source: string, find: string, replace: string)
    requires |find| > 0 && |Occurrences(source, find)| <= 1
    ensures ReplaceFirstInstance(source, find, replace) == ReplaceAll(source, find, replace)
  {
    var ps := Occurrences(source, find);
    ReplaceIsSplice(source, find, replace, 0);
    IndexOfIsFirstOccurrence(source, find, 0);
    if ps != [] {
      var rs := Repeat(replace, |ps|);
      assert ps[1..] == [] && rs[1..] == [] && rs[0] == replace;
      assert SpliceFrom(source, |find|, ps, rs, 0)
        == source[0..ps[0]] + replace + SpliceFrom(source, |find|, [], [], ps[0] + |find|);
      assert SpliceRepeat(source, find, replace, 0)
        == source[..ps[0]] + replace + source[ps[0] + |find|..];
    } else {
      assert SpliceRepeat(source, find, replace, 0) == source;
    }
  }

  // ---------------------------------------------------------------------------
  // Trim and lower-casing
  // ---------------------------------------------------------------------------

  function TrimStart(s: string): (r: string)
    ensures |r| <= |s| && r == s[|s| - |r|..]
    ensures forall j :: 0 <= j < |s| - |r| ==> IsWhiteSpace(s[j])
    ensures |r| > 0 ==> !IsWhiteSpace(r[0])
  {
    if |s| > 0 && IsWhiteSpace(s[0]) then TrimStart(s[1..]) else s
  }

  function TrimEnd(s: string): (r: string)
    ensures |r| <= |s| && r == s[..|r|]
    ensures forall j :: |r| <= j < |s| ==> IsWhiteSpace(s[j])
    ensures |r| > 0 ==> !IsWhiteSpace(r[|r| - 1])
  {
    if |s| > 0 && IsWhiteSpace(s[|s| - 1]) then TrimEnd(s[..|s| - 1]) else s
  }

  /** `String.Trim()`: the longest infix that neither starts nor ends with white space. */
  function Trim(s: string): (r: string)
    ensures |r| > 0 ==> !IsWhiteSpace(r[0]) && !IsWhiteSpace(r[|r| - 1])
    ensures var k := |s| - |TrimStart(s)|;
      && k + |r| <= |s| && r == s[k..k + |r|]
      && (forall j :: 0 <= j < k ==> IsWhiteSpace(s[j]))
      && (forall j :: k + |r| <= j < |s| ==> IsWhiteSpace(s[j]))
  {
    var t := TrimStart(s);
    var r := TrimEnd(t);
    TrimCut(s, t, r);
    r
  }

  /** Cutting a white tail off a suffix of `s` leaves an infix of `s` followed by white space only. */
  lemma TrimCut(s: string, t: string, r: string)
    requires |t| <= |s| && t == s[|s| - |t|..]
    requires |r| <= |t| && r == t[..|r|] && forall j :: |r| <= j < |t| ==> IsWhiteSpace(t[j])
    ensures var k := |s| - |t|;
      && k + |r| <= |s| && r == s[k..k + |r|]
      && (forall j :: k + |r| <= j < |s| ==> IsWhiteSpace(s[j]))
  {
    var k := |s| - |t|;
    forall j | k + |r| <= j < |s|
      ensures IsWhiteSpace(s[j])
    {
      assert s[j] == t[j - k];
    }
    assert r == s[k..k + |r|];
  }

  function LowerChar(c: char): char {
    if 'A' <= c <= 'Z' then (c as int + 32) as char else c
  }

  const UpperLetters: string := "ABCDEFGHIJKLMNOPQRSTUVWXYZ"
  const LowerLetters: string := "abcdefghijklmnopqrstuvwxyz"

  /** `String.ToLower()` on ASCII letters; other characters are left as they are. */
  function ToLower(s: string): (r: string)
    ensures |r| == |s|
    ensures forall i :: 0 <= i < |r| ==> r[i] !in UpperLetters
    ensures forall i, k :: 0 <= i < |s| && 0 <= k < 26 && s[i] == UpperLetters[k] ==> r[i] == LowerLetters[k]
    ensures forall i :: 0 <= i < |s| && s[i] !in UpperLetters ==> r[i] == s[i]
  {
    var r := seq(|s|, i requires 0 <= i < |s| => LowerChar(s[i]));
    forall i | 0 <= i < |s|
      ensures r[i] !in UpperLetters
      ensures s[i] in UpperLetters <==> 'A' <= s[i] <= 'Z'
    {
      LetterTables(s[i]);
    }
    forall i, k | 0 <= i < |s| && 0 <= k < 26 && s[i] == UpperLetters[k]
      ensures r[i] == LowerLetters[k]
    {
      LetterTables(s[i]);
    }
    r
  }

  /** The letter tables are the code points 'A'..'Z' and 'a'..'z', 32 apart. */
  lemma LetterTables(c: char)
    ensures c in UpperLetters <==> 'A' <= c <= 'Z'
    ensures LowerChar(c) !in UpperLetters
    ensures forall k :: 0 <= k < 26 && c == UpperLetters[k] ==> LowerChar(c) == LowerLetters[k]
  {
    assert |UpperLetters| == 26 && |LowerLetters| == 26;
    assert forall k :: 0 <= k < 26 ==> UpperLetters[k] as int == 'A' as int + k && LowerLetters[k] as int == 'a' as int + k;
  }

  /** Lower-casing twice is lower-casing once. */
  lemma ToLowerIdempotent(s: string)
    ensures ToLower(ToLower(s)) == ToLower(s)
  {
    var r := ToLower(s);
    forall i | 0 <= i < |r|
      ensures ToLower(r)[i] == r[i]
    {
    }
  }
}
