/**
 * The regular expressions of the view compiler, written out as explicit scans.
 * Every scan tries start positions from left to right and resumes right after
 * a match, as `Regex.Matches` and `Regex.Replace` do; greedy and lazy
 * quantifiers are resolved by hand (the last or the first closing delimiter).
 * `^` and `$` are the multi-line anchors: after a '\n' or at the start, and
 * before a '\n' or at the end.
 */
module Scanning {
  import opened Wrappers
  import opened Text

  /** End of the maximal run of characters of a class, starting at `i`. */
  function RunEnd(s: string, i: nat, inClass: char -> bool): (e: nat)
    requires i <= |s|
    ensures i <= e <= |s|
    ensures forall j :: i <= j < e ==> inClass(s[j])
    ensures e == |s| || !inClass(s[e])
    decreases |s| - i
  {
    if i < |s| && inClass(s[i]) then RunEnd(s, i + 1, inClass) else i
  }

  /** The run ends at `e` when every character before it is in the class and the one at `e` is not. */
  lemma RunEndAt(s: string, i: nat, e: nat, f: char -> bool)
    requires i <= e <= |s| && (forall j :: i <= j < e ==> f(s[j])) && (e == |s| || !f(s[e]))
    ensures RunEnd(s, i, f) == e
  {
  }

  predicate IsNonWhiteSpace(c: char) { !IsWhiteSpace(c) }

  predicate IsLineBreak(c: char) { c == '\r' || c == '\n' }

  /** The multi-line anchor `^`. */
  predicate LineStart(s: string, i: nat) {
    i == 0 || (i <= |s| && s[i - 1] == '\n')
  }

  // ---------------------------------------------------------------------------
  // Directive tokens: (\%\%(?<directive>[a-zA-Z0-9]+)=(?<value>(\S|\.)+)\%\%)
  // ---------------------------------------------------------------------------

  /** One match: the whole token (`Groups[0].Value`) and its two named groups. */
  datatype DirectiveMatch = DirectiveMatch(text: string, directive: string, value: string)

  /** A token is `%%`, an alphanumeric name, `=`, a value with no white space, `%%`. */
  ghost predicate WellFormedToken(m: DirectiveMatch) {
    && m.text == "%%" + m.directive + "=" + m.value + "%%"
    && |m.directive| > 0 && (forall j :: 0 <= j < |m.directive| ==> IsAlphaNum(m.directive[j]))
    && |m.value| > 0 && (forall j :: 0 <= j < |m.value| ==> !IsWhiteSpace(m.value[j]))
  }

  /** The greedy value group gives back characters until "%%" follows: the last "%%" in [lo, hi). */
  function LastPercentPair(s: string, lo: nat, hi: nat): (r: Option<nat>)
    requires hi <= |s|
    ensures r.Some? ==> lo <= r.value && r.value + 2 <= hi && OccursAt(s, "%%", r.value)
    ensures r.Some? ==> forall e :: r.value < e && e + 2 <= hi ==> !OccursAt(s, "%%", e)
    ensures r.None? ==> forall e :: lo <= e && e + 2 <= hi ==> !OccursAt(s, "%%", e)
    decreases hi
  {
    if hi < lo + 2 then None
    else if OccursAt(s, "%%", hi - 2) then Some(hi - 2)
    else LastPercentPair(s, lo, hi - 1)
  }

  /** The directive token that the regex matches at position `i`, if any. */
  function DirectiveAt(s: string, i: nat): (r: Option<DirectiveMatch>)
    requires i <= |s|
    ensures r.Some? ==> OccursAt(s, r.value.text, i) && WellFormedToken(r.value)
  {
    if !OccursAt(s, "%%", i) then None
    else
      var ne := RunEnd(s, i + 2, IsAlphaNum);
      if ne == i + 2 || ne == |s| || s[ne] != '=' then None
      else ValueAt(s, i, ne)
  }

  /** After "%%name=" (the '=' at `ne`): the greedy value up to the last "%%" of its non-white run. */
  function ValueAt(s: string, i: nat, ne: nat): (r: Option<DirectiveMatch>)
    requires i + 2 < ne < |s| && OccursAt(s, "%%", i) && s[ne] == '='
    requires forall j :: i + 2 <= j < ne ==> IsAlphaNum(s[j])
    ensures r.Some? ==> OccursAt(s, r.value.text, i) && WellFormedToken(r.value)
  {
    var ve := RunEnd(s, ne + 1, IsNonWhiteSpace);
    match LastPercentPair(s, ne + 2, ve)
    case None => None
    case Some(e) => Some(TokenAt(s, i, ne, e))
  }

  /** The pieces the scanner found at `i` (name up to `ne`, value up to `e`) form a well-formed token. */
  function TokenAt(s: string, i: nat, ne: nat, e: nat): (m: DirectiveMatch)
    requires i + 2 < ne && ne + 2 <= e && e + 2 <= |s|
    requires OccursAt(s, "%%", i) && s[ne] == '=' && OccursAt(s, "%%", e)
    requires forall j :: i + 2 <= j < ne ==> IsAlphaNum(s[j])
    requires forall j :: ne + 1 <= j < e ==> !IsWhiteSpace(s[j])
    ensures m == DirectiveMatch(s[i..e + 2], s[i + 2..ne], s[ne + 1..e])
    ensures OccursAt(s, m.text, i) && WellFormedToken(m)
  {
    assert s[i..i + 2] == "%%" && s[e..e + 2] == "%%";
    assert s[ne..ne + 1] == "=";
    assert s[i..e + 2] == s[i..i + 2] + s[i + 2..ne] + s[ne..ne + 1] + s[ne + 1..e] + s[e..e + 2];
    DirectiveMatch(s[i..e + 2], s[i + 2..ne], s[ne + 1..e])
  }

  /** `Regex.Matches` of the directive token regex, from position `i`. */
  function DirectiveMatchesFrom(s: string, i: nat): (ms: seq<DirectiveMatch>)
    requires i <= |s|
    ensures forall k :: 0 <= k < |ms| ==> WellFormedToken(ms[k]) && Contains(s, ms[k].text)
    decreases |s| - i
  {
    if i == |s| then []
    else match DirectiveAt(s, i)
      case Some(m) => [m] + DirectiveMatchesFrom(s, i + |m.text|)
      case None => DirectiveMatchesFrom(s, i + 1)
  }

  /** Where no "%%" starts between `i` and `k`, the scan finds nothing there. */
  lemma {:induction false} DirectivesSkip(s: string, i: nat, k: nat)
    requires i <= k <= |s| && forall j :: i <= j < k ==> !OccursAt(s, "%%", j)
    ensures DirectiveMatchesFrom(s, i) == DirectiveMatchesFrom(s, k)
    decreases k - i
  {
    if i < k {
      DirectiveMiss(s, i);
      DirectivesSkip(s, i + 1, k);
    }
  }

  lemma DirectiveMiss(s: string, i: nat)
    requires i < |s| && !OccursAt(s, "%%", i)
    ensures DirectiveMatchesFrom(s, i) == DirectiveMatchesFrom(s, i + 1)
  {
    assert DirectiveAt(s, i).None?;
  }

  function Token(n: string, v: string): string {
    "%%" + n + "=" + v + "%%"
  }

  /**
   * A token `%%n=v%%` with an alphanumeric name and a value with neither
   * white space nor '%', followed by text without '%', is matched whole at
   * its position.
   */
  lemma DirectiveAtToken(s: string, i: nat, n: string, v: string)
    requires |n| > 0 && (forall j :: 0 <= j < |n| ==> IsAlphaNum(n[j]))
    requires |v| > 0 && (forall j :: 0 <= j < |v| ==> !IsWhiteSpace(v[j]) && v[j] != '%')
    requires OccursAt(s, Token(n, v), i)
    requires forall j :: i + |Token(n, v)| <= j < |s| ==> s[j] != '%'
    ensures DirectiveAt(s, i) == Some(DirectiveMatch(Token(n, v), n, v))
  {
    var ne := i + 2 + |n|;
    var e := ne + 1 + |v|;
    TokenChars(s, i, n, v, ne, e);
    DirectiveAtSpan(s, i, ne, e);
    SameMatch(DirectiveAt(s, i), s[i..e + 2], s[i + 2..ne], s[ne + 1..e], Token(n, v), n, v);
  }

  /** A match is determined by its three strings. */
  lemma SameMatch(r: Option<DirectiveMatch>, t: string, n: string, v: string, t': string, n': string, v': string)
    requires r == Some(DirectiveMatch(t, n, v)) && t == t' && n == n' && v == v'
    ensures r == Some(DirectiveMatch(t', n', v'))
  {
  }

  /** The characters of a token `%%n=v%%` found at `i`. */
  lemma TokenChars(s: string, i: nat, n: string, v: string, ne: nat, e: nat)
    requires OccursAt(s, Token(n, v), i) && ne == i + 2 + |n| && e == ne + 1 + |v|
    ensures e + 2 <= |s| && s[i] == '%' && s[i + 1] == '%' && s[ne] == '=' && s[e] == '%' && s[e + 1] == '%'
    ensures forall j :: i + 2 <= j < ne ==> s[j] == n[j - i - 2]
    ensures forall j :: ne + 1 <= j < e ==> s[j] == v[j - ne - 1]
    ensures s[i..e + 2] == Token(n, v) && s[i + 2..ne] == n && s[ne + 1..e] == v
  {
    var tok := Token(n, v);
    assert s[i..i + |tok|] == tok;
    assert forall k :: 0 <= k < |tok| ==> s[i + k] == tok[k];
    assert s[i + 2..ne] == tok[2..2 + |n|] == n;
    assert s[ne + 1..e] == tok[3 + |n|..3 + |n| + |v|] == v;
  }

  /** The scanner's view of a token from `i`: name up to `ne`, '=' there, value up to the "%%" at `e`. */
  lemma DirectiveAtSpan(s: string, i: nat, ne: nat, e: nat)
    requires i + 2 < ne && ne + 1 < e && e + 2 <= |s|
    requires s[i] == '%' && s[i + 1] == '%' && s[ne] == '=' && s[e] == '%' && s[e + 1] == '%'
    requires forall j :: i + 2 <= j < ne ==> IsAlphaNum(s[j])
    requires forall j :: ne + 1 <= j < e ==> !IsWhiteSpace(s[j])
    requires forall j :: e + 2 <= j < |s| ==> s[j] != '%'
    ensures DirectiveAt(s, i) == Some(DirectiveMatch(s[i..e + 2], s[i + 2..ne], s[ne + 1..e]))
  {
    assert s[i..i + 2] == "%%" && s[e..e + 2] == "%%";
    RunEndAt(s, i + 2, ne, IsAlphaNum);
    ValuePastClose(s, ne, e);
    DirectiveAtSteps(s, i, ne, e);
  }

  /** The non-white run of the value reaches past the closing "%%", where the greedy value stops. */
  lemma ValuePastClose(s: string, ne: nat, e: nat)
    requires ne + 1 < e && e + 2 <= |s| && s[e] == '%' && s[e + 1] == '%'
    requires forall j :: ne + 1 <= j < e ==> !IsWhiteSpace(s[j])
    requires forall j :: e + 2 <= j < |s| ==> s[j] != '%'
    ensures LastPercentPair(s, ne + 2, RunEnd(s, ne + 1, IsNonWhiteSpace)) == Some(e)
  {
    assert s[e..e + 2] == "%%";
    var ve := RunEnd(s, ne + 1, IsNonWhiteSpace);
    assert ve >= e + 2;
    LastPairIsClose(s, ne + 2, ve, e);
  }

  /** `DirectiveAt` follows its three scans: the opening "%%", the name run, the last "%%" of the value run. */
  lemma DirectiveAtSteps(s: string, i: nat, ne: nat, e: nat)
    requires i + 2 < ne < |s| && s[ne] == '=' && OccursAt(s, "%%", i)
    requires RunEnd(s, i + 2, IsAlphaNum) == ne
    requires LastPercentPair(s, ne + 2, RunEnd(s, ne + 1, IsNonWhiteSpace)) == Some(e)
    ensures DirectiveAt(s, i) == Some(DirectiveMatch(s[i..e + 2], s[i + 2..ne], s[ne + 1..e]))
  {
    NameStep(s, i, ne);
    ValueStep(s, i, ne, e);
  }

  lemma NameStep(s: string, i: nat, ne: nat)
    requires i + 2 < ne < |s| && s[ne] == '=' && OccursAt(s, "%%", i)
    requires RunEnd(s, i + 2, IsAlphaNum) == ne
    ensures forall j :: i + 2 <= j < ne ==> IsAlphaNum(s[j])
    ensures DirectiveAt(s, i) == ValueAt(s, i, ne)
  {
  }

  lemma ValueStep(s: string, i: nat, ne: nat, e: nat)
    requires i + 2 < ne < |s| && s[ne] == '=' && OccursAt(s, "%%", i)
    requires forall j :: i + 2 <= j < ne ==> IsAlphaNum(s[j])
    requires LastPercentPair(s, ne + 2, RunEnd(s, ne + 1, IsNonWhiteSpace)) == Some(e)
    ensures ValueAt(s, i, ne) == Some(DirectiveMatch(s[i..e + 2], s[i + 2..ne], s[ne + 1..e]))
  {
    var m := TokenAt(s, i, ne, e);
    assert ValueAt(s, i, ne) == Some(m);
  }

  /** Past the closing "%%" at `e`, only '%'-free text follows: the greedy value stops there. */
  lemma LastPairIsClose(s: string, lo: nat, hi: nat, e: nat)
    requires lo <= e && e + 2 <= hi <= |s| && OccursAt(s, "%%", e)
    requires forall j :: e + 2 <= j < |s| ==> s[j] != '%'
    ensures LastPercentPair(s, lo, hi) == Some(e)
  {
    forall j | e < j && j + 2 <= hi
      ensures !OccursAt(s, "%%", j)
    {
      assert s[j..j + 2][1] == s[j + 1];
    }
  }

  /** The scan of a text with a single token and no other '%' finds exactly that token. */
  lemma OneDirective(pre: string, n: string, v: string, post: string)
    requires |n| > 0 && (forall j :: 0 <= j < |n| ==> IsAlphaNum(n[j]))
    requires |v| > 0 && (forall j :: 0 <= j < |v| ==> !IsWhiteSpace(v[j]) && v[j] != '%')
    requires '%' !in pre && '%' !in post
    ensures DirectiveMatches(pre + Token(n, v) + post) == [DirectiveMatch(Token(n, v), n, v)]
  {
    var tok := Token(n, v);
    var s := pre + tok + post;
    var i := |pre|;
    var k := i + |tok|;
    assert forall j :: 0 <= j < i ==> s[j] == pre[j];
    assert forall j :: k <= j < |s| ==> s[j] == post[j - k];
    assert s[i..k] == tok;
    NotStartingIn(s, "%%", 0, i);
    DirectivesSkip(s, 0, i);
    DirectiveAtToken(s, i, n, v);
    LastDirective(s, i);
    SingleScan(DirectiveMatches(s), DirectiveMatchesFrom(s, 0), DirectiveMatchesFrom(s, i),
      DirectiveAt(s, i).value, DirectiveMatch(tok, n, v));
  }

  /** A match at `i` with no '%' after it is the last match of the scan from `i`. */
  lemma LastDirective(s: string, i: nat)
    requires i < |s| && DirectiveAt(s, i).Some?
    requires forall j :: i + |DirectiveAt(s, i).value.text| <= j < |s| ==> s[j] != '%'
    ensures DirectiveMatchesFrom(s, i) == [DirectiveAt(s, i).value]
  {
    var after := i + |DirectiveAt(s, i).value.text|;
    DirectiveUnfold(s, i);
    NotStartingIn(s, "%%", after, |s|);
    DirectivesSkip(s, after, |s|);
    assert DirectiveMatchesFrom(s, |s|) == [];
  }

  lemma DirectiveUnfold(s: string, i: nat)
    requires i < |s| && DirectiveAt(s, i).Some?
    ensures i + |DirectiveAt(s, i).value.text| <= |s|
    ensures DirectiveMatchesFrom(s, i)
      == [DirectiveAt(s, i).value] + DirectiveMatchesFrom(s, i + |DirectiveAt(s, i).value.text|)
  {
  }

  /** The scan is `[m]` when it skips to a lone match `x == m`. */
  lemma SingleScan(whole: seq<DirectiveMatch>, from0: seq<DirectiveMatch>, fromI: seq<DirectiveMatch>,
                   x: DirectiveMatch, m: DirectiveMatch)
    requires whole == from0 && from0 == fromI && fromI == [x] && x == m
    ensures whole == [m]
  {
  }

  /** Every match of a page scan is a well-formed token that occurs in the page. */
  function DirectiveMatches(s: string): (ms: seq<DirectiveMatch>)
    ensures forall k :: 0 <= k < |ms| ==> WellFormedToken(ms[k]) && |ms[k].text| > 0 && Contains(s, ms[k].text)
  {
    DirectiveMatchesFrom(s, 0)
  }

  // ---------------------------------------------------------------------------
  // Delimited blocks with a lazy body: open(?<block>[\s\S]+?)close
  // Used for head blocks \[\[ .. \]\], comments \@\@ .. \@\@ and placeholders \[V\] .. \[/V\].
  // ---------------------------------------------------------------------------

  /** One match: the whole block (`Groups[0].Value`) and its body (`Groups["block"].Value`). */
  datatype Block = Block(text: string, inner: string)

  /** The slice from `i` to the end of the close at `e` is open, body and close. */
  lemma BlockSplit(s: string, open: string, close: string, i: nat, e: nat)
    requires OccursAt(s, open, i) && i + |open| <= e && OccursAt(s, close, e)
    ensures OccursAt(s, s[i..e + |close|], i) && s[i..e + |close|] == open + s[i + |open|..e] + close
  {
    var a := i + |open|;
    assert s[i..a] == open && s[e..e + |close|] == close;
    assert s[i..e + |close|] == s[i..a] + s[a..e] + s[e..e + |close|];
  }

  /** A body that runs up to the first close after `a` holds no earlier close. */
  lemma LazyBody(s: string, close: string, a: nat, e: nat)
    requires a + 1 <= e && OccursAt(s, close, e)
    requires forall j :: a + 1 <= j < e ==> !OccursAt(s, close, j)
    ensures forall j :: 0 < j < e - a ==> !OccursAt(s[a..e] + close, close, j)
  {
    var u := s[a..e + |close|];
    assert s[e..e + |close|] == close;
    assert s[a..e] + close == u;
    forall j | 0 < j < e - a
      ensures !OccursAt(u, close, j)
    {
      assert !OccursAt(s, close, a + j);
      if j + |close| <= e + |close| - a {
        SubSlice(s, a, e + |close|, j, j + |close|);
      }
    }
  }

  /** The block that starts at `i`: the body ends at the first `close` after at least one character. */
  function BlockAt(s: string, open: string, close: string, i: nat): (r: Option<Block>)
    requires i <= |s|
    ensures r.Some? ==> OccursAt(s, r.value.text, i) && r.value.text == open + r.value.inner + close
    ensures r.Some? ==> |r.value.inner| > 0
  {
    if !OccursAt(s, open, i) || i + |open| + 1 > |s| then None
    else
      var e := IndexOfFrom(s, close, i + |open| + 1);
      if e < 0 then None
      else
        BlockSplit(s, open, close, i, e);
        Some(Block(s[i..e + |close|], s[i + |open|..e]))
  }

  /** The body is lazy: it holds no `close` that would have ended the block earlier. */
  lemma BlockAtLazy(s: string, open: string, close: string, i: nat)
    requires i <= |s|
    ensures var r := BlockAt(s, open, close, i);
      r.Some? ==> forall j :: 0 < j < |r.value.inner| ==> !OccursAt(r.value.inner + close, close, j)
  {
    if OccursAt(s, open, i) && i + |open| + 1 <= |s| {
      var e := IndexOfFrom(s, close, i + |open| + 1);
      if e >= 0 {
        LazyBody(s, close, i + |open|, e);
      }
    }
  }

  /** Where the first close after the opening is at `e`, the block at `i` ends there. */
  lemma BlockAtFound(s: string, open: string, close: string, i: nat, e: nat) returns (b: Block)
    requires OccursAt(s, open, i) && i + |open| + 1 <= |s| && IndexOfFrom(s, close, i + |open| + 1) == e
    ensures e + |close| <= |s| && b == Block(s[i..e + |close|], s[i + |open|..e])
    ensures BlockAt(s, open, close, i) == Some(b)
  {
    assert OccursAt(s, close, e);
    b := Block(s[i..e + |close|], s[i + |open|..e]);
  }

  /** The scan takes the block found at `i` and resumes after it. */
  lemma BlocksFromHit(s: string, open: string, close: string, i: nat, b: Block)
    requires |open| > 0 && i < |s| && BlockAt(s, open, close, i) == Some(b)
    ensures i + |b.text| <= |s| && BlocksFrom(s, open, close, i) == [b] + BlocksFrom(s, open, close, i + |b.text|)
  {
  }

  /** `Regex.Matches` of a block regex, from position `i`. */
  function BlocksFrom(s: string, open: string, close: string, i: nat): (bs: seq<Block>)
    requires |open| > 0 && i <= |s|
    ensures forall k :: 0 <= k < |bs| ==> bs[k].text == open + bs[k].inner + close && Contains(s, bs[k].text)
    decreases |s| - i
  {
    if i == |s| then []
    else match BlockAt(s, open, close, i)
      case Some(b) => [b] + BlocksFrom(s, open, close, i + |b.text|)
      case None => BlocksFrom(s, open, close, i + 1)
  }

  /** `Regex.Replace(s, blockRegex, "")`: every matched block deleted in one scan. */
  function RemoveBlocksFrom(s: string, open: string, close: string, i: nat): (r: string)
    requires |open| > 0 && i <= |s|
    ensures |r| <= |s| - i
    decreases |s| - i
  {
    if i == |s| then []
    else match BlockAt(s, open, close, i)
      case Some(b) => RemoveBlocksFrom(s, open, close, i + |b.text|)
      case None => [s[i]] + RemoveBlocksFrom(s, open, close, i + 1)
  }

  /** `Regex.Match`: the leftmost block at or after `i`. */
  function FirstBlockFrom(s: string, open: string, close: string, i: nat): (r: Option<Block>)
    requires i <= |s|
    ensures r.Some? ==> r.value.text == open + r.value.inner + close && Contains(s, r.value.text)
    decreases |s| - i
  {
    match BlockAt(s, open, close, i)
    case Some(b) => Some(b)
    case None => if i == |s| then None else FirstBlockFrom(s, open, close, i + 1)
  }

  /** A stretch holding no first character of `p` holds no start of `p`. */
  lemma NotStartingIn(s: string, p: string, i: nat, k: nat)
    requires |p| > 0 && forall j :: i <= j < k && j < |s| ==> s[j] != p[0]
    ensures forall j :: i <= j < k ==> !OccursAt(s, p, j)
  {
    forall j | i <= j < k
      ensures !OccursAt(s, p, j)
    {
      if j + |p| <= |s| {
        assert s[j..j + |p|][0] == s[j];
      }
    }
  }

  /** The first occurrence at or after `lo` is at `e` when `p` occurs there and nowhere in between. */
  lemma IndexOfFromAt(s: string, p: string, lo: nat, e: nat)
    requires lo <= e <= |s| && OccursAt(s, p, e)
    requires forall j :: lo <= j < e ==> !OccursAt(s, p, j)
    ensures IndexOfFrom(s, p, lo) == e
  {
  }

  /**
   * `Regex.Match` finds the leftmost block: with no `open` from `i` up to
   * `p`, and the first `close` after a non-empty body at `e`, the match is the
   * block from `p` to the end of that close.
   */
  lemma {:induction false} FirstBlockFound(s: string, open: string, close: string, i: nat, p: nat, e: nat)
    requires i <= p && OccursAt(s, open, p) && p + |open| + 1 <= e && OccursAt(s, close, e)
    requires forall j :: i <= j < p ==> !OccursAt(s, open, j)
    requires forall j :: p + |open| + 1 <= j < e ==> !OccursAt(s, close, j)
    ensures e + |close| <= |s|
    ensures FirstBlockFrom(s, open, close, i) == Some(Block(s[p..e + |close|], s[p + |open|..e]))
    decreases p - i
  {
    if i < p {
      assert BlockAt(s, open, close, i).None?;
      FirstBlockFound(s, open, close, i + 1, p, e);
    } else {
      IndexOfFromAt(s, close, p + |open| + 1, e);
      var b := BlockAtFound(s, open, close, p, e);
    }
  }

  /**
   * In `pre + open + body + close + post`, where `pre` holds no first character
   * of `open` and the body no first character of `close`, the first block is
   * that one.
   */
  lemma FirstBlockIs(pre: string, open: string, body: string, close: string, post: string)
    requires |open| > 0 && |close| > 0 && |body| > 0
    requires open[0] !in pre && close[0] !in body
    ensures FirstBlockFrom(pre + open + body + close + post, open, close, 0) == Some(Block(open + body + close, body))
  {
    var s := pre + open + body + close + post;
    var p := |pre|;
    var e := p + |open| + |body|;
    FiveParts(s, pre, open, body, close, post, p, e);
    NotStartingIn(s, open, 0, p);
    NotStartingIn(s, close, p + |open| + 1, e);
    FirstBlockFound(s, open, close, 0, p, e);
    SameBlock(FirstBlockFrom(s, open, close, 0), s[p..e + |close|], s[p + |open|..e], open + body + close, body);
  }

  /** Where the parts of `pre + open + body + close + post` lie. */
  lemma FiveParts(s: string, pre: string, open: string, body: string, close: string, post: string, p: nat, e: nat)
    requires s == pre + open + body + close + post && p == |pre| && e == p + |open| + |body|
    ensures e + |close| <= |s|
    ensures s[p..p + |open|] == open && s[e..e + |close|] == close
    ensures s[p..e + |close|] == open + body + close && s[p + |open|..e] == body
    ensures forall j :: 0 <= j < p ==> s[j] == pre[j]
    ensures forall j :: p + |open| <= j < e ==> s[j] == body[j - p - |open|]
  {
    assert s == pre + (open + body + close + post);
  }

  /** A block is determined by its two strings. */
  lemma SameBlock(r: Option<Block>, t: string, inner: string, t': string, inner': string)
    requires r == Some(Block(t, inner)) && t == t' && inner == inner'
    ensures r == Some(Block(t', inner'))
  {
  }

  /** Text before the first `open` is copied through by block removal. */
  lemma {:induction false} RemoveBlocksSkip(s: string, open: string, close: string, i: nat, k: nat)
    requires |open| > 0 && i <= k <= |s| && forall j :: i <= j < k ==> !OccursAt(s, open, j)
    ensures RemoveBlocksFrom(s, open, close, i) == s[i..k] + RemoveBlocksFrom(s, open, close, k)
    decreases k - i
  {
    if i < k {
      RemoveBlocksMiss(s, open, close, i);
      RemoveBlocksSkip(s, open, close, i + 1, k);
      ConsSlice(s, i, k, RemoveBlocksFrom(s, open, close, k));
    }
  }

  /** The character at `i` followed by the rest of the slice is the slice. */
  lemma ConsSlice(s: string, i: nat, k: nat, rest: string)
    requires i < k <= |s|
    ensures [s[i]] + (s[i + 1..k] + rest) == s[i..k] + rest
  {
    assert s[i..k] == [s[i]] + s[i + 1..k];
  }

  /** Where no block opens at `i`, its character is kept. */
  lemma RemoveBlocksMiss(s: string, open: string, close: string, i: nat)
    requires |open| > 0 && i < |s| && !OccursAt(s, open, i)
    ensures RemoveBlocksFrom(s, open, close, i) == [s[i]] + RemoveBlocksFrom(s, open, close, i + 1)
  {
  }

  /** Block removal drops the block found at `i` and resumes after it. */
  lemma RemoveBlocksHit(s: string, open: string, close: string, i: nat, b: Block)
    requires |open| > 0 && i < |s| && BlockAt(s, open, close, i) == Some(b)
    ensures i + |b.text| <= |s| && RemoveBlocksFrom(s, open, close, i) == RemoveBlocksFrom(s, open, close, i + |b.text|)
  {
    assert OccursAt(s, b.text, i);
  }

  /** A block found at `i` with no `open` after it: removal leaves only the text after the block. */
  lemma RemoveLastBlock(s: string, open: string, close: string, i: nat, b: Block, k: nat)
    requires |open| > 0 && i < |s| && BlockAt(s, open, close, i) == Some(b) && k == i + |b.text|
    requires forall j :: k <= j < |s| ==> !OccursAt(s, open, j)
    ensures k <= |s| && RemoveBlocksFrom(s, open, close, i) == s[k..]
  {
    RemoveBlocksHit(s, open, close, i, b);
    RemoveBlocksAbsent(s, open, close, k);
  }

  /** Where `open` never occurs, no block is removed. */
  lemma {:induction false} RemoveBlocksAbsent(s: string, open: string, close: string, i: nat)
    requires |open| > 0 && i <= |s|
    requires forall j :: i <= j ==> !OccursAt(s, open, j)
    ensures RemoveBlocksFrom(s, open, close, i) == s[i..]
    decreases |s| - i
  {
    if i < |s| {
      RemoveBlocksAbsent(s, open, close, i + 1);
      assert s[i..] == [s[i]] + s[i + 1..];
    }
  }

  // ---------------------------------------------------------------------------
  // Tag placeholders
  // ---------------------------------------------------------------------------

  predicate IsTagOpen(c: char) { c == '{' || c == '|' || c == '!' }

  predicate IsTagClose(c: char) { c == '|' || c == '!' || c == '}' }

  /**
   * A placeholder for `key` as the per-key pattern ({(\{|\||\!)key(\||\!|\})}) matches it:
   * opening and closing marks are chosen independently.
   */
  predicate IsKeyPlaceholder(t: string, key: string) {
    && |t| == |key| + 4 && t[0] == '{' && IsTagOpen(t[1])
    && t[2..2 + |key|] == key && IsTagClose(t[2 + |key|]) && t[3 + |key|] == '}'
  }

  /** `Regex.Matches` of the per-key pattern, from position `i`. */
  function KeyPlaceholdersFrom(s: string, key: string, i: nat): (ms: seq<string>)
    requires i <= |s|
    ensures forall k :: 0 <= k < |ms| ==> IsKeyPlaceholder(ms[k], key) && Contains(s, ms[k])
    decreases |s| - i
  {
    if i == |s| then []
    else if i + |key| + 4 <= |s| && IsKeyPlaceholder(s[i..i + |key| + 4], key) then
      assert OccursAt(s, s[i..i + |key| + 4], i);
      [s[i..i + |key| + 4]] + KeyPlaceholdersFrom(s, key, i + |key| + 4)
    else KeyPlaceholdersFrom(s, key, i + 1)
  }

  /** Any tag-shaped placeholder, as {({|\||\!)([\w]+)(}|\!|\|)} matches it. */
  predicate IsTagPlaceholder(t: string) {
    && |t| >= 5 && t[0] == '{' && IsTagOpen(t[1])
    && (forall j :: 2 <= j < |t| - 2 ==> IsWordChar(t[j]))
    && IsTagClose(t[|t| - 2]) && t[|t| - 1] == '}'
  }

  /** End of the tag-shaped placeholder at `i`, if one starts there. */
  function TagPlaceholderAt(s: string, i: nat): (r: Option<nat>)
    requires i <= |s|
    ensures r.Some? ==> i + 5 <= r.value <= |s| && IsTagPlaceholder(s[i..r.value])
  {
    if i + 1 < |s| && s[i] == '{' && IsTagOpen(s[i + 1]) then
      var we := RunEnd(s, i + 2, IsWordChar);
      if we > i + 2 && we + 1 < |s| && IsTagClose(s[we]) && s[we + 1] == '}' then Some(we + 2) else None
    else None
  }

  /** `Regex.Matches` of the leftover-tag regex, from position `i`. */
  function TagPlaceholdersFrom(s: string, i: nat): (ms: seq<string>)
    requires i <= |s|
    ensures forall k :: 0 <= k < |ms| ==> IsTagPlaceholder(ms[k]) && Contains(s, ms[k])
    decreases |s| - i
  {
    if i == |s| then []
    else match TagPlaceholderAt(s, i)
      case Some(e) =>
        assert OccursAt(s, s[i..e], i);
        [s[i..e]] + TagPlaceholdersFrom(s, e)
      case None => TagPlaceholdersFrom(s, i + 1)
  }

  // ---------------------------------------------------------------------------
  // Blank lines and indentation
  // ---------------------------------------------------------------------------

  /** The largest `p` in [lo, hi) with `s[p] == '\n'`. */
  function LastNewline(s: string, lo: nat, hi: nat): (r: Option<nat>)
    requires hi <= |s|
    ensures r.Some? ==> lo <= r.value < hi && s[r.value] == '\n'
    ensures r.Some? ==> forall p :: r.value < p < hi ==> s[p] != '\n'
    ensures r.None? ==> forall p :: lo <= p < hi ==> s[p] != '\n'
    decreases hi
  {
    if hi <= lo then None
    else if s[hi - 1] == '\n' then Some(hi - 1)
    else LastNewline(s, lo, hi - 1)
  }

  /** End of the match of ^\s+$[\r\n]* at line start `i`, if any. */
  function WhiteLineAt(s: string, i: nat): (r: Option<nat>)
    requires i <= |s|
    ensures r.Some? ==> i < r.value <= |s| && forall j :: i <= j < r.value ==> IsWhiteSpace(s[j])
  {
    if i == |s| || !LineStart(s, i) || !IsWhiteSpace(s[i]) then None
    else
      var e := RunEnd(s, i, IsWhiteSpace);
      var p := if e == |s| then Some(e) else LastNewline(s, i + 1, e);
      match p
      case None => None
      case Some(p) => Some(RunEnd(s, p, IsLineBreak))
  }

  /** `emptyLines.Matches(s)` from position `i`: the white lines `Render` deletes. */
  function WhiteLinesFrom(s: string, i: nat): (ms: seq<string>)
    requires i <= |s|
    ensures forall k :: 0 <= k < |ms| ==> |ms[k]| > 0 && Contains(s, ms[k])
    ensures forall k, j :: 0 <= k < |ms| && 0 <= j < |ms[k]| ==> IsWhiteSpace(ms[k][j])
    decreases |s| - i
  {
    if i == |s| then []
    else match WhiteLineAt(s, i)
      case Some(e) =>
        assert OccursAt(s, s[i..e], i);
        [s[i..e]] + WhiteLinesFrom(s, e)
      case None => WhiteLinesFrom(s, i + 1)
  }

  /** End of the match of ^\s*$\n at line start `i`, if any. */
  function BlankLineAt(s: string, i: nat): (r: Option<nat>)
    requires i <= |s| && LineStart(s, i)
    ensures r.Some? ==> i < r.value <= |s| && s[r.value - 1] == '\n'
    ensures r.Some? ==> forall j :: i <= j < r.value ==> IsWhiteSpace(s[j])
  {
    var e := RunEnd(s, i, IsWhiteSpace);
    match LastNewline(s, i, e)
    case None => None
    case Some(p) => Some(p + 1)
  }

  /** A white line ending in a line break, at a line start and followed by a non-white character, is the next match. */
  lemma WhiteLineFound(s: string, i: nat, e: nat)
    requires i + 1 < e < |s| && LineStart(s, i)
    requires forall j :: i <= j < e ==> IsWhiteSpace(s[j])
    requires s[e - 1] == '\n' && !IsWhiteSpace(s[e])
    ensures WhiteLinesFrom(s, i) == [s[i..e]] + WhiteLinesFrom(s, e)
  {
    RunEndAt(s, i, e, IsWhiteSpace);
    assert LastNewline(s, i + 1, e) == Some(e - 1);
    RunEndAt(s, e - 1, e, IsLineBreak);
    assert WhiteLineAt(s, i) == Some(e);
  }

  /** A stretch without white space holds no white line. */
  lemma {:induction false} NoWhiteLines(s: string, i: nat)
    requires i <= |s| && forall j :: i <= j < |s| ==> !IsWhiteSpace(s[j])
    ensures WhiteLinesFrom(s, i) == []
    decreases |s| - i
  {
    if i < |s| {
      assert WhiteLineAt(s, i).None?;
      NoWhiteLines(s, i + 1);
    }
  }

  /** `Regex.Replace(s, @"^\s*$\n", "", Multiline)` from position `i`. */
  function CollapseBlankLinesFrom(s: string, i: nat): (r: string)
    requires i <= |s|
    ensures |r| <= |s| - i
    decreases |s| - i
  {
    if i == |s| then []
    else match (if LineStart(s, i) then BlankLineAt(s, i) else None)
      case Some(e) => CollapseBlankLinesFrom(s, e)
      case None => [s[i]] + CollapseBlankLinesFrom(s, i + 1)
  }

  function CollapseBlankLines(s: string): string {
    CollapseBlankLinesFrom(s, 0)
  }

  /** A text without a line break has no blank line to collapse. */
  lemma {:induction false} CollapseWithoutNewline(s: string, i: nat)
    requires i <= |s| && forall j :: i <= j < |s| ==> s[j] != '\n'
    ensures CollapseBlankLinesFrom(s, i) == s[i..]
    decreases |s| - i
  {
    if i < |s| {
      assert LineStart(s, i) ==> BlankLineAt(s, i).None?;
      CollapseWithoutNewline(s, i + 1);
      assert s[i..] == [s[i]] + s[i + 1..];
    }
  }

  /** A leading white line is deleted together with its line break. */
  lemma BlankLineCollapsed(w: string, t: string)
    requires forall j :: 0 <= j < |w| ==> IsWhiteSpace(w[j])
    requires |t| > 0 && !IsWhiteSpace(t[0]) && '\n' !in t
    ensures CollapseBlankLines(w + "\n" + t) == t
  {
    var s := w + "\n" + t;
    var e := |w| + 1;
    assert s[e] == t[0] && s[e - 1] == '\n';
    RunEndAt(s, 0, e, IsWhiteSpace);
    assert LastNewline(s, 0, e) == Some(e - 1);
    assert BlankLineAt(s, 0) == Some(e);
    assert CollapseBlankLinesFrom(s, 0) == CollapseBlankLinesFrom(s, e);
    CollapseWithoutNewline(s, e);
    assert s[e..] == t;
  }

  /** `Regex.Replace(s, @"^(\s+)", "", Multiline)` from position `i`: indentation removed. */
  function StripIndentFrom(s: string, i: nat): (r: string)
    requires i <= |s|
    ensures |r| <= |s| - i
    ensures LineStart(s, i) && |r| > 0 ==> !IsWhiteSpace(r[0])
    ensures forall c :: c in r ==> c in s[i..]
    decreases |s| - i
  {
    if i == |s| then []
    else if LineStart(s, i) && IsWhiteSpace(s[i]) then StripIndentFrom(s, RunEnd(s, i, IsWhiteSpace))
    else [s[i]] + StripIndentFrom(s, i + 1)
  }

  function StripIndent(s: string): string {
    StripIndentFrom(s, 0)
  }

  /** Text whose lines start with no white space is left as it is. */
  lemma {:induction false} StripIndentKeeps(s: string, i: nat)
    requires i <= |s| && forall j :: i <= j < |s| && LineStart(s, j) ==> !IsWhiteSpace(s[j])
    ensures StripIndentFrom(s, i) == s[i..]
    decreases |s| - i
  {
    if i < |s| {
      StripIndentKeeps(s, i + 1);
      assert s[i..] == [s[i]] + s[i + 1..];
    }
  }

  /** The white space opening a line is dropped and nothing else. */
  lemma StripIndentDrops(ws: string, t: string)
    requires |ws| > 0 && forall j :: 0 <= j < |ws| ==> IsWhiteSpace(ws[j])
    requires |t| > 0 && !IsWhiteSpace(t[0]) && '\n' !in t
    ensures StripIndent(ws + t) == t
  {
    var s := ws + t;
    assert s[|ws|] == t[0];
    RunEndAt(s, 0, |ws|, IsWhiteSpace);
    assert StripIndent(s) == StripIndentFrom(s, |ws|);
    StripIndentKeeps(s, |ws|);
    assert s[|ws|..] == t;
  }
}
