/**
 * The substitution handlers: passes over the whole content buffer rather than
 * over one located directive. Comment and Head run in the compile phase,
 * AntiForgeryToken in the render phase.
 */
module Substitutions {
  import opened Wrappers
  import opened Text
  import opened Scanning
  import opened Builders

  /** DirectiveProcessType: the phase a handler declares. */
  datatype Phase = CompilePhase | AfterCompilePhase | RenderPhase

  /** The registered substitution handler objects, by class. */
  datatype SubstitutionHandler = CommentHandler | HeadHandler | AntiForgeryTokenHandler

  function SubstitutionPhase(h: SubstitutionHandler): Phase {
    match h
    case CommentHandler => CompilePhase
    case HeadHandler => CompilePhase
    case AntiForgeryTokenHandler => RenderPhase
  }

  // ---------------------------------------------------------------------------
  // CommentSubstitution: delete every @@ .. @@ block in one regex replace.
  // ---------------------------------------------------------------------------

  function CommentSubstitution(content: string): (r: string)
    ensures |r| <= |content|
  {
    RemoveBlocksFrom(content, "@@", "@@", 0)
  }

  /** Text without the "@@" marker has no comment to strip. */
  lemma CommentFreeUnchanged(content: string)
    requires forall j :: !OccursAt(content, "@@", j)
    ensures CommentSubstitution(content) == content
  {
    RemoveBlocksAbsent(content, "@@", "@@", 0);
  }

  /** The comment `@@ .. @@` from `i` to the one at `e`, in a text with no other '@', is deleted. */
  lemma OneCommentAt(s: string, i: nat, e: nat)
    requires i + 3 <= e && e + 2 <= |s|
    requires s[i] == '@' && s[i + 1] == '@' && s[e] == '@' && s[e + 1] == '@'
    requires forall j :: 0 <= j < i ==> s[j] != '@'
    requires forall j :: i + 2 <= j < e ==> s[j] != '@'
    requires forall j :: e + 2 <= j < |s| ==> s[j] != '@'
    ensures CommentSubstitution(s) == s[..i] + s[e + 2..]
  {
    NotStartingIn(s, "@@", 0, i);
    RemoveBlocksSkip(s, "@@", "@@", 0, i);
    CommentFromAt(s, i, e);
    assert s[0..i] == s[..i];
  }

  /** From the comment's start, removal drops the comment and keeps the '@'-free rest. */
  lemma CommentFromAt(s: string, i: nat, e: nat)
    requires i + 3 <= e && e + 2 <= |s|
    requires s[i] == '@' && s[i + 1] == '@' && s[e] == '@' && s[e + 1] == '@'
    requires forall j :: i + 2 <= j < e ==> s[j] != '@'
    requires forall j :: e + 2 <= j < |s| ==> s[j] != '@'
    ensures RemoveBlocksFrom(s, "@@", "@@", i) == s[e + 2..]
  {
    var b := CommentBlockAt(s, i, e);
    NotStartingIn(s, "@@", e + 2, |s|);
    RemoveLastBlock(s, "@@", "@@", i, b, e + 2);
  }

  /** The comment block the scan finds at `i` ends with the "@@" at `e`. */
  lemma CommentBlockAt(s: string, i: nat, e: nat) returns (b: Block)
    requires i + 3 <= e && e + 2 <= |s|
    requires s[i] == '@' && s[i + 1] == '@' && s[e] == '@' && s[e + 1] == '@'
    requires forall j :: i + 2 <= j < e ==> s[j] != '@'
    ensures BlockAt(s, "@@", "@@", i) == Some(b) && i + |b.text| == e + 2
  {
    assert s[i..i + 2] == "@@" && s[e..e + 2] == "@@";
    NotStartingIn(s, "@@", i + 3, e);
    IndexOfFromAt(s, "@@", i + 3, e);
    b := BlockAtFound(s, "@@", "@@", i, e);
  }

  /** A comment `@@body@@` in '@'-free text is deleted, and the text around it is kept. */
  lemma CommentRemoved(pre: string, body: string, post: string)
    requires |body| > 0 && '@' !in pre && '@' !in body && '@' !in post
    ensures CommentSubstitution(pre + "@@" + body + "@@" + post) == pre + post
  {
    var s := pre + "@@" + body + "@@" + post;
    var i := |pre|;
    var e := i + 2 + |body|;
    assert forall j :: 0 <= j < i ==> s[j] == pre[j];
    assert forall j :: i + 2 <= j < e ==> s[j] == body[j - i - 2];
    assert forall j :: e + 2 <= j < |s| ==> s[j] == post[j - e - 2];
    OneCommentAt(s, i, e);
    assert s[..i] == pre && s[e + 2..] == post;
  }

  // ---------------------------------------------------------------------------
  // HeadSubstitution: hoist every [[ .. ]] block into the %%Head%% slot.
  // ---------------------------------------------------------------------------

  const HeadDirective: string := "%%Head%%"

  function HeadBlocks(content: string): (bs: seq<Block>)
    ensures forall k :: 0 <= k < |bs| ==> |bs[k].text| > 0
  {
    BlocksFrom(content, "[[", "]]", 0)
  }

  /** The block bodies, each with its line indentation stripped, in document order. */
  function JoinBodies(bs: seq<Block>): string {
    if bs == [] then [] else JoinBodies(bs[..|bs| - 1]) + StripIndent(bs[|bs| - 1].inner)
  }

  /** The content after each block's text, in turn, has been replaced by "" everywhere. */
  function DeleteBlocks(content: string, bs: seq<Block>): string
    requires forall k :: 0 <= k < |bs| ==> |bs[k].text| > 0
  {
    if bs == [] then content else ReplaceAll(DeleteBlocks(content, bs[..|bs| - 1]), bs[|bs| - 1].text, [])
  }

  /**
   * What the Head handler makes of a buffer: with no block, the slot is simply
   * removed; otherwise the blocks are deleted, the slot gets the joined bodies,
   * and any slot the bodies brought along is removed.
   */
  function HeadResult(content: string): string {
    var bs := HeadBlocks(content);
    if bs == [] then ReplaceAll(content, HeadDirective, [])
    else ReplaceAll(ReplaceAll(DeleteBlocks(content, bs), HeadDirective, JoinBodies(bs)), HeadDirective, [])
  }

  /** Taking one more block extends the joined bodies by its body and the deletions by its text. */
  lemma BlocksPrefixStep(content: string, bs: seq<Block>, i: nat)
    requires i < |bs| && forall k :: 0 <= k < |bs| ==> |bs[k].text| > 0
    ensures JoinBodies(bs[..i + 1]) == JoinBodies(bs[..i]) + StripIndent(bs[i].inner)
    ensures DeleteBlocks(content, bs[..i + 1]) == ReplaceAll(DeleteBlocks(content, bs[..i]), bs[i].text, [])
  {
    var p := bs[..i + 1];
    assert p[..|p| - 1] == bs[..i] && p[|p| - 1] == bs[i];
  }

  method HeadSubstitution(content: StringBuilder)
    modifies content
    ensures content.text == HeadResult(old(content.text))
  {
    var heads := HeadBlocks(content.text);
    if |heads| > 0 {
      var headSubstitutions := HoistBlocks(content, heads);
      content.Replace(HeadDirective, headSubstitutions);
    }
    content.Replace(HeadDirective, []);
  }

  /** The loop of the Head handler: each block's text deleted from the buffer, its body collected. */
  method HoistBlocks(content: StringBuilder, heads: seq<Block>) returns (headSubstitutions: string)
    requires forall k :: 0 <= k < |heads| ==> |heads[k].text| > 0
    modifies content
    ensures headSubstitutions == JoinBodies(heads)
    ensures content.text == DeleteBlocks(old(content.text), heads)
  {
    ghost var original := content.text;
    headSubstitutions := "";
    var i := 0;
    while i < |heads|
      invariant 0 <= i <= |heads|
      invariant headSubstitutions == JoinBodies(heads[..i])
      invariant content.text == DeleteBlocks(original, heads[..i])
    {
      BlocksPrefixStep(original, heads, i);
      headSubstitutions := headSubstitutions + StripIndent(heads[i].inner);
      content.Replace(heads[i].text, []);
      i := i + 1;
    }
    assert heads[..|heads|] == heads;
  }

  lemma {:induction false} NoBlocksFrom(s: string, i: nat)
    requires i <= |s| && forall j :: i <= j ==> !OccursAt(s, "[[", j)
    ensures BlocksFrom(s, "[[", "]]", i) == []
    decreases |s| - i
  {
    if i < |s| {
      NoBlocksFrom(s, i + 1);
    }
  }

  /** A buffer without "[[" just loses its %%Head%% slots. */
  lemma HeadWithoutBlocks(content: string)
    requires forall j :: !OccursAt(content, "[[", j)
    ensures HeadResult(content) == ReplaceAll(content, HeadDirective, [])
  {
    NoBlocksFrom(content, 0);
  }

  /** The block scan steps over text without a '['. */
  lemma {:induction false} BlocksSkip(s: string, i: nat, e: nat)
    requires i <= e <= |s| && forall j :: i <= j < e ==> s[j] != '['
    ensures BlocksFrom(s, "[[", "]]", i) == BlocksFrom(s, "[[", "]]", e)
    decreases e - i
  {
    if i < e {
      if i + 2 <= |s| {
        assert s[i..i + 2][0] == s[i];
      }
      assert BlockAt(s, "[[", "]]", i).None?;
      BlocksSkip(s, i + 1, e);
    }
  }

  /** A text with no '%' holds no `%%Head%%` slot. */
  lemma NoSlotWithoutPercent(s: string)
    requires '%' !in s
    ensures forall j :: !OccursAt(s, HeadDirective, j)
  {
    forall j
      ensures !OccursAt(s, HeadDirective, j)
    {
      if 0 <= j && j + |HeadDirective| <= |s| {
        assert s[j..j + |HeadDirective|][0] == s[j];
      }
    }
  }

  /** A '[' -free stretch up to the end holds no "[[". */
  lemma NoOpenFrom(s: string, i: nat)
    requires i <= |s| && forall j :: i <= j < |s| ==> s[j] != '['
    ensures forall j :: i <= j ==> !OccursAt(s, "[[", j)
  {
    forall j | i <= j
      ensures !OccursAt(s, "[[", j)
    {
      if j + 2 <= |s| {
        assert s[j..j + 2][0] == s[j];
      }
    }
  }

  /** The first "]]" at or after `lo`, where the stretch before it holds no ']'. */
  lemma FirstCloseAt(s: string, lo: nat, e: nat)
    requires lo <= e && e + 2 <= |s| && s[e] == ']' && s[e + 1] == ']'
    requires forall j :: lo <= j < e ==> s[j] != ']'
    ensures IndexOfFrom(s, "]]", lo) == e
  {
    assert s[e..e + 2] == "]]";
    forall j | lo <= j < e
      ensures !OccursAt(s, "]]", j)
    {
      assert s[j..j + 2][0] == s[j];
    }
    assert OccursAt(s, "]]", e);
  }

  /** Two '[' at `i` are an opening "[[". */
  lemma OpenAt(s: string, i: nat)
    requires i + 2 <= |s| && s[i] == '[' && s[i + 1] == '['
    ensures OccursAt(s, "[[", i)
  {
    assert s[i..i + 2] == "[[";
  }

  /** The block scan of a text whose only "[[" is at `i`, closed by the "]]" at `e`, finds that block alone. */
  lemma OneHeadBlockAt(s: string, i: nat, e: nat)
    requires i + 3 <= e && e + 2 <= |s|
    requires s[i] == '[' && s[i + 1] == '[' && s[e] == ']' && s[e + 1] == ']'
    requires forall j :: 0 <= j < i ==> s[j] != '['
    requires forall j :: i + 2 <= j < e ==> s[j] != ']'
    requires forall j :: e + 2 <= j < |s| ==> s[j] != '['
    ensures HeadBlocks(s) == [Block(s[i..e + 2], s[i + 2..e])]
  {
    BlocksSkip(s, 0, i);
    OpenAt(s, i);
    FirstCloseAt(s, i + 3, e);
    var b := BlockAtFound(s, "[[", "]]", i, e);
    assert b == Block(s[i..e + 2], s[i + 2..e]) && i + |b.text| == e + 2;
    BlocksFromHit(s, "[[", "]]", i, b);
    NoOpenFrom(s, e + 2);
    NoBlocksFrom(s, e + 2);
  }

  /** The block scan of a text with one "[[ .. ]]" block and no other bracket finds that block. */
  lemma OneHeadBlock(pre: string, body: string, rest: string)
    requires |body| > 0 && '[' !in pre + rest && ']' !in body
    ensures HeadBlocks(pre + "[[" + body + "]]" + rest) == [Block("[[" + body + "]]", body)]
  {
    var s := pre + "[[" + body + "]]" + rest;
    var i := |pre|;
    var e := |pre| + 2 + |body|;
    assert forall j :: 0 <= j < i ==> s[j] == pre[j];
    assert forall j :: i + 2 <= j < e ==> s[j] == body[j - i - 2];
    assert forall j :: e + 2 <= j < |s| ==> s[j] == rest[j - e - 2];
    OneHeadBlockAt(s, i, e);
    assert s[i..e + 2] == "[[" + body + "]]" && s[i + 2..e] == body;
  }

  lemma Regroup(a: string, b: string, c: string, d: string)
    ensures a + (b + c + d) == (a + b) + c + d
  {
  }

  /** With a single head block, the Head handler deletes it, fills the slots with its body, then clears leftover slots. */
  lemma HeadOfOneBlock(s: string, b: Block)
    requires HeadBlocks(s) == [b] && |b.text| > 0
    ensures HeadResult(s) == ReplaceAll(ReplaceAll(ReplaceAll(s, b.text, []), HeadDirective, StripIndent(b.inner)), HeadDirective, [])
  {
    assert [b][..0] == [];
    assert JoinBodies([b]) == StripIndent(b.inner);
    assert DeleteBlocks(s, [b]) == ReplaceAll(s, b.text, []);
  }

  /**
   * One head block and one slot: the block leaves its place, and its body,
   * with the indentation of each line stripped, takes the slot's place.
   */
  lemma HeadHoistsBlock(pre: string, body: string, mid: string, post: string)
    requires |body| > 0
    requires '[' !in pre + mid + post && ']' !in body + mid + post
    requires '%' !in pre + mid + post && '%' !in body
    ensures HeadResult(pre + "[[" + body + "]]" + mid + HeadDirective + post) == pre + mid + StripIndent(body) + post
  {
    var rest := mid + HeadDirective + post;
    assert '[' !in pre + rest && ']' !in body && ']' !in rest;
    HeadDropsBlock(pre, body, rest);
    assert pre + "[[" + body + "]]" + rest == pre + "[[" + body + "]]" + mid + HeadDirective + post;
    assert '%' !in pre + mid && '%' !in post && '%' !in body;
    SlotTakesBody(pre, mid, post, StripIndent(body));
  }

  /** The one block is deleted where it stands, and its body goes to the slots. */
  lemma HeadDropsBlock(pre: string, body: string, rest: string)
    requires |body| > 0 && '[' !in pre + rest && ']' !in body && ']' !in rest
    ensures HeadResult(pre + "[[" + body + "]]" + rest)
      == ReplaceAll(ReplaceAll(pre + rest, HeadDirective, StripIndent(body)), HeadDirective, [])
  {
    var block := "[[" + body + "]]";
    OneHeadBlock(pre, body, rest);
    assert pre + "[[" + body + "]]" + rest == pre + block + rest;
    HeadOfOneBlock(pre + block + rest, Block(block, body));
    BlockVanishes(block, pre, rest);
  }

  /** The slot between `pre + mid` and `post` takes a '%'-free body, and no slot is left over. */
  lemma SlotTakesBody(pre: string, mid: string, post: string, joined: string)
    requires '%' !in pre + mid && '%' !in post && '%' !in joined
    ensures ReplaceAll(ReplaceAll(pre + (mid + HeadDirective + post), HeadDirective, joined), HeadDirective, [])
      == pre + mid + joined + post
  {
    Regroup(pre, mid, HeadDirective, post);
    TokenTakesBody(HeadDirective, joined, pre + mid, post);
    var out := pre + mid + joined + post;
    assert '%' !in out;
    NoSlotWithoutPercent(out);
    ReplaceAbsent(out, HeadDirective, [], 0);
    assert out[0..] == out;
  }

  /** A buffer without a block or slot passes through the Head handler unchanged. */
  lemma HeadIdentity(content: string)
    requires forall j :: !OccursAt(content, "[[", j) && !OccursAt(content, HeadDirective, j)
    ensures HeadResult(content) == content
  {
    HeadWithoutBlocks(content);
    ReplaceAbsent(content, HeadDirective, [], 0);
  }

  // ---------------------------------------------------------------------------
  // AntiForgeryTokenSubstitution: each placeholder gets a freshly minted token.
  // ---------------------------------------------------------------------------

  const AntiForgeryTokenName: string := "%%AntiForgeryToken%%"

  /**
   * The tokens for `n` placeholders when `issued` tokens were minted before:
   * the placeholders are visited from the last to the first, so the k-th from
   * the left gets the (n - 1 - k)-th token of this call.
   */
  function TokensFor(n: nat, mint: nat -> string, issued: nat): (ts: seq<string>)
    ensures |ts| == n && forall k :: 0 <= k < n ==> ts[k] == mint(issued + n - 1 - k)
  {
    seq(n, k requires 0 <= k < n => mint(issued + n - 1 - k))
  }

  /** The placeholder `k` from the left gets the token of the call that follows `c` earlier calls, `c = n - 1 - k`. */
  lemma TokenOfPlaceholder(n: nat, mint: nat -> string, issued: nat, k: nat, c: nat)
    requires k < n && c == n - 1 - k
    ensures TokensFor(n, mint, issued)[k] == mint(issued + c)
  {
  }

  /** The buffer with every placeholder the scan finds replaced by its own token. */
  function InjectTokens(content: string, mint: nat -> string, issued: nat): string {
    var ps := Occurrences(content, AntiForgeryTokenName);
    SpliceFrom(content, |AntiForgeryTokenName|, ps, TokensFor(|ps|, mint, issued), 0)
  }

  lemma {:induction false} SpacedSuffix(ps: seq<nat>, L: nat, f: nat, n: nat, j: nat)
    requires Spaced(ps, L, f, n) && 0 < j <= |ps|
    ensures Spaced(ps[j..], L, ps[j - 1] + L, n)
    decreases j
  {
    if j > 1 {
      SpacedSuffix(ps[1..], L, ps[0] + L, n, j - 1);
      assert ps[1..][j - 1..] == ps[j..];
    }
  }

  lemma {:induction false} SplicePrefix(s: string, L: nat, ps: seq<nat>, rs: seq<string>, f: nat, g: nat)
    requires f <= g && |ps| == |rs| && Spaced(ps, L, g, |s|)
    ensures Spaced(ps, L, f, |s|)
    ensures SpliceFrom(s, L, ps, rs, f) == s[f..g] + SpliceFrom(s, L, ps, rs, g)
  {
    SpacedWeaken(ps, L, f, g, |s|);
    if ps == [] {
      assert s[f..] == s[f..g] + s[g..];
    } else {
      SplicePrefixCons(s, L, ps, rs, f, g);
    }
  }

  lemma {:induction false} SplicePrefixCons(s: string, L: nat, ps: seq<nat>, rs: seq<string>, f: nat, g: nat)
    requires f <= g && |ps| == |rs| && ps != [] && Spaced(ps, L, g, |s|) && Spaced(ps, L, f, |s|)
    ensures SpliceFrom(s, L, ps, rs, f) == s[f..g] + SpliceFrom(s, L, ps, rs, g)
  {
    var p := ps[0];
    var rest := rs[0] + SpliceFrom(s, L, ps[1..], rs[1..], p + L);
    SpliceUnfold(s, L, ps, rs, f, rest);
    SpliceUnfold(s, L, ps, rs, g, rest);
    SliceSplit(s, f, g, p);
    assert (s[f..g] + s[g..p]) + rest == s[f..g] + (s[g..p] + rest);
  }

  lemma SpliceUnfold(s: string, L: nat, ps: seq<nat>, rs: seq<string>, f: nat, rest: string)
    requires |ps| == |rs| && ps != [] && Spaced(ps, L, f, |s|)
    requires rest == rs[0] + SpliceFrom(s, L, ps[1..], rs[1..], ps[0] + L)
    ensures SpliceFrom(s, L, ps, rs, f) == s[f..ps[0]] + rest
  {
  }

  lemma SliceSplit<T>(s: seq<T>, f: nat, g: nat, p: nat)
    requires f <= g <= p <= |s|
    ensures s[f..p] == s[f..g] + s[g..p]
  {
  }

  /** One loop step: splicing one more token in, right before the ones already spliced. */
  lemma {:induction false} SpliceOneMore(s: string, ps: seq<nat>, rs: seq<string>, j: nat)
    requires |ps| == |rs| && Spaced(ps, |AntiForgeryTokenName|, 0, |s|) && 0 < j <= |ps|
    requires OccursAt(s, AntiForgeryTokenName, ps[j - 1])
    ensures Spaced(ps[j - 1..], |AntiForgeryTokenName|, 0, |s|) && Spaced(ps[j..], |AntiForgeryTokenName|, 0, |s|)
    ensures var x := SpliceFrom(s, |AntiForgeryTokenName|, ps[j..], rs[j..], 0);
      ps[j - 1] + |AntiForgeryTokenName| <= |x|
      && ReplaceWithin(x, AntiForgeryTokenName, rs[j - 1], ps[j - 1], |AntiForgeryTokenName|)
         == SpliceFrom(s, |AntiForgeryTokenName|, ps[j - 1..], rs[j - 1..], 0)
  {
    var L := |AntiForgeryTokenName|;
    var p := ps[j - 1];
    SpacedAround(ps, L, |s|, j);
    var tail := SpliceFrom(s, L, ps[j..], rs[j..], p + L);
    SplicePrefix(s, L, ps[j..], rs[j..], 0, p + L);
    var x := SpliceFrom(s, L, ps[j..], rs[j..], 0);
    TokenWithin(s, x, tail, p, rs[j - 1]);
    assert ps[j - 1..][1..] == ps[j..] && rs[j - 1..][1..] == rs[j..];
    SpliceUnfold(s, L, ps[j - 1..], rs[j - 1..], 0, rs[j - 1] + tail);
    assert s[0..p] + (rs[j - 1] + tail) == s[0..p] + rs[j - 1] + tail;
  }

  /** The positions from the `j`-th on, seen from the start and from just past the one before. */
  lemma SpacedAround(ps: seq<nat>, L: nat, n: nat, j: nat)
    requires Spaced(ps, L, 0, n) && 0 < j <= |ps|
    ensures Spaced(ps[j - 1..], L, 0, n) && Spaced(ps[j..], L, ps[j - 1] + L, n) && Spaced(ps[j..], L, 0, n)
    ensures ps[j - 1] + L <= n && ps[j - 1..][0] == ps[j - 1]
  {
    if j > 1 {
      SpacedSuffix(ps, L, 0, n, j - 1);
      SpacedWeaken(ps[j - 1..], L, 0, ps[j - 2] + L, n);
    }
    SpacedSuffix(ps, L, 0, n, j);
    SpacedWeaken(ps[j..], L, 0, ps[j - 1] + L, n);
  }

  /** The token name kept at `p` in front of `tail` is swapped for `r` alone. */
  lemma TokenWithin(s: string, x: string, tail: string, p: nat, r: string)
    requires p + |AntiForgeryTokenName| <= |s| && OccursAt(s, AntiForgeryTokenName, p)
    requires x == s[0..p + |AntiForgeryTokenName|] + tail
    ensures p + |AntiForgeryTokenName| <= |x|
    ensures ReplaceWithin(x, AntiForgeryTokenName, r, p, |AntiForgeryTokenName|) == s[0..p] + r + tail
  {
    var L := |AntiForgeryTokenName|;
    assert x[..p] == s[..p];
    assert x[p..p + L] == AntiForgeryTokenName;
    assert x[p + L..] == tail;
    ReplaceWhole(AntiForgeryTokenName, r);
  }

  /**
   * The token callback is the generator `mint`: the call that follows `issued`
   * earlier calls returns `mint(issued)`. The method reports how many it drew.
   */
  method AntiForgeryTokenSubstitution(content: StringBuilder, mint: nat -> string, issued: nat)
    returns (minted: nat)
    modifies content
    ensures minted == |Occurrences(old(content.text), AntiForgeryTokenName)|
    ensures content.text == InjectTokens(old(content.text), mint, issued)
  {
    ghost var original := content.text;
    var tokens := Occurrences(content.text, AntiForgeryTokenName);
    ghost var rs := TokensFor(|tokens|, mint, issued);
    var j := |tokens|;
    minted := 0;
    assert tokens[j..] == [] && rs[j..] == [];
    while j > 0
      invariant 0 <= j <= |tokens| && minted == |tokens| - j
      invariant Spaced(tokens[j..], |AntiForgeryTokenName|, 0, |original|)
      invariant content.text == SpliceFrom(original, |AntiForgeryTokenName|, tokens[j..], rs[j..], 0)
    {
      SpliceOneMore(original, tokens, rs, j);
      j := j - 1;
      TokenOfPlaceholder(|tokens|, mint, issued, j, minted);
      var token := mint(issued + minted);
      content.ReplaceRange(AntiForgeryTokenName, token, tokens[j], |AntiForgeryTokenName|);
      minted := minted + 1;
    }
    assert tokens[0..] == tokens && rs[0..] == rs;
  }

  /** Were every minted token the same string, the handler would be a plain replace-all. */
  lemma InjectUniformIsReplaceAll(content: string, mint: nat -> string, issued: nat, t: string)
    requires forall k :: mint(k) == t
    ensures InjectTokens(content, mint, issued) == ReplaceAll(content, AntiForgeryTokenName, t)
  {
    var ps := Occurrences(content, AntiForgeryTokenName);
    assert TokensFor(|ps|, mint, issued) == Repeat(t, |ps|);
    ReplaceIsSplice(content, AntiForgeryTokenName, t, 0);
  }
}
