/**
 * Render-time tag substitution on a compiled view: white-space-only lines are
 * deleted, each tag's placeholders are replaced according to their opening
 * mark, and every tag-shaped placeholder left over is deleted.
 */
module Tags {
  import opened Wrappers
  import opened Text
  import opened Scanning
  import opened Builders

  /** `HttpUtility.HtmlEncode` and `Markdown.Transform`, left uninterpreted. */
  datatype Encoders = Encoders(htmlEncode: string -> string, markdown: string -> string)

  const UnencodedTagHint: string := "{{"
  const TagEncodingHint: string := "{|"
  const MarkdownEncodingHint: string := "{!"

  /** Each listed string, in turn, replaced everywhere by "". */
  function DeleteEach(s: string, ms: seq<string>): string
    requires forall k :: 0 <= k < |ms| ==> |ms[k]| > 0
    decreases |ms|
  {
    if ms == [] then s else DeleteEach(ReplaceAll(s, ms[0], []), ms[1..])
  }

  /** The `emptyLines` loop: every match of the white-line scan deleted. */
  function RemoveWhiteLines(s: string): string {
    DeleteEach(s, WhiteLinesFrom(s, 0))
  }

  /** A white line opening the view is deleted with its line break; text without white space stays. */
  lemma WhiteLineRemoved(w: string, t: string)
    requires |w| > 0 && forall j :: 0 <= j < |w| ==> IsWhiteSpace(w[j])
    requires |t| > 0 && forall j :: 0 <= j < |t| ==> !IsWhiteSpace(t[j])
    ensures RemoveWhiteLines(w + "\n" + t) == t
  {
    var x := w + "\n";
    var s := x + t;
    assert s == w + "\n" + t;
    assert s[|x|] == t[0] && s[|x| - 1] == '\n';
    WhiteLineFound(s, 0, |x|);
    NoWhiteLines(s, |x|);
    assert s[0..|x|] == x;
    assert WhiteLinesFrom(s, 0) == [x];
    var ms: seq<string> := [x];
    assert ms[1..] == [];
    assert DeleteEach(s, ms) == DeleteEach(ReplaceAll(s, x, []), []);
    assert x[0] !in t;
    ReplaceLeading(x, t);
  }

  /** What a matched placeholder becomes, chosen by its opening mark; None where no hint applies. */
  function TagText(m: string, value: string, enc: Encoders): Option<string> {
    if StartsWith(m, UnencodedTagHint) then Some(Trim(value))
    else if StartsWith(m, TagEncodingHint) then Some(enc.htmlEncode(Trim(value)))
    else if StartsWith(m, MarkdownEncodingHint) then Some(enc.markdown(Trim(value)))
    else None
  }

  /** One match of a tag's placeholder pattern; an empty value replaces nothing. */
  function ApplyMatch(s: string, m: string, value: string, enc: Encoders): string
    requires |m| > 0
  {
    if value == "" then s
    else match TagText(m, value, enc)
      case None => s
      case Some(t) => ReplaceAll(s, m, t)
  }

  function ApplyMatches(s: string, ms: seq<string>, value: string, enc: Encoders): string
    requires forall k :: 0 <= k < |ms| ==> |ms[k]| > 0
    decreases |ms|
  {
    if ms == [] then s else ApplyMatches(ApplyMatch(s, ms[0], value, enc), ms[1..], value, enc)
  }

  /** The loop over the tag dictionary, in its enumeration order. */
  function ApplyTags(s: string, tags: seq<(string, string)>, enc: Encoders): string
    decreases |tags|
  {
    if tags == [] then s
    else
      var ms := KeyPlaceholdersFrom(s, tags[0].0, 0);
      ApplyTags(ApplyMatches(s, ms, tags[0].1, enc), tags[1..], enc)
  }

  /** The final scan: every tag-shaped placeholder it finds deleted. */
  function RemoveLeftovers(s: string): string {
    DeleteEach(s, TagPlaceholdersFrom(s, 0))
  }

  /** The whole tag stage of `Render`, for a non-null tag dictionary. */
  function RenderTags(s: string, tags: seq<(string, string)>, enc: Encoders): string {
    RemoveLeftovers(ApplyTags(RemoveWhiteLines(s), tags, enc))
  }

  /**
   * The tag stage as the code runs it on the view buffer: three match loops
   * (white lines, each tag's placeholders, leftovers), each scan taken on the
   * buffer as it stands when the loop starts.
   */
  method RenderTagsIn(content: StringBuilder, tags: seq<(string, string)>, enc: Encoders)
    modifies content
    ensures content.text == RenderTags(old(content.text), tags, enc)
  {
    var emptyLines := WhiteLinesFrom(content.text, 0);
    DeleteEachIn(content, emptyLines);
    ghost var s1 := content.text;
    var t := 0;
    while t < |tags|
      invariant 0 <= t <= |tags|
      invariant ApplyTags(content.text, tags[t..], enc) == ApplyTags(s1, tags, enc)
    {
      assert tags[t..][1..] == tags[t + 1..];
      var tagMatches := KeyPlaceholdersFrom(content.text, tags[t].0, 0);
      ApplyMatchesIn(content, tagMatches, tags[t].1, enc);
      t := t + 1;
    }
    var leftoverMatches := TagPlaceholdersFrom(content.text, 0);
    DeleteEachIn(content, leftoverMatches);
  }

  /** A match loop deleting each match, in scan order, from the whole buffer. */
  method DeleteEachIn(content: StringBuilder, ms: seq<string>)
    requires forall k :: 0 <= k < |ms| ==> |ms[k]| > 0
    modifies content
    ensures content.text == DeleteEach(old(content.text), ms)
  {
    ghost var s0 := content.text;
    var k := 0;
    while k < |ms|
      invariant 0 <= k <= |ms|
      invariant DeleteEach(content.text, ms[k..]) == DeleteEach(s0, ms)
    {
      assert ms[k..][1..] == ms[k + 1..];
      content.Replace(ms[k], []);
      k := k + 1;
    }
  }

  /** The loop over one tag's matches: each replaced as its opening mark says, or left when the value is empty. */
  method ApplyMatchesIn(content: StringBuilder, tagMatches: seq<string>, value: string, enc: Encoders)
    requires forall k :: 0 <= k < |tagMatches| ==> |tagMatches[k]| > 0
    modifies content
    ensures content.text == ApplyMatches(old(content.text), tagMatches, value, enc)
  {
    ghost var sTag := content.text;
    var j := 0;
    while j < |tagMatches|
      invariant 0 <= j <= |tagMatches|
      invariant ApplyMatches(content.text, tagMatches[j..], value, enc) == ApplyMatches(sTag, tagMatches, value, enc)
    {
      assert tagMatches[j..][1..] == tagMatches[j + 1..];
      var m := tagMatches[j];
      if value != "" {
        if StartsWith(m, UnencodedTagHint) {
          content.Replace(m, Trim(value));
        } else if StartsWith(m, TagEncodingHint) {
          content.Replace(m, enc.htmlEncode(Trim(value)));
        } else if StartsWith(m, MarkdownEncodingHint) {
          content.Replace(m, enc.markdown(Trim(value)));
        }
      }
      j := j + 1;
    }
  }

  // ---------------------------------------------------------------------------
  // One tag
  // ---------------------------------------------------------------------------

  /** A tag with an empty value leaves the text alone, whatever it matched. */
  lemma {:induction false} EmptyValueReplacesNothing(s: string, ms: seq<string>, enc: Encoders)
    requires forall k :: 0 <= k < |ms| ==> |ms[k]| > 0
    ensures ApplyMatches(s, ms, "", enc) == s
  {
    if ms != [] {
      EmptyValueReplacesNothing(s, ms[1..], enc);
    }
  }

  /** The placeholder's opening mark alone decides the encoding; the closing mark does not matter. */
  lemma TagTextByOpeningMark(m: string, key: string, value: string, enc: Encoders)
    requires IsKeyPlaceholder(m, key)
    ensures m[1] == '{' ==> TagText(m, value, enc) == Some(Trim(value))
    ensures m[1] == '|' ==> TagText(m, value, enc) == Some(enc.htmlEncode(Trim(value)))
    ensures m[1] == '!' ==> TagText(m, value, enc) == Some(enc.markdown(Trim(value)))
  {
    assert m[0..2] == [m[0], m[1]];
  }

  lemma {:induction false} KeyScanSkip(s: string, key: string, i: nat, e: nat)
    requires i <= e <= |s| && forall j :: i <= j < e ==> s[j] != '{'
    ensures KeyPlaceholdersFrom(s, key, i) == KeyPlaceholdersFrom(s, key, e)
    decreases e - i
  {
    if i < e {
      KeyScanSkip(s, key, i + 1, e);
    }
  }

  /**
   * A text holding one placeholder for `key` and no other '{' (and no '}'
   * after it) renders as the text around the placeholder's replacement.
   */
  lemma OneTagRendered(pre: string, m: string, post: string, key: string, value: string, enc: Encoders)
    requires IsKeyPlaceholder(m, key) && value != ""
    requires '{' !in pre && '{' !in post && '}' !in post
    ensures var s := pre + m + post;
      ApplyMatches(s, KeyPlaceholdersFrom(s, key, 0), value, enc) == pre + TagText(m, value, enc).value + post
  {
    var s := pre + m + post;
    KeyScanSkip(s, key, 0, |pre|);
    assert s[|pre|..|pre| + |key| + 4] == m;
    KeyScanSkip(s, key, |pre| + |m|, |s|);
    var ms := KeyPlaceholdersFrom(s, key, 0);
    assert ms == [m];
    TagTextByOpeningMark(m, key, value, enc);
    var t := TagText(m, value, enc).value;
    ReplaceInFrame(pre, m, post, m, t);
    ReplaceWhole(m, t);
    assert ms[1..] == [];
  }

  // ---------------------------------------------------------------------------
  // Leftover placeholders. Deleting one match can join its neighbours into a
  // new placeholder, so "none remain" needs a text whose braces all belong to
  // whole placeholders: a sequence of brace-free plain pieces and placeholders.
  // ---------------------------------------------------------------------------

  datatype Piece = Plain(text: string) | Placeholder(text: string)

  predicate PieceOk(p: Piece) {
    match p
    case Plain(x) => '{' !in x
    case Placeholder(t) => IsTagPlaceholder(t)
  }

  predicate WellPieced(ps: seq<Piece>) {
    forall k :: 0 <= k < |ps| ==> PieceOk(ps[k])
  }

  function Flatten(ps: seq<Piece>): string {
    if ps == [] then [] else ps[0].text + Flatten(ps[1..])
  }

  function PlaceholderTexts(ps: seq<Piece>): (ts: seq<string>)
    ensures WellPieced(ps) ==> forall k :: 0 <= k < |ts| ==> |ts[k]| > 0 && IsTagPlaceholder(ts[k])
    ensures forall p :: p in ps && p.Placeholder? ==> p.text in ts
  {
    if ps == [] then []
    else (if ps[0].Placeholder? then [ps[0].text] else []) + PlaceholderTexts(ps[1..])
  }

  /** The pieces without the placeholders spelled `t`. */
  function Without(ps: seq<Piece>, t: string): (r: seq<Piece>)
    ensures WellPieced(ps) ==> WellPieced(r)
    ensures forall p :: p in r ==> p in ps && p != Placeholder(t)
  {
    if ps == [] then []
    else (if ps[0] == Placeholder(t) then [] else [ps[0]]) + Without(ps[1..], t)
  }

  function WithoutAll(ps: seq<Piece>, ts: seq<string>): (r: seq<Piece>)
    ensures WellPieced(ps) ==> WellPieced(r)
    ensures forall p :: p in r ==> p in ps && (p.Placeholder? ==> p.text !in ts)
    decreases |ts|
  {
    if ts == [] then ps else WithoutAll(Without(ps, ts[0]), ts[1..])
  }

  /** A placeholder that occurs at the start of another is that placeholder. */
  lemma PlaceholderPrefixUnique(t: string, p: string, rest: string)
    requires IsTagPlaceholder(t) && IsTagPlaceholder(p) && OccursAt(p + rest, t, 0)
    ensures t == p
  {
    var s := p + rest;
    assert s[..|t|] == t;
    RunEndAt(s, 2, |t| - 2, IsWordChar);
    RunEndAt(s, 2, |p| - 2, IsWordChar);
    assert s[..|p|] == p;
  }

  /** Inside a placeholder no other placeholder starts. */
  lemma NoPlaceholderInside(t: string, p: string, rest: string, j: nat)
    requires IsTagPlaceholder(t) && IsTagPlaceholder(p) && 0 < j < |p|
    ensures !OccursAt(p + rest, t, j)
  {
    if OccursAt(p + rest, t, j) {
      OccursEnds(p + rest, t, j);
      assert false;
    }
  }

  /** A text made of pieces, without the pieces spelled `t`. */
  lemma {:induction false} DeleteOnePlaceholder(ps: seq<Piece>, t: string)
    requires WellPieced(ps) && IsTagPlaceholder(t)
    ensures ReplaceAll(Flatten(ps), t, []) == Flatten(Without(ps, t))
  {
    if ps != [] {
      var x := ps[0].text;
      var rest := Flatten(ps[1..]);
      assert PieceOk(ps[0]);
      assert WellPieced(ps[1..]) by { forall k | 0 <= k < |ps[1..]| ensures PieceOk(ps[1..][k]) { assert ps[1..][k] == ps[k + 1]; } }
      DeleteOnePlaceholder(ps[1..], t);
      ReplaceShift(x, rest, t, [], 0);
      var kept := Without(ps[1..], t);
      assert Flatten([ps[0]] + kept) == x + Flatten(kept) by {
        assert ([ps[0]] + kept)[0] == ps[0] && ([ps[0]] + kept)[1..] == kept;
      }
      if ps[0].Plain? {
        ReplacePrefixSkip(x, rest, t, [], 0);
      } else if x == t {
        assert Without(ps, t) == kept;
        assert (x + rest)[0..|t|] == t;
        assert ReplaceFrom(x + rest, t, [], 0) == [] + ReplaceFrom(x + rest, t, [], |x|);
      } else {
        forall j | 0 <= j < |x| ensures !OccursAt(x + rest, t, j) {
          if j == 0 {
            if OccursAt(x + rest, t, 0) { PlaceholderPrefixUnique(t, x, rest); }
          } else {
            NoPlaceholderInside(t, x, rest, j);
          }
        }
        ReplaceCopy(x + rest, t, [], 0, |x|);
        assert (x + rest)[0..|x|] == x;
      }
    }
  }

  lemma {:induction false} DeleteEachPlaceholder(ps: seq<Piece>, ts: seq<string>)
    requires WellPieced(ps) && forall k :: 0 <= k < |ts| ==> |ts[k]| > 0 && IsTagPlaceholder(ts[k])
    ensures DeleteEach(Flatten(ps), ts) == Flatten(WithoutAll(ps, ts))
    decreases |ts|
  {
    if ts != [] {
      DeleteOnePlaceholder(ps, ts[0]);
      DeleteEachPlaceholder(Without(ps, ts[0]), ts[1..]);
    }
  }

  lemma {:induction false} TagScanSkip(s: string, i: nat, e: nat)
    requires i <= e <= |s| && forall j :: i <= j < e ==> s[j] != '{'
    ensures TagPlaceholdersFrom(s, i) == TagPlaceholdersFrom(s, e)
    decreases e - i
  {
    if i < e {
      TagScanSkip(s, i + 1, e);
    }
  }

  /** On a pieced text the final scan finds exactly the placeholder pieces, in order. */
  lemma ScanFindsPlaceholders(ps: seq<Piece>)
    requires WellPieced(ps)
    ensures TagPlaceholdersFrom(Flatten(ps), 0) == PlaceholderTexts(ps)
  {
    ScanFindsPlaceholdersAt(ps, Flatten(ps), 0);
  }

  /** The same scan started at `d`, where the pieced text is the rest of `s`. */
  lemma {:induction false} ScanFindsPlaceholdersAt(ps: seq<Piece>, s: string, d: nat)
    requires WellPieced(ps) && d <= |s| && s[d..] == Flatten(ps)
    ensures TagPlaceholdersFrom(s, d) == PlaceholderTexts(ps)
    decreases |ps|
  {
    if ps == [] {
      assert d == |s|;
    } else {
      var x := ps[0].text;
      WellPiecedTail(ps);
      FlattenAt(ps, s, d);
      ScanFindsPlaceholdersAt(ps[1..], s, d + |x|);
      var tail := PlaceholderTexts(ps[1..]);
      assert TagPlaceholdersFrom(s, d + |x|) == tail;
      if ps[0].Plain? {
        ScanPastPlain(s, d, x);
        assert TagPlaceholdersFrom(s, d) == tail;
        assert PlaceholderTexts(ps) == [] + tail;
      } else {
        ScanAtPlaceholder(s, d, x);
        assert TagPlaceholdersFrom(s, d) == [x] + tail;
        assert PlaceholderTexts(ps) == [x] + tail;
      }
    }
  }

  lemma WellPiecedTail(ps: seq<Piece>)
    requires WellPieced(ps) && ps != []
    ensures PieceOk(ps[0]) && WellPieced(ps[1..])
  {
    assert PieceOk(ps[0]);
    forall k | 0 <= k < |ps[1..]| ensures PieceOk(ps[1..][k]) {
      assert ps[1..][k] == ps[k + 1];
    }
  }

  lemma FlattenAt(ps: seq<Piece>, s: string, d: nat)
    requires ps != [] && d <= |s| && s[d..] == Flatten(ps)
    ensures var x := ps[0].text;
      d + |x| <= |s| && s[d..d + |x|] == x && s[d + |x|..] == Flatten(ps[1..])
  {
    var x := ps[0].text;
    assert s[d..] == x + Flatten(ps[1..]);
    assert s[d..][..|x|] == x;
    assert s[d..][|x|..] == Flatten(ps[1..]);
  }

  lemma ScanPastPlain(s: string, d: nat, x: string)
    requires d + |x| <= |s| && s[d..d + |x|] == x && '{' !in x
    ensures TagPlaceholdersFrom(s, d) == TagPlaceholdersFrom(s, d + |x|)
  {
    forall j | d <= j < d + |x| ensures s[j] != '{' {
      assert s[j] == s[d..d + |x|][j - d];
    }
    TagScanSkip(s, d, d + |x|);
  }

  lemma ScanAtPlaceholder(s: string, d: nat, x: string)
    requires d + |x| <= |s| && s[d..d + |x|] == x && IsTagPlaceholder(x)
    ensures TagPlaceholdersFrom(s, d) == [x] + TagPlaceholdersFrom(s, d + |x|)
  {
    var e := d + |x|;
    forall j | 0 <= j < |x| ensures s[d + j] == x[j] {
      assert s[d + j] == s[d..e][j];
    }
    assert s[d] == '{' && IsTagOpen(s[d + 1]) && IsTagClose(s[e - 2]) && s[e - 1] == '}';
    forall j | d + 2 <= j < e - 2 ensures IsWordChar(s[j]) {
      assert s[j] == x[j - d];
    }
    RunEndAt(s, d + 2, e - 2, IsWordChar);
    assert TagPlaceholderAt(s, d) == Some(e);
  }

  lemma {:induction false} PlainsAreBraceFree(ps: seq<Piece>)
    requires WellPieced(ps) && forall p :: p in ps ==> p.Plain?
    ensures '{' !in Flatten(ps)
  {
    if ps != [] {
      assert PieceOk(ps[0]);
      assert WellPieced(ps[1..]) by { forall k | 0 <= k < |ps[1..]| ensures PieceOk(ps[1..][k]) { assert ps[1..][k] == ps[k + 1]; } }
      PlainsAreBraceFree(ps[1..]);
    }
  }

  lemma {:induction false} NoBraceNoPlaceholder(s: string, i: nat)
    requires i <= |s| && '{' !in s
    ensures TagPlaceholdersFrom(s, i) == []
    decreases |s| - i
  {
    if i < |s| {
      NoBraceNoPlaceholder(s, i + 1);
    }
  }

  /**
   * On a text whose braces all belong to whole placeholders, the leftover
   * deletion removes exactly the placeholders: the plain text survives in
   * order, no '{' is left, and a new scan finds no placeholder.
   */
  lemma LeftoversGone(ps: seq<Piece>)
    requires WellPieced(ps)
    ensures var r := RemoveLeftovers(Flatten(ps));
      && r == Flatten(WithoutAll(ps, PlaceholderTexts(ps)))
      && '{' !in r
      && TagPlaceholdersFrom(r, 0) == []
  {
    var ts := PlaceholderTexts(ps);
    ScanFindsPlaceholders(ps);
    DeleteEachPlaceholder(ps, ts);
    var left := WithoutAll(ps, ts);
    PlainsAreBraceFree(left);
    NoBraceNoPlaceholder(Flatten(left), 0);
  }
}
