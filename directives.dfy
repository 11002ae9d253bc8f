/**
 * The directive handlers. Each is handed one directive token found in the
 * page (`%%Name=value%%`) together with the page buffer. Master builds a new
 * page around the buffer; Partial, PlaceHolder and Bundle edit the buffer in
 * place and hand it back.
 */
module Directives {
  import opened Wrappers
  import opened Text
  import opened Scanning
  import opened Templates
  import opened Builders
  import opened Substitutions

  /** Why a compile stops: the exceptions the code lets escape, by cause. */
  datatype CompileError =
    | TemplateNotFound(name: string)                    // FileNotFoundException from Compile
    | UnresolvedReference(directive: string, value: string) // null dereference after a failed lookup
    | EmptySearchString                                 // StringBuilder.Replace with an empty search string
    | NoFileExtension(path: string)                     // Substring(1) of an empty extension

  /** The registered directive handler objects, by class. */
  datatype DirectiveHandler = MasterPageHandler | PlaceHolderHandler | PartialPageHandler | BundleHandler

  function DirectivePhase(h: DirectiveHandler): Phase {
    match h
    case MasterPageHandler => CompilePhase
    case PlaceHolderHandler => AfterCompilePhase
    case PartialPageHandler => AfterCompilePhase
    case BundleHandler => AfterCompilePhase
  }

  /**
   * The template a directive value names: `DetermineKeyName` followed by the
   * `FirstOrDefault(x => x.FullName == name)` lookup. None is the null the
   * handlers then dereference.
   */
  function ResolveTemplate(ts: seq<TemplateInfo>, value: string): (r: Option<TemplateInfo>)
    ensures r.None? <==> forall j :: 0 <= j < |ts| ==> !MatchesShared(ts[j].fullName, value)
    ensures r.Some? ==> r.value in ts && MatchesShared(r.value.fullName, value)
    ensures r.Some? ==> DetermineKeyName(ts, value) == Some(r.value.fullName)
  {
    match DetermineKeyName(ts, value)
    case None => None
    case Some(k) => Lookup(ts, k)
  }

  // ---------------------------------------------------------------------------
  // MasterPageDirective (compile phase)
  // ---------------------------------------------------------------------------

  const ViewToken: string := "%%View%%"

  /** What Master hands back: the page it built and the layout it recorded as a dependency. */
  datatype MasterOutcome = MasterOutcome(page: string, dependency: Option<string>)

  /**
   * A Master directive makes the layout the page: its `%%View%%` slots are
   * filled with the current content and every copy of the directive token is
   * removed. Any other directive leaves the content as it is.
   */
  function MasterPage(m: DirectiveMatch, content: string, ts: seq<TemplateInfo>): (r: Result<MasterOutcome, CompileError>)
    requires |m.text| > 0
    ensures m.directive != "Master" ==> r == Success(MasterOutcome(content, None))
    ensures m.directive == "Master" ==>
      (r.Failure? <==> forall j :: 0 <= j < |ts| ==> !MatchesShared(ts[j].fullName, m.value))
    ensures r.Failure? ==> r.error == UnresolvedReference(m.directive, m.value)
    ensures m.directive == "Master" && r.Success? ==>
      && r.value.dependency == DetermineKeyName(ts, m.value)
      && r.value.page == ReplaceAll(ReplaceAll(ResolveTemplate(ts, m.value).value.template, ViewToken, content), m.text, [])
  {
    if m.directive != "Master" then Success(MasterOutcome(content, None))
    else match ResolveTemplate(ts, m.value)
      case None => Failure(UnresolvedReference(m.directive, m.value))
      case Some(layout) =>
        var finalPage := ReplaceAll(ReplaceAll(layout.template, ViewToken, content), m.text, []);
        Success(MasterOutcome(finalPage, Some(layout.fullName)))
  }

  /**
   * A layout with one `%%View%%` slot and no other '%' wraps the content: the
   * page is the layout's text around the content, and from the content only
   * the directive token is deleted.
   */
  lemma MasterWrapsContent(m: DirectiveMatch, content: string, ts: seq<TemplateInfo>, pre: string, post: string)
    requires WellFormedToken(m) && m.directive == "Master"
    requires ResolveTemplate(ts, m.value).Some?
    requires ResolveTemplate(ts, m.value).value.template == pre + ViewToken + post
    requires '%' !in pre && '%' !in post
    ensures MasterPage(m, content, ts).Success?
    ensures MasterPage(m, content, ts).value.page == pre + ReplaceAll(content, m.text, []) + post
  {
    ReplaceInFrame(pre, ViewToken, post, ViewToken, content);
    ReplaceWhole(ViewToken, content);
    assert m.text[0] == '%' && m.text[|m.text| - 1] == '%';
    ReplaceInFrame(pre, content, post, m.text, []);
  }

  /**
   * The directive token is gone from the page, provided that every '=' of the
   * filled layout lies inside one of the token copies the deletion scan finds
   * (without it, a deletion can join two pieces into a new token).
   */
  lemma MasterRemovesToken(m: DirectiveMatch, content: string, ts: seq<TemplateInfo>)
    requires WellFormedToken(m) && m.directive == "Master"
    requires ResolveTemplate(ts, m.value).Some?
    requires var filled := ReplaceAll(ResolveTemplate(ts, m.value).value.template, ViewToken, content);
      forall j :: 0 <= j < |filled| && filled[j] == '=' ==> CoveredBy(Occurrences(filled, m.text), |m.text|, j)
    ensures MasterPage(m, content, ts).Success?
    ensures !Contains(MasterPage(m, content, ts).value.page, m.text)
  {
    var filled := ReplaceAll(ResolveTemplate(ts, m.value).value.template, ViewToken, content);
    TokenHasEquals(m);
    DeleteAllLeavesNone(filled, m.text, '=');
  }

  // ---------------------------------------------------------------------------
  // PartialPageDirective (after-compile phase)
  // ---------------------------------------------------------------------------

  /** A Partial directive's token is replaced, everywhere, by the named template's raw text. */
  function PartialResult(m: DirectiveMatch, content: string, ts: seq<TemplateInfo>): (r: Result<string, CompileError>)
    requires |m.text| > 0
    ensures m.directive != "Partial" ==> r == Success(content)
    ensures m.directive == "Partial" ==>
      (r.Failure? <==> forall j :: 0 <= j < |ts| ==> !MatchesShared(ts[j].fullName, m.value))
    ensures r.Failure? ==> r.error == UnresolvedReference(m.directive, m.value)
  {
    if m.directive != "Partial" then Success(content)
    else match ResolveTemplate(ts, m.value)
      case None => Failure(UnresolvedReference(m.directive, m.value))
      case Some(partial) => Success(ReplaceAll(content, m.text, partial.template))
  }

  /** The handler edits the page buffer in place; it records no dependency. */
  method PartialPageDirective(m: DirectiveMatch, content: StringBuilder, ts: seq<TemplateInfo>)
    returns (r: Result<string, CompileError>)
    requires |m.text| > 0
    modifies content
    ensures r == PartialResult(m, old(content.text), ts)
    ensures content.text == if r.Success? then r.value else old(content.text)
  {
    if m.directive == "Partial" {
      var partial := ResolveTemplate(ts, m.value);
      if partial.None? {
        return Failure(UnresolvedReference(m.directive, m.value));
      }
      content.Replace(m.text, partial.value.template);
    }
    r := Success(content.text);
  }

  /** One token between '%'-free text: the partial's text takes exactly its place. */
  lemma PartialSplicesTemplate(m: DirectiveMatch, ts: seq<TemplateInfo>, pre: string, post: string)
    requires WellFormedToken(m) && m.directive == "Partial"
    requires ResolveTemplate(ts, m.value).Some?
    requires '%' !in pre && '%' !in post
    ensures PartialResult(m, pre + m.text + post, ts) == Success(pre + ResolveTemplate(ts, m.value).value.template + post)
  {
    assert m.text[0] == '%' && m.text[|m.text| - 1] == '%';
    ReplaceInFrame(pre, m.text, post, m.text, ResolveTemplate(ts, m.value).value.template);
    ReplaceWhole(m.text, ResolveTemplate(ts, m.value).value.template);
  }

  // ---------------------------------------------------------------------------
  // PlaceHolderDirective (after-compile phase)
  // ---------------------------------------------------------------------------

  function PlaceHolderOpen(value: string): string { "[" + value + "]" }
  function PlaceHolderClose(value: string): string { "[/" + value + "]" }

  /**
   * A Placeholder directive named V moves the body of the first `[V] .. [/V]`
   * block to the token's place and deletes the block; without such a block
   * the content stays as it is.
   */
  function PlaceHolderResult(m: DirectiveMatch, content: string): (r: string)
    requires |m.text| > 0
    ensures m.directive != "Placeholder" ==> r == content
    ensures FirstBlockFrom(content, PlaceHolderOpen(m.value), PlaceHolderClose(m.value), 0).None? ==> r == content
  {
    if m.directive != "Placeholder" then content
    else match FirstBlockFrom(content, PlaceHolderOpen(m.value), PlaceHolderClose(m.value), 0)
      case None => content
      case Some(b) => ReplaceAll(ReplaceAll(content, m.text, b.inner), b.text, [])
  }

  method PlaceHolderDirective(m: DirectiveMatch, content: StringBuilder) returns (r: string)
    requires |m.text| > 0
    modifies content
    ensures content.text == PlaceHolderResult(m, old(content.text)) && r == content.text
  {
    if m.directive == "Placeholder" {
      var placeholderMatch := FirstBlockFrom(content.text, PlaceHolderOpen(m.value), PlaceHolderClose(m.value), 0);
      if placeholderMatch.Some? {
        assert |placeholderMatch.value.text| > 0;
        content.Replace(m.text, placeholderMatch.value.inner);
        content.Replace(placeholderMatch.value.text, []);
      }
    }
    r := content.text;
  }

  lemma {:induction false} NoBlockFrom(s: string, open: string, close: string, i: nat)
    requires i <= |s| && forall j :: i <= j ==> !OccursAt(s, open, j)
    ensures FirstBlockFrom(s, open, close, i).None?
    decreases |s| - i
  {
    if i < |s| {
      NoBlockFrom(s, open, close, i + 1);
    }
  }

  /** Content that never opens the named block keeps the token. */
  lemma PlaceHolderWithoutBlock(m: DirectiveMatch, content: string)
    requires |m.text| > 0
    requires forall j :: !OccursAt(content, PlaceHolderOpen(m.value), j)
    ensures PlaceHolderResult(m, content) == content
  {
    NoBlockFrom(content, PlaceHolderOpen(m.value), PlaceHolderClose(m.value), 0);
  }

  /**
   * A page laid out as text, token, text, block, text: the block's body takes
   * the token's place and the block disappears, when the surrounding text
   * holds no character that could start or end another token or block.
   */
  lemma {:induction false} PlaceHolderMovesBody(m: DirectiveMatch, pre: string, mid: string, b: Block, post: string)
    requires WellFormedToken(m) && m.directive == "Placeholder"
    requires var content := pre + m.text + mid + b.text + post;
      FirstBlockFrom(content, PlaceHolderOpen(m.value), PlaceHolderClose(m.value), 0) == Some(b)
    requires '%' !in pre && '%' !in mid + b.text + post
    requires '[' !in pre + b.inner + mid && ']' !in post
    ensures PlaceHolderResult(m, pre + m.text + mid + b.text + post) == pre + b.inner + mid + post
  {
    assert m.text[0] == '%' && m.text[|m.text| - 1] == '%';
    assert b.text == PlaceHolderOpen(m.value) + b.inner + PlaceHolderClose(m.value);
    assert b.text[0] == '[' && b.text[|b.text| - 1] == ']';
    MoveBody(m.text, b.inner, b.text, pre, mid, post);
  }

  /**
   * The same layout with the block spelled out: `[V]`, a non-empty body
   * without '[', `[/V]`. The block is the first one the scan finds, so its
   * body takes the token's place.
   */
  lemma PlaceHolderMovesBlock(m: DirectiveMatch, pre: string, mid: string, body: string, post: string)
    requires WellFormedToken(m) && m.directive == "Placeholder"
    requires |body| > 0 && '[' !in m.value && '%' !in m.value
    requires '%' !in pre && '%' !in mid + body + post
    requires '[' !in pre + body + mid && ']' !in post
    ensures PlaceHolderResult(m, pre + m.text + mid + PlaceHolderOpen(m.value) + body + PlaceHolderClose(m.value) + post)
      == pre + body + mid + post
  {
    var open := PlaceHolderOpen(m.value);
    var close := PlaceHolderClose(m.value);
    var lead := pre + m.text + mid;
    TokenLacks(m, '[');
    assert '[' !in lead;
    assert open[0] == '[' && close[0] == '[';
    FirstBlockIs(lead, open, body, close, post);
    var b := Block(open + body + close, body);
    Regroup(pre, m.text, mid, open, body, close, post);
    NotInBlock('%', m.value, body);
    PlaceHolderMovesBody(m, pre, mid, b, post);
  }

  lemma Regroup(pre: string, t: string, mid: string, open: string, body: string, close: string, post: string)
    ensures (pre + t + mid) + open + body + close + post == pre + t + mid + (open + body + close) + post
  {
  }

  lemma NotInBlock(c: char, v: string, body: string)
    requires c != '[' && c != ']' && c != '/' && c !in v && c !in body
    ensures c !in PlaceHolderOpen(v) + body + PlaceHolderClose(v)
  {
  }

  /** A character that is none of '%', '=' and not in the name or the value is not in the token. */
  lemma TokenHasEquals(m: DirectiveMatch)
    requires WellFormedToken(m)
    ensures '=' in m.text
  {
    assert m.text[2 + |m.directive|] == '=';
  }

  lemma TokenLacks(m: DirectiveMatch, c: char)
    requires WellFormedToken(m) && c != '%' && c != '=' && c !in m.directive && c !in m.value
    ensures c !in m.text
  {
  }

  lemma {:induction false} MoveBody(token: string, body: string, block: string, pre: string, mid: string, post: string)
    requires |token| > 0 && token[0] == '%' && token[|token| - 1] == '%'
    requires |block| > 0 && block[0] == '[' && block[|block| - 1] == ']'
    requires '%' !in pre && '%' !in mid + block + post
    requires '[' !in pre + body + mid && ']' !in post
    ensures ReplaceAll(ReplaceAll(pre + token + mid + block + post, token, body), block, []) == pre + body + mid + post
  {
    var rest := mid + block + post;
    assert pre + token + mid + block + post == pre + token + rest;
    TokenTakesBody(token, body, pre, rest);
    assert pre + body + rest == (pre + body + mid) + block + post;
    BlockVanishes(block, pre + body + mid, post);
  }

  // ---------------------------------------------------------------------------
  // BundleDirective (after-compile phase; defined but not registered by the engine)
  // ---------------------------------------------------------------------------

  /** `Environment.NewLine` on the Windows hosts the library targets. */
  const NewLine: string := "\r\n"

  const CssIncludeOpen: string := "<link href=\""
  const CssIncludeClose: string := "\" rel=\"stylesheet\" type=\"text/css\" />"
  const JsIncludeOpen: string := "<script src=\""
  const JsIncludeClose: string := "\" type=\"text/javascript\"></script>"

  /** Directory and volume separators that end `Path.GetExtension`'s backward scan. */
  predicate IsPathSeparator(c: char) { c == '\\' || c == '/' || c == ':' }

  predicate StopsExtensionScan(c: char) { c == '.' || IsPathSeparator(c) }

  /** The last index below `hi` holding a '.' or a separator. */
  function LastStop(path: string, hi: nat): (r: Option<nat>)
    requires hi <= |path|
    ensures r.Some? ==> r.value < hi && StopsExtensionScan(path[r.value])
    ensures r.Some? ==> forall j :: r.value < j < hi ==> !StopsExtensionScan(path[j])
    ensures r.None? ==> forall j :: 0 <= j < hi ==> !StopsExtensionScan(path[j])
  {
    if hi == 0 then None
    else if StopsExtensionScan(path[hi - 1]) then Some(hi - 1)
    else LastStop(path, hi - 1)
  }

  /**
   * `Path.GetExtension(path).Substring(1)`: the text after the last '.' of the
   * last path segment. None where GetExtension yields "", that is where the
   * segment has no '.' or ends with one, and Substring(1) throws.
   */
  function Extension(path: string): (r: Option<string>)
    ensures r.Some? ==>
      && 0 < |r.value| < |path| && path[|path| - |r.value| - 1] == '.'
      && r.value == path[|path| - |r.value|..]
      && forall j :: |path| - |r.value| <= j < |path| ==> !StopsExtensionScan(path[j])
    ensures r.None? ==>
      || (|path| > 0 && path[|path| - 1] == '.')
      || forall j :: 0 <= j < |path| && path[j] == '.' ==> exists k :: j < k < |path| && IsPathSeparator(path[k])
  {
    match LastStop(path, |path|)
    case None => None
    case Some(k) =>
      if path[k] != '.' then
        assert forall j :: 0 <= j < |path| && path[j] == '.' ==> j < k;
        None
      else if k == |path| - 1 then None
      else Some(path[k + 1..])
  }

  /** Bare file names live in the shared folder, under a sub-folder named by the extension. */
  function BundleHref(sharedResourceFolderPath: string, path: string, extension: string): string {
    if '/' in path then path else sharedResourceFolderPath + "/" + extension + "/" + path
  }

  class BundleDirective {
    const debugMode: bool
    const sharedResourceFolderPath: string
    /** The `getBundleFiles` callback as a table; a name it lacks is the callback returning null. */
    const bundleFiles: map<string, seq<string>>
    var bundleLinkResults: map<string, string>

    /** Every cached entry is what a fresh computation of that bundle's links gives. */
    ghost predicate Valid()
      reads this
    {
      forall name :: name in bundleLinkResults ==> BundleLinks(name) == Success(bundleLinkResults[name])
    }

    constructor (debugMode: bool, sharedResourceFolderPath: string, bundleFiles: map<string, seq<string>>)
      ensures this.debugMode == debugMode && this.sharedResourceFolderPath == sharedResourceFolderPath
      ensures this.bundleFiles == bundleFiles && bundleLinkResults == map[]
      ensures Valid()
    {
      this.debugMode := debugMode;
      this.sharedResourceFolderPath := sharedResourceFolderPath;
      this.bundleFiles := bundleFiles;
      bundleLinkResults := map[];
    }

    /**
     * The include tag for one file: a stylesheet link for ".css", a script tag
     * for ".js" (either case), nothing for other extensions, and a failure for
     * a path without one.
     */
    function ProcessBundleLink(bundlePath: string): (r: Result<string, CompileError>)
      ensures Extension(bundlePath).None? <==> r == Failure(NoFileExtension(bundlePath))
      ensures Extension(bundlePath).Some? ==>
        var extension := ToLower(Extension(bundlePath).value);
        var href := BundleHref(sharedResourceFolderPath, bundlePath, extension);
        && (extension == "css" ==> r == Success(CssIncludeOpen + href + CssIncludeClose))
        && (extension == "js" ==> r == Success(JsIncludeOpen + href + JsIncludeClose))
        && (extension != "css" && extension != "js" ==> r == Success(""))
    {
      match Extension(bundlePath)
      case None => Failure(NoFileExtension(bundlePath))
      case Some(e) =>
        var extension := ToLower(e);
        var modifiedBundlePath := BundleHref(sharedResourceFolderPath, bundlePath, extension);
        if extension == "css" then Success(CssIncludeOpen + modifiedBundlePath + CssIncludeClose)
        else if extension == "js" then Success(JsIncludeOpen + modifiedBundlePath + JsIncludeClose)
        else Success("")
    }

    /** One `AppendLine(ProcessBundleLink(p))` per path, stopping at the first path that fails. */
    function FileLinks(paths: seq<string>): (r: Result<string, CompileError>)
      ensures r.Failure? ==> exists p :: p in paths && Extension(p).None? && r.error == NoFileExtension(p)
    {
      if paths == [] then Success("")
      else match FileLinks(paths[..|paths| - 1])
        case Failure(e) => Failure(e)
        case Success(links) =>
          match ProcessBundleLink(paths[|paths| - 1])
          case Failure(e) => Failure(e)
          case Success(tag) => Success(links + tag + NewLine)
    }

    /** What a first use of the bundle `name` emits (and caches). */
    function BundleLinks(name: string): (r: Result<string, CompileError>)
      ensures r.Failure? ==> r.error.NoFileExtension?
    {
      if name == "" then Success("")
      else if debugMode then (if name in bundleFiles then FileLinks(bundleFiles[name]) else Success(""))
      else match ProcessBundleLink(name)
        case Failure(e) => Failure(e)
        case Success(tag) => Success(tag + NewLine)
    }

    /**
     * The handler against an explicit cache: a cached bundle is re-emitted with
     * one more line break (`AppendLine` of the cached text), a new one is
     * computed and cached, and the token is replaced by the links.
     */
    function Step(cache: map<string, string>, m: DirectiveMatch, content: string): (r: Result<(string, map<string, string>), CompileError>)
      requires |m.text| > 0
      ensures m.directive != "Bundle" ==> r == Success((content, cache))
      ensures r.Failure? ==> r.error.NoFileExtension?
      ensures m.directive == "Bundle" && m.value in cache ==>
        r == Success((ReplaceAll(content, m.text, cache[m.value] + NewLine), cache))
      ensures m.directive == "Bundle" && m.value !in cache ==>
        (r.Failure? <==> BundleLinks(m.value).Failure?)
        && (r.Success? ==>
              && r.value.1 == cache[m.value := BundleLinks(m.value).value]
              && r.value.0 == ReplaceAll(content, m.text, BundleLinks(m.value).value))
    {
      if m.directive != "Bundle" then Success((content, cache))
      else if m.value in cache then Success((ReplaceAll(content, m.text, cache[m.value] + NewLine), cache))
      else match BundleLinks(m.value)
        case Failure(e) => Failure(e)
        case Success(links) => Success((ReplaceAll(content, m.text, links), cache[m.value := links]))
    }

    method Process(m: DirectiveMatch, content: StringBuilder) returns (r: Result<string, CompileError>)
      requires |m.text| > 0 && Valid()
      modifies this, content
      ensures Valid()
      ensures var step := Step(old(bundleLinkResults), m, old(content.text));
        && (step.Success? ==>
              && r == Success(content.text) && content.text == step.value.0
              && bundleLinkResults == step.value.1)
        && (step.Failure? ==>
              && r == Failure(step.error) && content.text == old(content.text)
              && bundleLinkResults == old(bundleLinkResults))
    {
      if m.directive == "Bundle" {
        var fileLinkBuilder;
        var bundleName := m.value;
        if bundleName in bundleLinkResults {
          fileLinkBuilder := bundleLinkResults[bundleName] + NewLine;
        } else {
          var links := ComputeBundleLinks(bundleName);
          if links.Failure? {
            return Failure(links.error);
          }
          fileLinkBuilder := links.value;
          bundleLinkResults := bundleLinkResults[bundleName := fileLinkBuilder];
        }
        content.Replace(m.text, fileLinkBuilder);
      }
      r := Success(content.text);
    }

    /** The `foreach` over a bundle's files, appending one tag line per file. */
    method LinkFiles(bundles: seq<string>) returns (r: Result<string, CompileError>)
      ensures r == FileLinks(bundles)
    {
      var fileLinkBuilder := "";
      var i := 0;
      while i < |bundles|
        invariant 0 <= i <= |bundles|
        invariant FileLinks(bundles[..i]) == Success(fileLinkBuilder)
      {
        assert bundles[..i + 1][..i] == bundles[..i];
        var tag := ProcessBundleLink(bundles[i]);
        if tag.Failure? {
          FileLinksFailurePersists(bundles, i + 1);
          return Failure(tag.error);
        }
        fileLinkBuilder := fileLinkBuilder + tag.value + NewLine;
        i := i + 1;
      }
      assert bundles[..|bundles|] == bundles;
      r := Success(fileLinkBuilder);
    }

    /** The links of a bundle not yet cached: one tag per file in debug mode, the bundle itself otherwise. */
    method ComputeBundleLinks(bundleName: string) returns (r: Result<string, CompileError>)
      ensures r == BundleLinks(bundleName)
    {
      if bundleName == "" {
        r := Success("");
      } else if debugMode {
        if bundleName in bundleFiles {
          r := LinkFiles(bundleFiles[bundleName]);
        } else {
          r := Success("");
        }
      } else {
        var tag := ProcessBundleLink(bundleName);
        if tag.Failure? {
          return Failure(tag.error);
        }
        r := Success(tag.value + NewLine);
      }
    }

    /** Once a prefix of the paths fails, so do the links of every longer prefix. */
    lemma {:induction false} FileLinksFailurePersists(paths: seq<string>, i: nat)
      requires 0 < i <= |paths| && FileLinks(paths[..i]).Failure?
      ensures FileLinks(paths).Failure? && FileLinks(paths).error == FileLinks(paths[..i]).error
      decreases |paths| - i
    {
      if i < |paths| {
        assert paths[..i + 1][..i] == paths[..i];
        FileLinksFailurePersists(paths, i + 1);
      } else {
        assert paths[..i] == paths;
      }
    }

    /** In release mode the bundle name is the one file to link. */
    lemma ReleaseBundleIsOneLink(name: string)
      requires !debugMode && name != "" && ProcessBundleLink(name).Success?
      ensures BundleLinks(name) == Success(ProcessBundleLink(name).value + NewLine)
    {
    }

    /**
     * Every use of a bundle after the first emits the first use's links plus
     * one more line break.
     */
    lemma ReuseAddsLineBreak(m: DirectiveMatch, content: string, cache: map<string, string>)
      requires |m.text| > 0 && m.directive == "Bundle" && m.value in cache
      requires forall name :: name in cache ==> BundleLinks(name) == Success(cache[name])
      ensures Step(cache, m, content) == Success((ReplaceAll(content, m.text, BundleLinks(m.value).value + NewLine), cache))
    {
    }
  }
}
