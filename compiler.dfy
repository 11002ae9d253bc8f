/**
 * The view compiler (ViewCompiler): the directive passes over a page buffer,
 * the compile-phase substitutions between them, compilation of one view into
 * the compiled-view registry, recompilation of a view's dependents, and the
 * render step that turns a compiled view into a result.
 *
 * Each operation is a method on the `ViewCompiler` object, proved against a
 * function of the compiler's state (`CompilerState`); the properties of the
 * compiler are lemmas about those functions.
 */
module Compiler {
  import opened Wrappers
  import opened Text
  import opened Scanning
  import opened Templates
  import opened Builders
  import opened Substitutions
  import opened Directives
  import opened Tags

  predicate NoDuplicates(xs: seq<string>) {
    forall i, j :: 0 <= i < j < |xs| ==> xs[i] != xs[j]
  }

  /** `addPageDependency`: a name is recorded once, at the end of the list. */
  function AddDependency(deps: seq<string>, x: string): (r: seq<string>)
    ensures x in r
    ensures forall y :: y in r <==> y in deps || y == x
    ensures |deps| <= |r| && r[..|deps|] == deps
    ensures NoDuplicates(deps) ==> NoDuplicates(r)
  {
    if x in deps then deps else deps + [x]
  }

  /** `r` extends `deps` at the end. */
  predicate Extends(r: seq<string>, deps: seq<string>) {
    |deps| <= |r| && r[..|deps|] == deps
  }

  /** The registered handlers and the callbacks the compiler is built with. */
  datatype Setup = Setup(
    directiveHandlers: seq<DirectiveHandler>,
    substitutionHandlers: seq<SubstitutionHandler>,
    bundle: BundleDirective,
    mint: nat -> string,
    encoders: Encoders)

  /** `Where(x => x.Type == phase)` over the directive handlers. */
  function DirectivesIn(hs: seq<DirectiveHandler>, phase: Phase): (r: seq<DirectiveHandler>)
    ensures forall h :: h in r <==> h in hs && DirectivePhase(h) == phase
    ensures |r| <= |hs|
  {
    if hs == [] then []
    else (if DirectivePhase(hs[0]) == phase then [hs[0]] else []) + DirectivesIn(hs[1..], phase)
  }

  /** `Where(x => x.Type == phase)` over the substitution handlers. */
  function SubstitutionsIn(hs: seq<SubstitutionHandler>, phase: Phase): (r: seq<SubstitutionHandler>)
    ensures forall h :: h in r <==> h in hs && SubstitutionPhase(h) == phase
    ensures |r| <= |hs|
  {
    if hs == [] then []
    else (if SubstitutionPhase(hs[0]) == phase then [hs[0]] else []) + SubstitutionsIn(hs[1..], phase)
  }

  /** The handlers the application registers, in registration order (the Bundle directive is not among them). */
  const RegisteredDirectives: seq<DirectiveHandler> := [MasterPageHandler, PlaceHolderHandler, PartialPageHandler]
  const RegisteredSubstitutions: seq<SubstitutionHandler> := [CommentHandler, AntiForgeryTokenHandler, HeadHandler]

  /** Which registered handler runs in which phase, in the order each phase runs them. */
  lemma RegisteredPhases()
    ensures DirectivesIn(RegisteredDirectives, CompilePhase) == [MasterPageHandler]
    ensures DirectivesIn(RegisteredDirectives, AfterCompilePhase) == [PlaceHolderHandler, PartialPageHandler]
    ensures DirectivesIn(RegisteredDirectives, RenderPhase) == []
    ensures SubstitutionsIn(RegisteredSubstitutions, CompilePhase) == [CommentHandler, HeadHandler]
    ensures SubstitutionsIn(RegisteredSubstitutions, RenderPhase) == [AntiForgeryTokenHandler]
  {
    RegisteredDirectivePhases(CompilePhase);
    RegisteredDirectivePhases(AfterCompilePhase);
    RegisteredDirectivePhases(RenderPhase);
    RegisteredSubstitutionPhases(CompilePhase);
    RegisteredSubstitutionPhases(RenderPhase);
  }

  /** The registered directive handlers of one phase, element by element. */
  lemma RegisteredDirectivePhases(ph: Phase)
    ensures DirectivesIn(RegisteredDirectives, ph)
      == (if ph == CompilePhase then [MasterPageHandler] else [])
       + (if ph == AfterCompilePhase then [PlaceHolderHandler, PartialPageHandler] else [])
  {
    var d := RegisteredDirectives;
    assert d[1..] == [PlaceHolderHandler, PartialPageHandler] && d[1..][1..] == [PartialPageHandler];
    assert d[1..][1..][1..] == [];
    assert DirectivesIn(d[1..][1..], ph) == if ph == AfterCompilePhase then [PartialPageHandler] else [];
    assert DirectivesIn(d[1..], ph) == if ph == AfterCompilePhase then [PlaceHolderHandler, PartialPageHandler] else [];
  }

  /** The registered substitution handlers of one phase, element by element. */
  lemma RegisteredSubstitutionPhases(ph: Phase)
    ensures SubstitutionsIn(RegisteredSubstitutions, ph)
      == (if ph == CompilePhase then [CommentHandler, HeadHandler] else [])
       + (if ph == RenderPhase then [AntiForgeryTokenHandler] else [])
  {
    var u := RegisteredSubstitutions;
    assert u[1..] == [AntiForgeryTokenHandler, HeadHandler] && u[1..][1..] == [HeadHandler];
    assert u[1..][1..][1..] == [];
    assert SubstitutionsIn(u[1..][1..], ph) == if ph == CompilePhase then [HeadHandler] else [];
    assert SubstitutionsIn(u[1..], ph)
      == (if ph == RenderPhase then [AntiForgeryTokenHandler] else []) + (if ph == CompilePhase then [HeadHandler] else []);
  }

  // ---------------------------------------------------------------------------
  // One directive pass
  // ---------------------------------------------------------------------------

  /**
   * What a pass works on: the page buffer, the dependency list of the view
   * being compiled, the bundle handler's link cache and the number of
   * anti-forgery tokens drawn so far.
   */
  datatype PassState = PassState(content: string, deps: seq<string>, cache: map<string, string>, issued: nat)

  /** Where a pass got to; an error stops it, and the changes made before it stay. */
  datatype Progress = Progress(state: PassState, error: Option<CompileError>)

  /** An error of the passes is one a handler raises: never a missing view. */
  predicate HandlerError(e: Option<CompileError>) {
    e.Some? ==> !e.value.TemplateNotFound?
  }

  /**
   * `pageContent.Replace(before, returned)`: `before` is the buffer's text as
   * it was before the handler ran, `st.content` the buffer after the handler
   * edited it in place. An empty `before` makes `Replace` throw.
   */
  function Commit(st: PassState, before: string, returned: string): (p: Progress)
    ensures p.error.Some? <==> before == ""
    ensures p.error.Some? ==> p == Progress(st, Some(EmptySearchString))
    ensures p.state.deps == st.deps && p.state.cache == st.cache && p.state.issued == st.issued
    ensures before != "" && st.content == before ==> p == Progress(st.(content := returned), None)
    ensures before != "" && !Contains(st.content, before) ==> p == Progress(st, None)
  {
    if before == "" then Progress(st, Some(EmptySearchString))
    else
      assert st.content == before ==> ReplaceAll(st.content, before, returned) == returned by {
        if st.content == before { ReplaceWhole(before, returned); }
      }
      assert !Contains(st.content, before) ==> ReplaceAll(st.content, before, returned) == st.content by {
        if !Contains(st.content, before) {
          ReplaceAbsent(st.content, before, returned, 0);
        }
      }
      Progress(st.(content := ReplaceAll(st.content, before, returned)), None)
  }

  /** One handler on one directive match. */
  function HandlerStep(bundle: BundleDirective, h: DirectiveHandler, m: DirectiveMatch, st: PassState, ts: seq<TemplateInfo>): (p: Progress)
    requires |m.text| > 0
    ensures Extends(p.state.deps, st.deps) && (NoDuplicates(st.deps) ==> NoDuplicates(p.state.deps))
    ensures p.state.issued == st.issued
    ensures HandlerError(p.error)
  {
    var before := st.content;
    match h
    case MasterPageHandler =>
      (match MasterPage(m, before, ts)
       case Failure(e) => Progress(st, Some(e))
       case Success(o) =>
         var deps := if o.dependency.Some? then AddDependency(st.deps, o.dependency.value) else st.deps;
         Commit(st.(deps := deps), before, o.page))
    case PartialPageHandler =>
      (match PartialResult(m, before, ts)
       case Failure(e) => Progress(st, Some(e))
       case Success(c) => Commit(st.(content := c), before, c))
    case PlaceHolderHandler =>
      var c := PlaceHolderResult(m, before);
      Commit(st.(content := c), before, c)
    case BundleHandler =>
      (match bundle.Step(st.cache, m, before)
       case Failure(e) => Progress(st, Some(e))
       case Success(r) => Commit(st.(content := r.0, cache := r.1), before, r.0))
  }

  /** Every handler, in order, on one match; the first error stops the pass. */
  function RunHandlers(bundle: BundleDirective, hs: seq<DirectiveHandler>, m: DirectiveMatch, st: PassState, ts: seq<TemplateInfo>): (p: Progress)
    requires |m.text| > 0
    ensures Extends(p.state.deps, st.deps) && (NoDuplicates(st.deps) ==> NoDuplicates(p.state.deps))
    ensures p.state.issued == st.issued
    ensures HandlerError(p.error)
    decreases |hs|
  {
    if hs == [] then Progress(st, None)
    else
      var q := HandlerStep(bundle, hs[0], m, st, ts);
      if q.error.Some? then q else RunHandlers(bundle, hs[1..], m, q.state, ts)
  }

  /** The handlers from the `j`-th on: the `j`-th one's step, then the rest unless it failed. */
  lemma RunHandlersStep(bundle: BundleDirective, hs: seq<DirectiveHandler>, j: nat, m: DirectiveMatch, st: PassState, ts: seq<TemplateInfo>)
    requires |m.text| > 0 && j < |hs|
    ensures var q := HandlerStep(bundle, hs[j], m, st, ts);
      RunHandlers(bundle, hs[j..], m, st, ts) == if q.error.Some? then q else RunHandlers(bundle, hs[j + 1..], m, q.state, ts)
  {
    assert hs[j..][0] == hs[j] && hs[j..][1..] == hs[j + 1..];
  }

  /** The matches found at the start of the pass, in document order. */
  function RunMatches(bundle: BundleDirective, ms: seq<DirectiveMatch>, hs: seq<DirectiveHandler>, st: PassState, ts: seq<TemplateInfo>): (p: Progress)
    requires forall k :: 0 <= k < |ms| ==> |ms[k].text| > 0
    ensures Extends(p.state.deps, st.deps) && (NoDuplicates(st.deps) ==> NoDuplicates(p.state.deps))
    ensures p.state.issued == st.issued
    ensures HandlerError(p.error)
    decreases |ms|
  {
    if ms == [] then Progress(st, None)
    else
      var q := RunHandlers(bundle, hs, ms[0], st, ts);
      if q.error.Some? then q else RunMatches(bundle, ms[1..], hs, q.state, ts)
  }

  /** `performCompilerPass`: the directive tokens are scanned once, on the buffer as the pass begins. */
  function Pass(bundle: BundleDirective, hs: seq<DirectiveHandler>, st: PassState, ts: seq<TemplateInfo>): (p: Progress)
    ensures Extends(p.state.deps, st.deps) && (NoDuplicates(st.deps) ==> NoDuplicates(p.state.deps))
    ensures p.state.issued == st.issued
    ensures HandlerError(p.error)
  {
    RunMatches(bundle, DirectiveMatches(st.content), hs, st, ts)
  }

  // ---------------------------------------------------------------------------
  // Substitutions and ProcessDirectives
  // ---------------------------------------------------------------------------

  /** One substitution handler on the buffer; the anti-forgery handler draws one token per placeholder. */
  function SubstituteStep(mint: nat -> string, h: SubstitutionHandler, content: string, issued: nat): (r: (string, nat))
    ensures h != AntiForgeryTokenHandler ==> r.1 == issued
    ensures h == AntiForgeryTokenHandler ==> r.1 == issued + |Occurrences(content, AntiForgeryTokenName)|
  {
    match h
    case CommentHandler => (CommentSubstitution(content), issued)
    case HeadHandler => (HeadResult(content), issued)
    case AntiForgeryTokenHandler =>
      (InjectTokens(content, mint, issued), issued + |Occurrences(content, AntiForgeryTokenName)|)
  }

  /** The handlers in turn, each on the buffer the one before it left. */
  function SubstituteAll(mint: nat -> string, hs: seq<SubstitutionHandler>, content: string, issued: nat): (r: (string, nat))
    ensures r.1 >= issued
    ensures AntiForgeryTokenHandler !in hs ==> r.1 == issued
    decreases |hs|
  {
    if hs == [] then (content, issued)
    else
      var q := SubstituteStep(mint, hs[0], content, issued);
      SubstituteAll(mint, hs[1..], q.0, q.1)
  }

  /** Without the token handler the substituted text does not depend on how many tokens were issued before. */
  lemma {:induction false} SubstituteAllIgnoresIssued(mint: nat -> string, hs: seq<SubstitutionHandler>, content: string, i: nat, j: nat)
    requires AntiForgeryTokenHandler !in hs
    ensures SubstituteAll(mint, hs, content, i).0 == SubstituteAll(mint, hs, content, j).0
    decreases |hs|
  {
    if hs != [] {
      assert hs[0] in hs;
      assert forall h :: h in hs[1..] ==> h in hs;
      SubstituteAllIgnoresIssued(mint, hs[1..], SubstituteStep(mint, hs[0], content, i).0, i, j);
    }
  }

  /**
   * `ProcessDirectives` after the dependency key is in place: the compile-phase
   * pass, the compile-phase substitutions, then the after-compile pass.
   */
  function ProcessDirectivesSpec(setup: Setup, st: PassState, ts: seq<TemplateInfo>): (p: Progress)
    ensures Extends(p.state.deps, st.deps) && (NoDuplicates(st.deps) ==> NoDuplicates(p.state.deps))
    ensures p.state.issued >= st.issued
    ensures HandlerError(p.error)
  {
    var first := Pass(setup.bundle, DirectivesIn(setup.directiveHandlers, CompilePhase), st, ts);
    if first.error.Some? then first
    else
      var sub := SubstituteAll(setup.mint, SubstitutionsIn(setup.substitutionHandlers, CompilePhase), first.state.content, first.state.issued);
      Pass(setup.bundle, DirectivesIn(setup.directiveHandlers, AfterCompilePhase), first.state.(content := sub.0, issued := sub.1), ts)
  }

  // ---------------------------------------------------------------------------
  // The compiler's state and its operations as functions of it
  // ---------------------------------------------------------------------------

  /**
   * The compiler's lists and dictionary, with the dictionary's enumeration
   * order made explicit (`dependencyOrder`, the order keys were added), the
   * bundle handler's cache and the count of tokens drawn.
   */
  datatype CompilerState = CompilerState(
    viewTemplates: seq<TemplateInfo>,
    compiledViews: seq<TemplateInfo>,
    viewDependencies: map<string, seq<string>>,
    dependencyOrder: seq<string>,
    cache: map<string, string>,
    issued: nat)

  /** The dictionary's keys are the order's entries, each once, and no dependency list repeats a name. */
  ghost predicate StateOk(s: CompilerState) {
    && (forall k :: k in s.viewDependencies <==> k in s.dependencyOrder)
    && NoDuplicates(s.dependencyOrder)
    && (forall k :: k in s.viewDependencies ==> NoDuplicates(s.viewDependencies[k]))
  }

  /** Well-formedness does not depend on the compiled-view registry. */
  lemma StateOkIgnoresRegistry(s: CompilerState, cvs: seq<TemplateInfo>)
    ensures StateOk(s.(compiledViews := cvs)) == StateOk(s)
  {
  }

  /** Nor on the template store. */
  lemma StateOkIgnoresTemplates(s: CompilerState, ts: seq<TemplateInfo>)
    ensures StateOk(s.(viewTemplates := ts)) == StateOk(s)
  {
  }

  /** `if (!viewDependencies.ContainsKey(n)) viewDependencies[n] = new List<string>()`. */
  function WithKey(s: CompilerState, n: string): (r: CompilerState)
    ensures n in r.viewDependencies
    ensures StateOk(s) ==> StateOk(r)
  {
    if n in s.viewDependencies then s
    else s.(viewDependencies := s.viewDependencies[n := []], dependencyOrder := s.dependencyOrder + [n])
  }

  /** The record `Compile` builds: `Path` left null, `Result` empty. */
  function CompiledView(vt: TemplateInfo, name: string, text: string): TemplateInfo {
    TemplateInfo(vt.name, name, None, CollapseBlankLines(text), vt.templateMD5sum, "")
  }

  /** The end of `Compile`: an empty text makes the `Replace` throw; otherwise the registry gets the record. */
  function FinishCompile(s: CompilerState, vt: TemplateInfo, name: string, text: string): (r: (CompilerState, Result<TemplateInfo, CompileError>))
    ensures r.1.Failure? <==> text == ""
    ensures r.1.Failure? ==> r == (s, Failure(EmptySearchString))
    ensures r.1.Success? ==> r.0 == s.(compiledViews := ReplaceEntry(s.compiledViews, r.1.value))
  {
    if text == "" then (s, Failure(EmptySearchString))
    else
      var view := CompiledView(vt, name, text);
      (s.(compiledViews := ReplaceEntry(s.compiledViews, view)), Success(view))
  }

  /**
   * `Compile(name)`: a missing view is an error and changes nothing; a fragment
   * is taken as it is; any other view goes through ProcessDirectives, whose
   * result stands in for the raw text unless it is empty. A handler error
   * keeps the dependency, cache and token changes made before it.
   */
  function CompileSpec(setup: Setup, s: CompilerState, name: string): (r: (CompilerState, Result<TemplateInfo, CompileError>))
    ensures r.0.viewTemplates == s.viewTemplates
    ensures Lookup(s.viewTemplates, name).None? ==> r == (s, Failure(TemplateNotFound(name)))
    ensures Lookup(s.viewTemplates, name).Some? ==> !(r.1.Failure? && r.1.error.TemplateNotFound?)
    ensures r.1.Failure? ==> r.0.compiledViews == s.compiledViews
    ensures r.1.Success? ==>
      var vt := Lookup(s.viewTemplates, name).value;
      && r.1.value == TemplateInfo(vt.name, name, None, r.1.value.template, vt.templateMD5sum, "")
      && r.0.compiledViews == ReplaceEntry(s.compiledViews, r.1.value)
  {
    match FindIndex(s.viewTemplates, name)
    case None => (s, Failure(TemplateNotFound(name)))
    case Some(i) =>
      var vt := s.viewTemplates[i];
      if IsFragment(name) then FinishCompile(s, vt, name, vt.template)
      else
        var s1 := WithKey(s, name);
        var p := ProcessDirectivesSpec(setup, PassState(vt.template, s1.viewDependencies[name], s1.cache, s1.issued), s1.viewTemplates);
        var s2 := s1.(viewDependencies := s1.viewDependencies[name := p.state.deps], cache := p.state.cache, issued := p.state.issued);
        if p.error.Some? then (s2, Failure(p.error.value))
        else FinishCompile(s2, vt, name, if p.state.content == "" then vt.template else p.state.content)
  }

  /** The `compile` callback of `RecompileDependencies`: names without a template are skipped. */
  function CompileEach(setup: Setup, s: CompilerState, names: seq<string>): (r: (CompilerState, Option<CompileError>))
    ensures r.0.viewTemplates == s.viewTemplates
    ensures HandlerError(r.1)
    decreases |names|
  {
    if names == [] then (s, None)
    else if Lookup(s.viewTemplates, names[0]).None? then CompileEach(setup, s, names[1..])
    else
      var c := CompileSpec(setup, s, names[0]);
      if c.1.Failure? then (c.0, Some(c.1.error)) else CompileEach(setup, c.0, names[1..])
  }

  /** The dictionary's keys, in enumeration order, whose dependency list names `n`. */
  function Dependents(order: seq<string>, deps: map<string, seq<string>>, n: string): (r: seq<string>)
    ensures forall k :: k in r <==> k in order && k in deps && n in deps[k]
    ensures NoDuplicates(order) ==> NoDuplicates(r)
  {
    if order == [] then []
    else
      var rest := Dependents(order[1..], deps, n);
      assert forall k :: k in rest ==> k in order[1..];
      (if order[0] in deps && n in deps[order[0]] then [order[0]] else []) + rest
  }

  /** The views `RecompileDependencies(n)` compiles: the dependents of `n`, or `n` itself when it has none. */
  function RecompileTargets(s: CompilerState, n: string): seq<string> {
    var deps := Dependents(s.dependencyOrder, s.viewDependencies, n);
    if |deps| > 0 then deps else [n]
  }

  function RecompileSpec(setup: Setup, s: CompilerState, n: string): (r: (CompilerState, Option<CompileError>))
    ensures r.0.viewTemplates == s.viewTemplates
    ensures HandlerError(r.1)
  {
    CompileEach(setup, s, RecompileTargets(s, n))
  }

  /** `CompileAll`: fragments are copied into the registry as they are (keeping `Path`), the rest compiled. */
  function CompileAllFrom(setup: Setup, s: CompilerState, vts: seq<TemplateInfo>): (r: (CompilerState, Option<CompileError>))
    ensures r.0.viewTemplates == s.viewTemplates
    decreases |vts|
  {
    if vts == [] then (s, None)
    else if IsFragment(vts[0].fullName) then
      CompileAllFrom(setup, s.(compiledViews := s.compiledViews + [vts[0].(result := "")]), vts[1..])
    else
      var c := CompileSpec(setup, s, vts[0].fullName);
      if c.1.Failure? then (c.0, Some(c.1.error)) else CompileAllFrom(setup, c.0, vts[1..])
  }

  /** The text `Render` produces from a compiled template. */
  function RenderText(setup: Setup, template: string, tags: Option<seq<(string, string)>>, issued: nat): (r: (string, nat))
    ensures r.1 >= issued
  {
    var sub := SubstituteAll(setup.mint, SubstitutionsIn(setup.substitutionHandlers, RenderPhase), template, issued);
    if tags.Some? then (RenderTags(sub.0, tags.value, setup.encoders), sub.1) else sub
  }

  /**
   * `Render(name, tags)`: the render-phase substitutions, then (for a
   * non-null dictionary) the tag stage; the text becomes the compiled
   * record's `Result`, in place. An unknown name yields null.
   */
  function RenderSpec(setup: Setup, s: CompilerState, name: string, tags: Option<seq<(string, string)>>): (r: (CompilerState, Option<TemplateInfo>))
    ensures r.1.None? <==> Lookup(s.compiledViews, name).None?
    ensures r.1.None? ==> r.0 == s
    ensures r.1.Some? ==>
      var cv := Lookup(s.compiledViews, name).value;
      && r.1.value == cv.(result := r.1.value.result)
      && (r.1.value.result, r.0.issued) == RenderText(setup, cv.template, tags, s.issued)
      && |r.0.compiledViews| == |s.compiledViews|
      && r.0 == s.(compiledViews := r.0.compiledViews, issued := r.0.issued)
  {
    match FindIndex(s.compiledViews, name)
    case None => (s, None)
    case Some(k) =>
      var cv := s.compiledViews[k];
      var text := RenderText(setup, cv.template, tags, s.issued);
      var rendered := cv.(result := text.0);
      (s.(compiledViews := s.compiledViews[k := rendered], issued := text.1), Some(rendered))
  }

  // ---------------------------------------------------------------------------
  // Properties of the passes
  // ---------------------------------------------------------------------------

  /** A handler leaves a token of a directive it does not know alone: the buffer, the dependencies and the cache. */
  lemma HandlerIgnoresOtherDirective(bundle: BundleDirective, h: DirectiveHandler, m: DirectiveMatch, st: PassState, ts: seq<TemplateInfo>)
    requires |m.text| > 0 && st.content != ""
    requires m.directive != "Master" && m.directive != "Partial" && m.directive != "Placeholder" && m.directive != "Bundle"
    ensures HandlerStep(bundle, h, m, st, ts) == Progress(st, None)
  {
  }

  /** A token no handler knows passes through the whole handler list unchanged. */
  lemma {:induction false} HandlersIgnoreOtherDirective(bundle: BundleDirective, hs: seq<DirectiveHandler>, m: DirectiveMatch, st: PassState, ts: seq<TemplateInfo>)
    requires |m.text| > 0 && st.content != ""
    requires m.directive != "Master" && m.directive != "Partial" && m.directive != "Placeholder" && m.directive != "Bundle"
    ensures RunHandlers(bundle, hs, m, st, ts) == Progress(st, None)
    decreases |hs|
  {
    if hs != [] {
      HandlerIgnoresOtherDirective(bundle, hs[0], m, st, ts);
      HandlersIgnoreOtherDirective(bundle, hs[1..], m, st, ts);
    }
  }

  /**
   * The Master step on a page: with a layout holding one `%%View%%` slot and
   * no other '%', the page becomes the layout around the old page (minus the
   * token), and the layout is recorded as a dependency.
   */
  lemma MasterStepWrapsPage(bundle: BundleDirective, m: DirectiveMatch, st: PassState, ts: seq<TemplateInfo>, pre: string, post: string)
    requires WellFormedToken(m) && m.directive == "Master" && st.content != ""
    requires ResolveTemplate(ts, m.value).Some?
    requires ResolveTemplate(ts, m.value).value.template == pre + ViewToken + post
    requires '%' !in pre && '%' !in post
    ensures var layout := ResolveTemplate(ts, m.value).value;
      HandlerStep(bundle, MasterPageHandler, m, st, ts)
        == Progress(st.(content := pre + ReplaceAll(st.content, m.text, []) + post, deps := AddDependency(st.deps, layout.fullName)), None)
  {
    MasterWrapsContent(m, st.content, ts, pre, post);
  }

  // ---------------------------------------------------------------------------
  // Properties of Compile
  // ---------------------------------------------------------------------------

  /** The frame of one dependency-state change: `n`'s entry may only grow, every other entry stays. */
  ghost predicate DependencyFrame(s: CompilerState, r: CompilerState, n: string) {
    && (StateOk(s) ==> StateOk(r))
    && (forall k :: k != n ==> (k in r.viewDependencies <==> k in s.viewDependencies))
    && (forall k :: k != n && k in s.viewDependencies ==> r.viewDependencies[k] == s.viewDependencies[k])
    && (n in s.viewDependencies ==> n in r.viewDependencies && Extends(r.viewDependencies[n], s.viewDependencies[n]))
    && (r.dependencyOrder == s.dependencyOrder || r.dependencyOrder == s.dependencyOrder + [n])
  }

  /** Storing a grown list under a key that is already there. */
  lemma StoreDependencies(s: CompilerState, n: string, deps: seq<string>, cache: map<string, string>, issued: nat)
    requires n in s.viewDependencies && Extends(deps, s.viewDependencies[n])
    requires NoDuplicates(s.viewDependencies[n]) ==> NoDuplicates(deps)
    ensures DependencyFrame(s, s.(viewDependencies := s.viewDependencies[n := deps], cache := cache, issued := issued), n)
  {
  }

  /**
   * Compile touches only the dependency entry of the view it compiles: the
   * entry is created if missing and only ever grows; every other entry and
   * the key order stay (a new key goes last), and the state stays well formed.
   */
  lemma CompileDependencyFrame(setup: Setup, s: CompilerState, name: string)
    ensures DependencyFrame(s, CompileSpec(setup, s, name).0, name)
  {
    var r := CompileSpec(setup, s, name);
    var base := CompileBase(setup, s, name);
    assert r.0 == base.(compiledViews := r.0.compiledViews);
    FrameIgnoresRegistry(s, base, name, r.0.compiledViews);
  }

  /** The state `Compile` leaves before it touches the registry. */
  function CompileBase(setup: Setup, s: CompilerState, name: string): (b: CompilerState)
    ensures DependencyFrame(s, b, name)
  {
    match FindIndex(s.viewTemplates, name)
    case None => s
    case Some(i) =>
      var vt := s.viewTemplates[i];
      if IsFragment(name) then s
      else
        var s1 := WithKey(s, name);
        var p := ProcessDirectivesSpec(setup, PassState(vt.template, s1.viewDependencies[name], s1.cache, s1.issued), s1.viewTemplates);
        WithKeyFrame(s, name);
        StoreDependencies(s1, name, p.state.deps, p.state.cache, p.state.issued);
        var s2 := s1.(viewDependencies := s1.viewDependencies[name := p.state.deps], cache := p.state.cache, issued := p.state.issued);
        FrameCompose(s, s1, s2, name);
        s2
  }

  lemma WithKeyFrame(s: CompilerState, n: string)
    ensures DependencyFrame(s, WithKey(s, n), n)
  {
  }

  /** A frame followed by a step that keeps the key order is a frame. */
  lemma FrameCompose(s: CompilerState, s1: CompilerState, s2: CompilerState, n: string)
    requires DependencyFrame(s, s1, n) && DependencyFrame(s1, s2, n) && s2.dependencyOrder == s1.dependencyOrder
    ensures DependencyFrame(s, s2, n)
  {
  }

  lemma FrameIgnoresRegistry(s: CompilerState, r: CompilerState, n: string, cvs: seq<TemplateInfo>)
    requires DependencyFrame(s, r, n)
    ensures DependencyFrame(s, r.(compiledViews := cvs), n)
  {
    StateOkIgnoresRegistry(r, cvs);
  }

  /** Compile leaves the registry entries of every other view as they were. */
  lemma CompileKeepsOtherViews(setup: Setup, s: CompilerState, name: string, other: string)
    requires other != name
    ensures Named(CompileSpec(setup, s, name).0.compiledViews, other) == Named(s.compiledViews, other)
  {
    var r := CompileSpec(setup, s, name);
    if r.1.Success? {
      ReplaceEntryNamed(s.compiledViews, r.1.value, other);
    }
  }

  /**
   * A name with at most one registry entry has exactly one after a
   * successful compile, the new record; a registry with one entry per name
   * keeps that property.
   */
  lemma CompileKeepsUnique(setup: Setup, s: CompilerState, name: string)
    ensures var r := CompileSpec(setup, s, name);
      r.1.Success? && |Named(s.compiledViews, name)| <= 1 ==> Named(r.0.compiledViews, name) == [r.1.value]
    ensures UniqueNames(s.compiledViews) ==> UniqueNames(CompileSpec(setup, s, name).0.compiledViews)
  {
    var r := CompileSpec(setup, s, name);
    if r.1.Success? {
      if |Named(s.compiledViews, name)| <= 1 {
        ReplaceEntryKeepsUnique(s.compiledViews, r.1.value);
      }
      if UniqueNames(s.compiledViews) {
        ReplaceEntryUnique(s.compiledViews, r.1.value);
      }
    }
  }

  /**
   * A fragment goes through no directive pass: nothing but the registry
   * changes, it fails exactly when its template is empty, and otherwise its
   * compiled text is the template with its blank lines collapsed.
   */
  lemma CompileFragment(setup: Setup, s: CompilerState, name: string)
    requires IsFragment(name) && Lookup(s.viewTemplates, name).Some?
    ensures var vt := Lookup(s.viewTemplates, name).value;
      var r := CompileSpec(setup, s, name);
      && r.0 == s.(compiledViews := r.0.compiledViews)
      && (r.1.Failure? <==> vt.template == "")
      && (r.1.Failure? ==> r.1.error == EmptySearchString)
      && (r.1.Success? ==> r.1.value.template == CollapseBlankLines(vt.template))
  {
  }

  /** A record of another name survives a compile. */
  lemma CompileKeepsRecord(setup: Setup, s: CompilerState, name: string, x: TemplateInfo)
    requires x in s.compiledViews && x.fullName != name
    ensures x in CompileSpec(setup, s, name).0.compiledViews
  {
    CompileKeepsOtherViews(setup, s, name, x.fullName);
    NamedMembers(s.compiledViews, x.fullName);
    NamedMembers(CompileSpec(setup, s, name).0.compiledViews, x.fullName);
  }

  /** A `CompileAll` that runs to the end keeps every record whose name no compiled view of the store shares. */
  lemma {:induction false} CompileAllKeepsRecord(setup: Setup, s: CompilerState, vts: seq<TemplateInfo>, x: TemplateInfo)
    requires CompileAllFrom(setup, s, vts).1.None? && x in s.compiledViews
    requires forall v :: v in vts && !IsFragment(v.fullName) ==> v.fullName != x.fullName
    ensures x in CompileAllFrom(setup, s, vts).0.compiledViews
    decreases |vts|
  {
    if vts != [] {
      assert vts[0] in vts;
      assert forall v :: v in vts[1..] ==> v in vts;
      if IsFragment(vts[0].fullName) {
        var s1 := s.(compiledViews := s.compiledViews + [vts[0].(result := "")]);
        assert x in s1.compiledViews;
        CompileAllKeepsRecord(setup, s1, vts[1..], x);
      } else {
        var c := CompileSpec(setup, s, vts[0].fullName);
        CompileKeepsRecord(setup, s, vts[0].fullName, x);
        CompileAllKeepsRecord(setup, c.0, vts[1..], x);
      }
    }
  }

  /**
   * A `CompileAll` that runs to the end leaves in the registry every fragment
   * of the store as it was (name, logical name, path, text, checksum), with
   * an empty result.
   */
  lemma {:induction false} CompileAllCopiesFragments(setup: Setup, s: CompilerState, vts: seq<TemplateInfo>, v: TemplateInfo)
    requires CompileAllFrom(setup, s, vts).1.None?
    requires v in vts && IsFragment(v.fullName)
    ensures v.(result := "") in CompileAllFrom(setup, s, vts).0.compiledViews
    decreases |vts|
  {
    var x := v.(result := "");
    if IsFragment(vts[0].fullName) {
      var s1 := s.(compiledViews := s.compiledViews + [vts[0].(result := "")]);
      if vts[0] == v {
        assert x in s1.compiledViews;
        assert forall u :: u in vts[1..] && !IsFragment(u.fullName) ==> u.fullName != x.fullName;
        CompileAllKeepsRecord(setup, s1, vts[1..], x);
      } else {
        CompileAllCopiesFragments(setup, s1, vts[1..], v);
      }
    } else {
      assert v != vts[0];
      CompileAllCopiesFragments(setup, CompileSpec(setup, s, vts[0].fullName).0, vts[1..], v);
    }
  }

  // ---------------------------------------------------------------------------
  // Properties of RecompileDependencies
  // ---------------------------------------------------------------------------

  /**
   * The views a change to `n` recompiles: exactly the keys whose dependency
   * list names `n`, or `n` itself when there is no such key.
   */
  lemma RecompileTargetsAre(s: CompilerState, n: string, k: string)
    requires StateOk(s)
    ensures var dependent := forall j :: j in s.viewDependencies ==> n !in s.viewDependencies[j];
      k in RecompileTargets(s, n) <==>
        || (k in s.viewDependencies && n in s.viewDependencies[k])
        || (k == n && dependent)
  {
    var deps := Dependents(s.dependencyOrder, s.viewDependencies, n);
    if |deps| == 0 {
      forall j | j in s.viewDependencies ensures n !in s.viewDependencies[j] {
        assert j in s.dependencyOrder;
      }
    } else {
      assert deps[0] in deps;
    }
  }

  /** Compiling a list of views leaves the registry entries of every view not on the list. */
  lemma {:induction false} CompileEachKeepsOthers(setup: Setup, s: CompilerState, names: seq<string>, other: string)
    requires other !in names
    ensures Named(CompileEach(setup, s, names).0.compiledViews, other) == Named(s.compiledViews, other)
    decreases |names|
  {
    if names != [] && Lookup(s.viewTemplates, names[0]).Some? {
      CompileKeepsOtherViews(setup, s, names[0], other);
      var c := CompileSpec(setup, s, names[0]);
      if c.1.Success? {
        CompileEachKeepsOthers(setup, c.0, names[1..], other);
      }
    } else if names != [] {
      CompileEachKeepsOthers(setup, s, names[1..], other);
    }
  }

  /** Compiling a list of views keeps the dependency state well formed. */
  lemma {:induction false} CompileEachStateOk(setup: Setup, s: CompilerState, names: seq<string>)
    requires StateOk(s)
    ensures StateOk(CompileEach(setup, s, names).0)
    decreases |names|
  {
    if names != [] && Lookup(s.viewTemplates, names[0]).Some? {
      CompileDependencyFrame(setup, s, names[0]);
      var c := CompileSpec(setup, s, names[0]);
      if c.1.Success? {
        CompileEachStateOk(setup, c.0, names[1..]);
      }
    } else if names != [] {
      CompileEachStateOk(setup, s, names[1..]);
    }
  }

  /** Compiling a list of views keeps a registry with one entry per name. */
  lemma {:induction false} CompileEachKeepsUnique(setup: Setup, s: CompilerState, names: seq<string>)
    requires UniqueNames(s.compiledViews)
    ensures UniqueNames(CompileEach(setup, s, names).0.compiledViews)
    decreases |names|
  {
    if names != [] && Lookup(s.viewTemplates, names[0]).Some? {
      CompileKeepsUnique(setup, s, names[0]);
      var c := CompileSpec(setup, s, names[0]);
      if c.1.Success? {
        CompileEachKeepsUnique(setup, c.0, names[1..]);
      }
    } else if names != [] {
      CompileEachKeepsUnique(setup, s, names[1..]);
    }
  }

  /** A change to `n` leaves the compiled entries of every view that is not a target as they were. */
  lemma RecompileKeepsUntargeted(setup: Setup, s: CompilerState, n: string, other: string)
    requires StateOk(s)
    requires other != n && (other !in s.viewDependencies || n !in s.viewDependencies[other])
    ensures Named(RecompileSpec(setup, s, n).0.compiledViews, other) == Named(s.compiledViews, other)
  {
    RecompileTargetsAre(s, n, other);
    CompileEachKeepsOthers(setup, s, RecompileTargets(s, n), other);
  }

  // ---------------------------------------------------------------------------
  // Properties of Render
  // ---------------------------------------------------------------------------

  /**
   * Render writes only the result of the record it finds: that entry is
   * afterwards the record Render returns, the compiled template stays, every
   * other name keeps its entries, and no name gains or loses one.
   */
  lemma RenderKeepsRegistry(setup: Setup, s: CompilerState, name: string, tags: Option<seq<(string, string)>>, other: string)
    requires Lookup(s.compiledViews, name).Some?
    ensures var r := RenderSpec(setup, s, name, tags).0;
      && Lookup(r.compiledViews, name).Some?
      && Lookup(r.compiledViews, name) == RenderSpec(setup, s, name, tags).1
      && Lookup(r.compiledViews, name).value.template == Lookup(s.compiledViews, name).value.template
      && |Named(r.compiledViews, other)| == |Named(s.compiledViews, other)|
      && (other != name ==> Named(r.compiledViews, other) == Named(s.compiledViews, other))
  {
    var k := FindIndex(s.compiledViews, name).value;
    var r := RenderSpec(setup, s, name, tags);
    NamedUpdate(s.compiledViews, k, r.1.value, other);
    assert r.0.compiledViews[k] == r.1.value;
    assert FindIndex(r.0.compiledViews, name) == Some(k) by {
      FindIndexAfterUpdate(s.compiledViews, k, r.1.value);
    }
  }

  /** Without the token handler among the render-phase handlers, the rendered text depends on the template alone. */
  lemma RenderTextIgnoresIssued(setup: Setup, template: string, tags: Option<seq<(string, string)>>, i: nat, j: nat)
    requires AntiForgeryTokenHandler !in SubstitutionsIn(setup.substitutionHandlers, RenderPhase)
    ensures RenderText(setup, template, tags, i).0 == RenderText(setup, template, tags, j).0
  {
    SubstituteAllIgnoresIssued(setup.mint, SubstitutionsIn(setup.substitutionHandlers, RenderPhase), template, i, j);
  }

  /** Without the token handler among the render-phase handlers, rendering again gives the same record. */
  lemma RenderRepeatable(setup: Setup, s: CompilerState, name: string, tags: Option<seq<(string, string)>>)
    requires Lookup(s.compiledViews, name).Some?
    requires AntiForgeryTokenHandler !in SubstitutionsIn(setup.substitutionHandlers, RenderPhase)
    ensures var first := RenderSpec(setup, s, name, tags);
      RenderSpec(setup, first.0, name, tags).1 == first.1
  {
    var first := RenderSpec(setup, s, name, tags);
    var k := FindIndex(s.compiledViews, name).value;
    var cv := s.compiledViews[k];
    assert first.1 == Some(cv.(result := RenderText(setup, cv.template, tags, s.issued).0));
    RenderKeepsRegistry(setup, s, name, tags, name);
    assert FindIndex(first.0.compiledViews, name) == Some(k) by {
      FindIndexAfterUpdate(s.compiledViews, k, first.1.value);
    }
    var cv2 := first.0.compiledViews[k];
    assert cv2 == first.1.value;
    RenderTextIgnoresIssued(setup, cv.template, tags, s.issued, first.0.issued);
    assert RenderSpec(setup, first.0, name, tags).1 == Some(cv2.(result := RenderText(setup, cv2.template, tags, first.0.issued).0));
  }

  // ---------------------------------------------------------------------------
  // The compiler object
  // ---------------------------------------------------------------------------

  /** Two updates of one key are one update. */
  lemma UpdateTwice<V>(m0: map<string, V>, m1: map<string, V>, m2: map<string, V>, n: string)
    requires n in m1 && n in m2 && m1 == m0[n := m1[n]] && m2 == m1[n := m2[n]]
    ensures m2 == m0[n := m2[n]]
  {
  }

  class ViewCompiler {
    var viewTemplates: seq<TemplateInfo>
    var compiledViews: seq<TemplateInfo>
    var viewDependencies: map<string, seq<string>>
    /** The order in which keys entered `viewDependencies`, which is the order the dictionary enumerates them. */
    var dependencyOrder: seq<string>
    /** How many anti-forgery tokens the substitutions have drawn from `setup.mint`. */
    var tokensIssued: nat
    const setup: Setup

    ghost function State(): CompilerState
      reads this, setup.bundle
    {
      CompilerState(viewTemplates, compiledViews, viewDependencies, dependencyOrder, setup.bundle.bundleLinkResults, tokensIssued)
    }

    ghost predicate Valid()
      reads this, setup.bundle
    {
      StateOk(State()) && setup.bundle.Valid()
    }

    constructor (viewTemplates: seq<TemplateInfo>, compiledViews: seq<TemplateInfo>,
                 viewDependencies: map<string, seq<string>>, dependencyOrder: seq<string>, setup: Setup)
      requires StateOk(CompilerState(viewTemplates, compiledViews, viewDependencies, dependencyOrder, map[], 0))
      requires setup.bundle.Valid()
      ensures Valid() && this.setup == setup
      ensures State() == CompilerState(viewTemplates, compiledViews, viewDependencies, dependencyOrder, setup.bundle.bundleLinkResults, 0)
    {
      this.viewTemplates := viewTemplates;
      this.compiledViews := compiledViews;
      this.viewDependencies := viewDependencies;
      this.dependencyOrder := dependencyOrder;
      this.tokensIssued := 0;
      this.setup := setup;
    }

    /** The pass state of the view `n` being compiled, with `content` as the page buffer. */
    ghost function Now(content: StringBuilder, n: string): PassState
      reads this, setup.bundle, content
      requires n in viewDependencies
    {
      PassState(content.text, viewDependencies[n], setup.bundle.bundleLinkResults, tokensIssued)
    }

    /** `addPageDependency`, closed over the view being compiled. */
    method AddPageDependency(fullViewName: string, x: string)
      requires fullViewName in viewDependencies
      modifies this
      ensures State() == old(State()).(viewDependencies := old(viewDependencies)[fullViewName := AddDependency(old(viewDependencies)[fullViewName], x)])
    {
      if x !in viewDependencies[fullViewName] {
        viewDependencies := viewDependencies[fullViewName := viewDependencies[fullViewName] + [x]];
      }
    }

    /** One handler call of `performCompilerPass`, followed by the buffer-wide `Replace`. */
    method HandlerProcess(h: DirectiveHandler, m: DirectiveMatch, content: StringBuilder, fullViewName: string)
      returns (err: Option<CompileError>)
      requires setup.bundle.Valid() && fullViewName in viewDependencies && |m.text| > 0
      modifies this, setup.bundle, content
      ensures setup.bundle.Valid() && fullViewName in viewDependencies
      ensures var p := HandlerStep(setup.bundle, h, m, old(Now(content, fullViewName)), viewTemplates);
        err == p.error && Now(content, fullViewName) == p.state
      ensures State() == old(State()).(viewDependencies := viewDependencies, cache := setup.bundle.bundleLinkResults)
      ensures viewDependencies == old(viewDependencies)[fullViewName := viewDependencies[fullViewName]]
    {
      match h {
        case MasterPageHandler =>
          err := MasterProcess(m, content, fullViewName);
        case PartialPageHandler =>
          err := PartialProcess(m, content, fullViewName);
        case PlaceHolderHandler =>
          err := PlaceHolderProcess(m, content, fullViewName);
        case BundleHandler =>
          err := BundleProcess(m, content, fullViewName);
      }
    }

    /** The `Replace(before, returned)` after a handler: it throws when the buffer was empty before the handler ran. */
    static method CommitReturned(content: StringBuilder, before: string, returned: string) returns (err: Option<CompileError>)
      modifies content
      ensures err == (if before == "" then Some(EmptySearchString) else None)
      ensures content.text == if before == "" then old(content.text) else ReplaceAll(old(content.text), before, returned)
    {
      if before == "" {
        return Some(EmptySearchString);
      }
      content.Replace(before, returned);
      err := None;
    }

    /** The Master handler and its `Replace`: the layout may be recorded as a dependency. */
    method MasterProcess(m: DirectiveMatch, content: StringBuilder, fullViewName: string) returns (err: Option<CompileError>)
      requires fullViewName in viewDependencies && |m.text| > 0
      modifies this, content
      ensures fullViewName in viewDependencies
      ensures var p := HandlerStep(setup.bundle, MasterPageHandler, m, old(Now(content, fullViewName)), viewTemplates);
        err == p.error && Now(content, fullViewName) == p.state
      ensures State() == old(State()).(viewDependencies := viewDependencies)
      ensures viewDependencies == old(viewDependencies)[fullViewName := viewDependencies[fullViewName]]
    {
      var before := content.text;
      var r := MasterPage(m, content.text, viewTemplates);
      if r.Failure? {
        return Some(r.error);
      }
      if r.value.dependency.Some? {
        AddPageDependency(fullViewName, r.value.dependency.value);
      }
      err := CommitReturned(content, before, r.value.page);
    }

    /** The Partial handler and its `Replace`. */
    method PartialProcess(m: DirectiveMatch, content: StringBuilder, fullViewName: string) returns (err: Option<CompileError>)
      requires fullViewName in viewDependencies && |m.text| > 0
      modifies content
      ensures var p := HandlerStep(setup.bundle, PartialPageHandler, m, old(Now(content, fullViewName)), viewTemplates);
        err == p.error && Now(content, fullViewName) == p.state
    {
      var before := content.text;
      var r := PartialPageDirective(m, content, viewTemplates);
      if r.Failure? {
        return Some(r.error);
      }
      err := CommitReturned(content, before, r.value);
    }

    /** The Placeholder handler and its `Replace`. */
    method PlaceHolderProcess(m: DirectiveMatch, content: StringBuilder, fullViewName: string) returns (err: Option<CompileError>)
      requires fullViewName in viewDependencies && |m.text| > 0
      modifies content
      ensures var p := HandlerStep(setup.bundle, PlaceHolderHandler, m, old(Now(content, fullViewName)), viewTemplates);
        err == p.error && Now(content, fullViewName) == p.state
    {
      var before := content.text;
      var returned := PlaceHolderDirective(m, content);
      err := CommitReturned(content, before, returned);
    }

    /** The Bundle handler and its `Replace`: the link cache may gain the bundle's links. */
    method BundleProcess(m: DirectiveMatch, content: StringBuilder, fullViewName: string) returns (err: Option<CompileError>)
      requires setup.bundle.Valid() && fullViewName in viewDependencies && |m.text| > 0
      modifies setup.bundle, content
      ensures setup.bundle.Valid()
      ensures var p := HandlerStep(setup.bundle, BundleHandler, m, old(Now(content, fullViewName)), viewTemplates);
        err == p.error && Now(content, fullViewName) == p.state
      ensures State() == old(State()).(cache := setup.bundle.bundleLinkResults)
    {
      var before := content.text;
      var r := setup.bundle.Process(m, content);
      if r.Failure? {
        return Some(r.error);
      }
      err := CommitReturned(content, before, r.value);
    }

    /** The inner loop of `performCompilerPass`: every handler of `hs`, in order, on one token. */
    method ProcessMatch(hs: seq<DirectiveHandler>, m: DirectiveMatch, content: StringBuilder, fullViewName: string)
      returns (err: Option<CompileError>)
      requires setup.bundle.Valid() && fullViewName in viewDependencies && |m.text| > 0
      modifies this, setup.bundle, content
      ensures setup.bundle.Valid() && fullViewName in viewDependencies
      ensures var p := RunHandlers(setup.bundle, hs, m, old(Now(content, fullViewName)), viewTemplates);
        err == p.error && Now(content, fullViewName) == p.state
      ensures State() == old(State()).(viewDependencies := viewDependencies, cache := setup.bundle.bundleLinkResults)
      ensures viewDependencies == old(viewDependencies)[fullViewName := viewDependencies[fullViewName]]
    {
      ghost var goal := RunHandlers(setup.bundle, hs, m, Now(content, fullViewName), viewTemplates);
      var j := 0;
      while j < |hs|
        invariant 0 <= j <= |hs|
        invariant setup.bundle.Valid() && fullViewName in viewDependencies
        invariant State() == old(State()).(viewDependencies := viewDependencies, cache := setup.bundle.bundleLinkResults)
        invariant viewDependencies == old(viewDependencies)[fullViewName := viewDependencies[fullViewName]]
        invariant RunHandlers(setup.bundle, hs[j..], m, Now(content, fullViewName), viewTemplates) == goal
      {
        RunHandlersStep(setup.bundle, hs, j, m, Now(content, fullViewName), viewTemplates);
        ghost var between := viewDependencies;
        err := HandlerProcess(hs[j], m, content, fullViewName);
        UpdateTwice(old(viewDependencies), between, viewDependencies, fullViewName);
        if err.Some? {
          return;
        }
        j := j + 1;
      }
      err := None;
    }

    /** `performCompilerPass`: every handler of `hs` on every directive token the scan finds at the start. */
    method PerformCompilerPass(hs: seq<DirectiveHandler>, content: StringBuilder, fullViewName: string)
      returns (err: Option<CompileError>)
      requires setup.bundle.Valid() && fullViewName in viewDependencies
      modifies this, setup.bundle, content
      ensures setup.bundle.Valid() && fullViewName in viewDependencies
      ensures var p := Pass(setup.bundle, hs, old(Now(content, fullViewName)), viewTemplates);
        err == p.error && Now(content, fullViewName) == p.state
      ensures State() == old(State()).(viewDependencies := viewDependencies, cache := setup.bundle.bundleLinkResults)
      ensures viewDependencies == old(viewDependencies)[fullViewName := viewDependencies[fullViewName]]
    {
      var dirMatches := DirectiveMatches(content.text);
      ghost var goal := Pass(setup.bundle, hs, Now(content, fullViewName), viewTemplates);
      var i := 0;
      while i < |dirMatches|
        invariant 0 <= i <= |dirMatches|
        invariant setup.bundle.Valid() && fullViewName in viewDependencies
        invariant State() == old(State()).(viewDependencies := viewDependencies, cache := setup.bundle.bundleLinkResults)
        invariant viewDependencies == old(viewDependencies)[fullViewName := viewDependencies[fullViewName]]
        invariant RunMatches(setup.bundle, dirMatches[i..], hs, Now(content, fullViewName), viewTemplates) == goal
      {
        assert dirMatches[i..][0] == dirMatches[i] && dirMatches[i..][1..] == dirMatches[i + 1..];
        ghost var between := viewDependencies;
        err := ProcessMatch(hs, dirMatches[i], content, fullViewName);
        UpdateTwice(old(viewDependencies), between, viewDependencies, fullViewName);
        if err.Some? {
          return;
        }
        i := i + 1;
      }
      err := None;
    }

    /** One substitution handler's `Process`; Comment answers a new buffer, the others edit theirs. */
    method Substitute(h: SubstitutionHandler, content: StringBuilder) returns (result: StringBuilder)
      modifies this, content
      ensures (result.text, tokensIssued) == SubstituteStep(setup.mint, h, old(content.text), old(tokensIssued))
      ensures fresh(result) || result == content
      ensures State() == old(State()).(issued := tokensIssued)
    {
      match h {
        case CommentHandler =>
          result := new StringBuilder(CommentSubstitution(content.text));
        case HeadHandler =>
          HeadSubstitution(content);
          result := content;
        case AntiForgeryTokenHandler =>
          var minted := AntiForgeryTokenSubstitution(content, setup.mint, tokensIssued);
          tokensIssued := tokensIssued + minted;
          result := content;
      }
    }

    /** `foreach (sub in ...) content = sub.Process(content)`. */
    method RunSubstitutions(hs: seq<SubstitutionHandler>, content: StringBuilder) returns (result: StringBuilder)
      modifies this, content
      ensures (result.text, tokensIssued) == SubstituteAll(setup.mint, hs, old(content.text), old(tokensIssued))
      ensures fresh(result) || result == content
      ensures State() == old(State()).(issued := tokensIssued)
    {
      ghost var goal := SubstituteAll(setup.mint, hs, content.text, tokensIssued);
      result := content;
      var i := 0;
      while i < |hs|
        invariant 0 <= i <= |hs|
        invariant fresh(result) || result == content
        invariant State() == old(State()).(issued := tokensIssued)
        invariant SubstituteAll(setup.mint, hs[i..], result.text, tokensIssued) == goal
      {
        assert hs[i..][0] == hs[i] && hs[i..][1..] == hs[i + 1..];
        result := Substitute(hs[i], result);
        i := i + 1;
      }
    }

    /** The two passes and the substitutions between them, on the buffer `content` of view `n`. */
    method RunPhases(content: StringBuilder, fullViewName: string) returns (result: StringBuilder, err: Option<CompileError>)
      requires Valid() && fullViewName in viewDependencies
      modifies this, setup.bundle, content
      ensures Valid() && fullViewName in viewDependencies
      ensures fresh(result) || result == content
      ensures var p := ProcessDirectivesSpec(setup, old(Now(content, fullViewName)), viewTemplates);
        err == p.error && Now(result, fullViewName) == p.state
      ensures State() == old(State()).(viewDependencies := viewDependencies, cache := setup.bundle.bundleLinkResults, issued := tokensIssued)
      ensures viewDependencies == old(viewDependencies)[fullViewName := viewDependencies[fullViewName]]
    {
      result := content;
      err := PerformCompilerPass(DirectivesIn(setup.directiveHandlers, CompilePhase), result, fullViewName);
      if err.None? {
        ghost var between := viewDependencies;
        result, err := AfterFirstPass(result, fullViewName);
        UpdateTwice(old(viewDependencies), between, viewDependencies, fullViewName);
      }
      StoreDependencies(old(State()), fullViewName, viewDependencies[fullViewName], setup.bundle.bundleLinkResults, tokensIssued);
    }

    /** The compile-phase substitutions, then the after-compile pass. */
    method AfterFirstPass(content: StringBuilder, fullViewName: string) returns (result: StringBuilder, err: Option<CompileError>)
      requires setup.bundle.Valid() && fullViewName in viewDependencies
      modifies this, setup.bundle, content
      ensures setup.bundle.Valid() && fullViewName in viewDependencies
      ensures fresh(result) || result == content
      ensures var st := old(Now(content, fullViewName));
        var sub := SubstituteAll(setup.mint, SubstitutionsIn(setup.substitutionHandlers, CompilePhase), st.content, st.issued);
        var p := Pass(setup.bundle, DirectivesIn(setup.directiveHandlers, AfterCompilePhase), st.(content := sub.0, issued := sub.1), viewTemplates);
        err == p.error && Now(result, fullViewName) == p.state
      ensures State() == old(State()).(viewDependencies := viewDependencies, cache := setup.bundle.bundleLinkResults, issued := tokensIssued)
      ensures viewDependencies == old(viewDependencies)[fullViewName := viewDependencies[fullViewName]]
    {
      result := RunSubstitutions(SubstitutionsIn(setup.substitutionHandlers, CompilePhase), content);
      err := PerformCompilerPass(DirectivesIn(setup.directiveHandlers, AfterCompilePhase), result, fullViewName);
    }

    /** `ProcessDirectives`: the dependency key first, then pass, substitutions, pass. */
    method ProcessDirectives(fullViewName: string, rawView: string) returns (page: string, err: Option<CompileError>)
      requires Valid()
      modifies this, setup.bundle
      ensures Valid()
      ensures var s1 := WithKey(old(State()), fullViewName);
        var p := ProcessDirectivesSpec(setup, PassState(rawView, s1.viewDependencies[fullViewName], s1.cache, s1.issued), s1.viewTemplates);
        && page == p.state.content && err == p.error
        && State() == s1.(viewDependencies := s1.viewDependencies[fullViewName := p.state.deps], cache := p.state.cache, issued := p.state.issued)
    {
      var pageContent := new StringBuilder(rawView);
      if fullViewName !in viewDependencies {
        viewDependencies := viewDependencies[fullViewName := []];
        dependencyOrder := dependencyOrder + [fullViewName];
      }
      assert State() == WithKey(old(State()), fullViewName);
      pageContent, err := RunPhases(pageContent, fullViewName);
      page := pageContent.text;
    }

    /** `Compile(fullName)`; the FileNotFoundException and the other exceptions are the `Failure` cases. */
    method Compile(fullName: string) returns (r: Result<TemplateInfo, CompileError>)
      requires Valid()
      modifies this, setup.bundle
      ensures Valid()
      ensures (State(), r) == CompileSpec(setup, old(State()), fullName)
    {
      var found := FindIndex(viewTemplates, fullName);
      if found.None? {
        return Failure(TemplateNotFound(fullName));
      }
      var viewTemplate := viewTemplates[found.value];
      var rawView := viewTemplate.template;
      var compiledView := "";
      if !IsFragment(viewTemplate.fullName) {
        var page, err := ProcessDirectives(fullName, rawView);
        if err.Some? {
          return Failure(err.value);
        }
        compiledView := page;
      }
      if compiledView == "" {
        compiledView := rawView;
      }
      r := StoreCompiled(viewTemplate, fullName, compiledView);
    }

    /** The end of `Compile`: blank lines collapsed by a whole-buffer `Replace`, then the registry entry replaced. */
    method StoreCompiled(viewTemplate: TemplateInfo, fullName: string, compiledView: string) returns (r: Result<TemplateInfo, CompileError>)
      requires Valid() && viewTemplate.fullName == fullName
      modifies this
      ensures Valid()
      ensures (State(), r) == FinishCompile(old(State()), viewTemplate, fullName, compiledView)
    {
      if compiledView == "" {
        return Failure(EmptySearchString);
      }
      var builder := new StringBuilder(compiledView);
      builder.Replace(builder.text, CollapseBlankLines(builder.text));
      ReplaceWhole(compiledView, CollapseBlankLines(compiledView));
      var view := TemplateInfo(viewTemplate.name, fullName, None, builder.text, viewTemplate.templateMD5sum, "");
      ghost var before := State();
      compiledViews := RemoveFirst(compiledViews, viewTemplate.fullName) + [view];
      StateOkIgnoresRegistry(before, compiledViews);
      r := Success(view);
    }

    /** `CompileAll`: every template in store order; the first exception ends it. */
    method CompileAll() returns (r: Result<seq<TemplateInfo>, CompileError>)
      requires Valid()
      modifies this, setup.bundle
      ensures Valid()
      ensures var c := CompileAllFrom(setup, old(State()), old(viewTemplates));
        && State() == c.0
        && r == if c.1.None? then Success(compiledViews) else Failure(c.1.value)
    {
      ghost var goal := CompileAllFrom(setup, State(), viewTemplates);
      var i := 0;
      while i < |viewTemplates|
        invariant 0 <= i <= |viewTemplates| && Valid()
        invariant viewTemplates == old(viewTemplates)
        invariant CompileAllFrom(setup, State(), viewTemplates[i..]) == goal
      {
        assert viewTemplates[i..][0] == viewTemplates[i] && viewTemplates[i..][1..] == viewTemplates[i + 1..];
        var vt := viewTemplates[i];
        if !IsFragment(vt.fullName) {
          var c := Compile(vt.fullName);
          if c.Failure? {
            return Failure(c.error);
          }
        } else {
          compiledViews := compiledViews + [TemplateInfo(vt.name, vt.fullName, vt.path, vt.template, vt.templateMD5sum, "")];
        }
        i := i + 1;
      }
      r := Success(compiledViews);
    }

    /**
     * `RecompileDependencies(n)`. The code's query over the dictionary is
     * lazy; compiling one of its keys only grows that key's own list and adds
     * no key, so taking the keys up front visits the same views.
     */
    method RecompileDependencies(fullViewName: string) returns (err: Option<CompileError>)
      requires Valid()
      modifies this, setup.bundle
      ensures Valid()
      ensures (State(), err) == RecompileSpec(setup, old(State()), fullViewName)
    {
      var deps := Dependents(dependencyOrder, viewDependencies, fullViewName);
      var targets := if |deps| > 0 then deps else [fullViewName];
      ghost var goal := CompileEach(setup, State(), targets);
      var i := 0;
      while i < |targets|
        invariant 0 <= i <= |targets| && Valid()
        invariant CompileEach(setup, State(), targets[i..]) == goal
      {
        assert targets[i..][0] == targets[i] && targets[i..][1..] == targets[i + 1..];
        var template := FindIndex(viewTemplates, targets[i]);
        if template.Some? {
          var r := Compile(viewTemplates[template.value].fullName);
          if r.Failure? {
            return Some(r.error);
          }
        }
        i := i + 1;
      }
      err := None;
    }

    /** `Render(fullName, tags)`: null tags are `None`, and so is the null result. */
    method Render(fullName: string, tags: Option<seq<(string, string)>>) returns (r: Option<TemplateInfo>)
      requires Valid()
      modifies this
      ensures Valid()
      ensures (State(), r) == RenderSpec(setup, old(State()), fullName, tags)
    {
      var found := FindIndex(compiledViews, fullName);
      if found.None? {
        return None;
      }
      var compiledView := compiledViews[found.value];
      var compiledViewSB := new StringBuilder(compiledView.template);
      compiledViewSB := RunSubstitutions(SubstitutionsIn(setup.substitutionHandlers, RenderPhase), compiledViewSB);
      if tags.Some? {
        RenderTagsIn(compiledViewSB, tags.value, setup.encoders);
      }
      var rendered := compiledView.(result := compiledViewSB.text);
      compiledViews := compiledViews[found.value := rendered];
      r := Some(rendered);
    }
  }
}
