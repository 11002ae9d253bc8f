/**
 * The view engine (ViewEngine): it owns the template store, the compiled-view
 * registry and the dependency dictionary, shares them with its view compiler,
 * recompiles when a template file changes, renders views on request and
 * writes its state out as a cache.
 *
 * The engine's three collections are the very lists its compiler works on,
 * so the model keeps them once, as the compiler's fields.
 */
module Engine {
  import opened Wrappers
  import opened Templates
  import opened Directives
  import opened Compiler

  /** The serialised state (ViewCache); `dependencyOrder` is the order the dictionary's keys are written in. */
  datatype ViewCache = ViewCache(
    viewTemplates: seq<TemplateInfo>,
    compiledViews: seq<TemplateInfo>,
    viewDependencies: map<string, seq<string>>,
    dependencyOrder: seq<string>)

  /** The state a cache restores, before any token has been drawn. */
  function Restored(c: ViewCache, bundleCache: map<string, string>): CompilerState {
    CompilerState(c.viewTemplates, c.compiledViews, c.viewDependencies, c.dependencyOrder, bundleCache, 0)
  }

  /** The cache of a state: the three collections, nothing of the bundle cache or the token count. */
  function Snapshot(s: CompilerState): (c: ViewCache)
    ensures Restored(c, s.cache) == s.(issued := 0)
  {
    ViewCache(s.viewTemplates, s.compiledViews, s.viewDependencies, s.dependencyOrder)
  }

  /** Why the engine's constructor throws. */
  datatype EngineError =
    | NoViewRoot          // fewer than one view root
    | NoTemplates         // nothing cached and the loader found no template
    | CompileFailed(error: CompileError)

  /**
   * `compiledViews.FirstOrDefault(x => x.FullName == n && x.TemplateMD5sum != md5)`:
   * the first compiled entry of that name whose checksum differs.
   */
  function FindStale(cvs: seq<TemplateInfo>, n: string, md5: string): (r: Option<nat>)
    ensures r.Some? ==> r.value < |cvs| && cvs[r.value].fullName == n && cvs[r.value].templateMD5sum != md5
    ensures r.Some? ==> forall j :: 0 <= j < r.value ==> !(cvs[j].fullName == n && cvs[j].templateMD5sum != md5)
    ensures r.None? ==> forall j :: 0 <= j < |cvs| ==> !(cvs[j].fullName == n && cvs[j].templateMD5sum != md5)
  {
    if cvs == [] then None
    else if cvs[0].fullName == n && cvs[0].templateMD5sum != md5 then Some(0)
    else match FindStale(cvs[1..], n, md5)
      case None => None
      case Some(k) => Some(k + 1)
  }

  /** The compiled entry brought up to date with the changed template in place; its result is cleared. */
  function Patched(cv: TemplateInfo, changed: TemplateInfo): (v: TemplateInfo)
    ensures v.fullName == cv.fullName && v.name == cv.name && v.path == cv.path
    ensures v.template == changed.template && v.templateMD5sum == changed.templateMD5sum && v.result == ""
  {
    cv.(templateMD5sum := changed.templateMD5sum, template := changed.template, result := "")
  }

  /**
   * `OnChanged` after the loader has read the changed template: the store
   * swaps the old record for the new one (appended at the end); a compiled
   * entry whose checksum differs is patched in place unless the view is a
   * fragment, and then the views that depend on the changed one are
   * recompiled (the view itself when none does); with no such entry the
   * changed view is compiled on its own.
   */
  function OnChangedSpec(setup: Setup, s: CompilerState, changed: TemplateInfo): (r: (CompilerState, Option<CompileError>))
    ensures r.0.viewTemplates == ReplaceEntry(s.viewTemplates, changed)
    ensures HandlerError(r.1)
  {
    var s1 := s.(viewTemplates := ReplaceEntry(s.viewTemplates, changed));
    match FindStale(s1.compiledViews, changed.fullName, changed.templateMD5sum)
    case Some(k) =>
      var s2 := if IsFragment(changed.fullName) then s1
        else s1.(compiledViews := s1.compiledViews[k := Patched(s1.compiledViews[k], changed)]);
      RecompileSpec(setup, s2, changed.fullName)
    case None =>
      var ts := s1.viewTemplates;
      assert ts[|ts| - 1] == changed;
      var c := CompileSpec(setup, s1, changed.fullName);
      (c.0, if c.1.Failure? then Some(c.1.error) else None)
  }

  /** A template store with one record per name keeps it, and the changed record is then its name's only one. */
  lemma OnChangedStoresTemplate(setup: Setup, s: CompilerState, changed: TemplateInfo)
    requires UniqueNames(s.viewTemplates)
    ensures var ts := OnChangedSpec(setup, s, changed).0.viewTemplates;
      UniqueNames(ts) && Named(ts, changed.fullName) == [changed] && Lookup(ts, changed.fullName) == Some(changed)
  {
    var ts := ReplaceEntry(s.viewTemplates, changed);
    ReplaceEntryUnique(s.viewTemplates, changed);
    FindIndexIsFirstNamed(ts, changed.fullName);
  }

  /**
   * A view with no stale compiled entry is compiled from the new template:
   * once it succeeds (and the view is no fragment) the registry's only entry
   * of that name carries the new checksum, and the error, if any, is never a
   * missing template.
   */
  lemma OnChangedCompilesNewView(setup: Setup, s: CompilerState, changed: TemplateInfo)
    requires UniqueNames(s.viewTemplates) && UniqueNames(s.compiledViews)
    requires FindStale(s.compiledViews, changed.fullName, changed.templateMD5sum).None?
    ensures var r := OnChangedSpec(setup, s, changed);
      && !(r.1.Some? && r.1.value.TemplateNotFound?)
      && UniqueNames(r.0.compiledViews)
      && (r.1.None? ==>
            (exists v :: Named(r.0.compiledViews, changed.fullName) == [v]
              && v.templateMD5sum == changed.templateMD5sum && v.name == changed.name && v.result == ""))
  {
    var s1 := s.(viewTemplates := ReplaceEntry(s.viewTemplates, changed));
    OnChangedStoresTemplate(setup, s, changed);
    assert Lookup(s1.viewTemplates, changed.fullName) == Some(changed);
    CompileKeepsUnique(setup, s1, changed.fullName);
    var c := CompileSpec(setup, s1, changed.fullName);
    if c.1.Success? {
      assert Named(c.0.compiledViews, changed.fullName) == [c.1.value];
    }
  }

  /**
   * A change to `n` leaves alone the compiled entries of every other view
   * that does not depend on `n`.
   */
  lemma OnChangedKeepsUnrelated(setup: Setup, s: CompilerState, changed: TemplateInfo, other: string)
    requires StateOk(s)
    requires other != changed.fullName
    requires other !in s.viewDependencies || changed.fullName !in s.viewDependencies[other]
    ensures Named(OnChangedSpec(setup, s, changed).0.compiledViews, other) == Named(s.compiledViews, other)
  {
    var n := changed.fullName;
    var s1 := s.(viewTemplates := ReplaceEntry(s.viewTemplates, changed));
    match FindStale(s1.compiledViews, n, changed.templateMD5sum)
    case Some(k) =>
      var s2 := if IsFragment(n) then s1
        else s1.(compiledViews := s1.compiledViews[k := Patched(s1.compiledViews[k], changed)]);
      NamedUpdate(s1.compiledViews, k, Patched(s1.compiledViews[k], changed), other);
      assert Named(s2.compiledViews, other) == Named(s.compiledViews, other);
      RecompileKeepsUntargeted(setup, s2, n, other);
    case None =>
      CompileKeepsOtherViews(setup, s1, n, other);
  }

  /**
   * When other views depend on the changed one, only they are recompiled:
   * the changed view keeps its patched entry, which holds the new raw
   * template, not a compiled one.
   */
  lemma OnChangedLeavesDependedOnViewPatched(setup: Setup, s: CompilerState, changed: TemplateInfo, dependent: string)
    requires StateOk(s)
    requires dependent in s.viewDependencies && changed.fullName in s.viewDependencies[dependent]
    requires changed.fullName !in s.viewDependencies || changed.fullName !in s.viewDependencies[changed.fullName]
    requires !IsFragment(changed.fullName)
    requires FindStale(s.compiledViews, changed.fullName, changed.templateMD5sum).Some?
    ensures var k := FindStale(s.compiledViews, changed.fullName, changed.templateMD5sum).value;
      Named(OnChangedSpec(setup, s, changed).0.compiledViews, changed.fullName)
        == Named(s.compiledViews[k := Patched(s.compiledViews[k], changed)], changed.fullName)
  {
    var n := changed.fullName;
    var k := FindStale(s.compiledViews, n, changed.templateMD5sum).value;
    var s2 := s.(viewTemplates := ReplaceEntry(s.viewTemplates, changed), compiledViews := s.compiledViews[k := Patched(s.compiledViews[k], changed)]);
    RecompileTargetsAre(s2, n, n);
    RecompileTargetsAre(s2, n, dependent);
    CompileEachKeepsOthers(setup, s2, RecompileTargets(s2, n), n);
  }

  /** A change keeps the dependency state well formed. */
  lemma OnChangedKeepsState(setup: Setup, s: CompilerState, changed: TemplateInfo)
    requires StateOk(s)
    ensures StateOk(OnChangedSpec(setup, s, changed).0)
  {
    var n := changed.fullName;
    var s1 := s.(viewTemplates := ReplaceEntry(s.viewTemplates, changed));
    StateOkIgnoresTemplates(s, s1.viewTemplates);
    match FindStale(s1.compiledViews, n, changed.templateMD5sum)
    case Some(k) =>
      var s2 := if IsFragment(n) then s1
        else s1.(compiledViews := s1.compiledViews[k := Patched(s1.compiledViews[k], changed)]);
      StateOkIgnoresRegistry(s1, s2.compiledViews);
      assert s2 == s1.(compiledViews := s2.compiledViews);
      CompileEachStateOk(setup, s2, RecompileTargets(s2, n));
    case None =>
      CompileDependencyFrame(setup, s1, n);
  }

  /** What the constructor starts from: the cache when there is one, else the loaded templates and nothing compiled. */
  function Initial(cache: Option<ViewCache>, loaded: seq<TemplateInfo>): (c: ViewCache)
    ensures cache.None? ==> c.viewTemplates == loaded && c.compiledViews == [] && c.viewDependencies == map[]
  {
    if cache.Some? then cache.value else ViewCache(loaded, [], map[], [])
  }

  /** A cache as `GetCache` writes it: every key once, in the written order, and no dependency list with a repeat. */
  ghost predicate CacheOk(c: ViewCache) {
    StateOk(Restored(c, map[]))
  }

  class ViewEngine {
    /** The engine's compiler; its fields are the engine's template store, registry and dictionary. */
    const compiler: ViewCompiler
    var cacheUpdated: bool

    ghost predicate Valid()
      reads this, compiler, compiler.setup.bundle
    {
      compiler.Valid()
    }

    constructor (compiler: ViewCompiler)
      requires compiler.Valid()
      ensures Valid() && this.compiler == compiler && !cacheUpdated
    {
      this.compiler := compiler;
      cacheUpdated := false;
    }

    /**
     * The engine's constructor after its I/O: `viewRoots` is how many view
     * roots were given, `cache` the deserialised cache (None for a missing
     * or empty one), `loaded` what the template loader would return. The
     * registry is compiled when it starts out empty.
     */
    static method Create(viewRoots: nat, cache: Option<ViewCache>, loaded: seq<TemplateInfo>, setup: Setup)
      returns (r: Result<ViewEngine, EngineError>)
      requires CacheOk(Initial(cache, loaded))
      requires setup.bundle.Valid()
      modifies setup.bundle
      ensures viewRoots == 0 ==> r == Failure(NoViewRoot)
      ensures viewRoots > 0 && cache.None? && loaded == [] ==> r == Failure(NoTemplates)
      ensures r.Failure? && r.error.CompileFailed? ==> !r.error.error.TemplateNotFound?
      ensures r.Success? ==> fresh(r.value) && r.value.Valid() && r.value.compiler.setup == setup && !r.value.cacheUpdated
      ensures r.Success? ==>
        var start := Restored(Initial(cache, loaded), old(setup.bundle.bundleLinkResults));
        r.value.compiler.State()
          == if start.compiledViews != [] then start else CompileAllFrom(setup, start, start.viewTemplates).0
      ensures r.Failure? && r.error.CompileFailed? ==>
        var start := Restored(Initial(cache, loaded), old(setup.bundle.bundleLinkResults));
        start.compiledViews == [] && CompileAllFrom(setup, start, start.viewTemplates).1 == Some(r.error.error)
    {
      if viewRoots == 0 {
        return Failure(NoViewRoot);
      }
      var c := Initial(cache, loaded);
      if cache.None? && loaded == [] {
        return Failure(NoTemplates);
      }
      var compiler := new ViewCompiler(c.viewTemplates, c.compiledViews, c.viewDependencies, c.dependencyOrder, setup);
      if c.compiledViews == [] {
        var all := compiler.CompileAll();
        if all.Failure? {
          CompileAllErrors(setup, Restored(c, old(setup.bundle.bundleLinkResults)), c.viewTemplates);
          return Failure(CompileFailed(all.error));
        }
      }
      var engine := new ViewEngine(compiler);
      r := Success(engine);
    }

    /**
     * `OnChanged`, given the template the loader read back. `CacheUpdated`
     * is set only when recompilation ends without an exception.
     */
    method OnChanged(changed: TemplateInfo) returns (err: Option<CompileError>)
      requires Valid()
      modifies this, compiler, compiler.setup.bundle
      ensures Valid()
      ensures (compiler.State(), err) == OnChangedSpec(compiler.setup, old(compiler.State()), changed)
      ensures cacheUpdated == (err.None? || old(cacheUpdated))
    {
      compiler.viewTemplates := RemoveFirst(compiler.viewTemplates, changed.fullName) + [changed];
      var cv := FindStale(compiler.compiledViews, changed.fullName, changed.templateMD5sum);
      if cv.Some? && !IsFragment(changed.fullName) {
        var entry := compiler.compiledViews[cv.value];
        compiler.compiledViews := compiler.compiledViews[cv.value := Patched(entry, changed)];
      }
      if cv.Some? {
        err := compiler.RecompileDependencies(changed.fullName);
      } else {
        var c := compiler.Compile(changed.fullName);
        err := if c.Failure? then Some(c.error) else None;
      }
      if err.None? {
        cacheUpdated := true;
      }
    }

    /** `GetCache`: the three collections as they stand; the updated flag is cleared. */
    method GetCache() returns (c: ViewCache)
      requires Valid()
      modifies this
      ensures c == Snapshot(compiler.State()) && CacheOk(c)
      ensures !cacheUpdated
    {
      cacheUpdated := false;
      c := ViewCache(compiler.viewTemplates, compiler.compiledViews, compiler.viewDependencies, compiler.dependencyOrder);
    }

    /** `LoadView`: the rendered result, or null for a view that was never compiled. */
    method LoadView(fullName: string, tags: Option<seq<(string, string)>>) returns (r: Option<string>)
      requires Valid()
      modifies compiler
      ensures Valid()
      ensures var spec := RenderSpec(compiler.setup, old(compiler.State()), fullName, tags);
        && compiler.State() == spec.0
        && r == if spec.1.Some? then Some(spec.1.value.result) else None
    {
      var rendered := compiler.Render(fullName, tags);
      r := if rendered.Some? then Some(rendered.value.result) else None;
    }
  }

  /** `CompileAll` never reports a missing template: it only compiles names taken from the store. */
  lemma {:induction false} CompileAllErrors(setup: Setup, s: CompilerState, vts: seq<TemplateInfo>)
    requires forall v :: v in vts ==> v in s.viewTemplates
    ensures var r := CompileAllFrom(setup, s, vts); r.1.Some? ==> !r.1.value.TemplateNotFound?
    decreases |vts|
  {
    if vts != [] {
      assert vts[0] in vts;
      assert forall v :: v in vts[1..] ==> v in vts;
      if IsFragment(vts[0].fullName) {
        CompileAllErrors(setup, s.(compiledViews := s.compiledViews + [vts[0].(result := "")]), vts[1..]);
      } else {
        var c := CompileSpec(setup, s, vts[0].fullName);
        assert Lookup(s.viewTemplates, vts[0].fullName).Some?;
        if c.1.Success? {
          CompileAllErrors(setup, c.0, vts[1..]);
        }
      }
    }
  }
}
