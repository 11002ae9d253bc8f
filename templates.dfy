/**
 * Template records and the list operations the compiler performs on the
 * template store and on the compiled-view registry: lookup by logical name,
 * resolution of a directive value to a shared template, and replacement of a
 * compiled entry (remove the first entry with that name, append the new one).
 */
module Templates {
  import opened Wrappers
  import opened Text

  /**
   * One template (TemplateInfo). `fullName` is the logical name, `name` the file
   * stem, `template` the text, `result` the last render. `path` is None where
   * the code leaves the property null (records built by `Compile`).
   */
  datatype TemplateInfo = TemplateInfo(
    name: string,
    fullName: string,
    path: Option<string>,
    template: string,
    templateMD5sum: string,
    result: string)

  /** Fragments are never run through the directive passes. */
  predicate IsFragment(fullName: string) {
    Contains(fullName, "Fragment")
  }

  /** `FirstOrDefault(x => x.FullName == n)`, as the index of the record it finds. */
  function FindIndex(ts: seq<TemplateInfo>, n: string): (r: Option<nat>)
    ensures r.Some? ==> r.value < |ts| && ts[r.value].fullName == n
    ensures r.Some? ==> forall j :: 0 <= j < r.value ==> ts[j].fullName != n
    ensures r.None? ==> forall j :: 0 <= j < |ts| ==> ts[j].fullName != n
  {
    if ts == [] then None
    else if ts[0].fullName == n then Some(0)
    else match FindIndex(ts[1..], n)
      case None => None
      case Some(k) => Some(k + 1)
  }

  function Lookup(ts: seq<TemplateInfo>, n: string): (r: Option<TemplateInfo>)
    ensures r.Some? <==> exists j :: 0 <= j < |ts| && ts[j].fullName == n
    ensures r.Some? ==> r.value.fullName == n && r.value in ts
  {
    match FindIndex(ts, n)
    case None => None
    case Some(k) => Some(ts[k])
  }

  /** The logical names a directive value may resolve to. */
  predicate MatchesShared(fullName: string, value: string) {
    Contains(fullName, "Shared/" + value)
  }

  /** The index of the first record whose logical name matches "Shared/" + value. */
  function SharedIndex(ts: seq<TemplateInfo>, value: string): (r: Option<nat>)
    ensures r.Some? ==> r.value < |ts| && MatchesShared(ts[r.value].fullName, value)
    ensures r.Some? ==> forall j :: 0 <= j < r.value ==> !MatchesShared(ts[j].fullName, value)
    ensures r.None? ==> forall j :: 0 <= j < |ts| ==> !MatchesShared(ts[j].fullName, value)
  {
    if ts == [] then None
    else if MatchesShared(ts[0].fullName, value) then Some(0)
    else match SharedIndex(ts[1..], value)
      case None => None
      case Some(k) => Some(k + 1)
  }

  /**
   * determineKeyName: the first logical name that CONTAINS "Shared/" + value
   * (a containment test, not a suffix test); None where the code yields null.
   * A name it finds always has a template record.
   */
  function DetermineKeyName(ts: seq<TemplateInfo>, value: string): (r: Option<string>)
    ensures r.None? <==> forall j :: 0 <= j < |ts| ==> !MatchesShared(ts[j].fullName, value)
    ensures r.Some? ==> MatchesShared(r.value, value) && Lookup(ts, r.value).Some?
  {
    match SharedIndex(ts, value)
    case None => None
    case Some(k) => Some(ts[k].fullName)
  }

  /** The entries of a registry that carry logical name `n`, in registry order. */
  function Named(cvs: seq<TemplateInfo>, n: string): (r: seq<TemplateInfo>)
    ensures |r| <= |cvs|
  {
    if cvs == [] then []
    else (if cvs[0].fullName == n then [cvs[0]] else []) + Named(cvs[1..], n)
  }

  /** The entries named `n` are exactly the registry's records that carry that name. */
  lemma {:induction false} NamedMembers(cvs: seq<TemplateInfo>, n: string)
    ensures forall v :: v in Named(cvs, n) <==> v in cvs && v.fullName == n
  {
    if cvs != [] {
      NamedMembers(cvs[1..], n);
      assert cvs == [cvs[0]] + cvs[1..];
    }
  }

  lemma {:induction false} NamedConcat(a: seq<TemplateInfo>, b: seq<TemplateInfo>, n: string)
    ensures Named(a + b, n) == Named(a, n) + Named(b, n)
  {
    if a != [] {
      assert (a + b)[1..] == a[1..] + b;
      NamedConcat(a[1..], b, n);
    } else {
      assert a + b == b;
    }
  }

  /** `list.Remove(list.FirstOrDefault(x => x.FullName == n))`: drop the first entry named `n`. */
  function RemoveFirst(cvs: seq<TemplateInfo>, n: string): (r: seq<TemplateInfo>)
    ensures FindIndex(cvs, n).None? ==> r == cvs
    ensures FindIndex(cvs, n).Some? ==> var k := FindIndex(cvs, n).value; r == cvs[..k] + cvs[k + 1..]
  {
    if cvs == [] then []
    else if cvs[0].fullName == n then cvs[1..]
    else [cvs[0]] + RemoveFirst(cvs[1..], n)
  }

  /** Removing the first entry named `n` removes exactly the first of the entries named `n`. */
  lemma {:induction false} RemoveFirstNamed(cvs: seq<TemplateInfo>, n: string, m: string)
    ensures var before := Named(cvs, m);
      Named(RemoveFirst(cvs, n), m) == if m == n && before != [] then before[1..] else before
  {
    if cvs != [] {
      var head := if cvs[0].fullName == m then [cvs[0]] else [];
      assert Named(cvs, m) == head + Named(cvs[1..], m);
      if cvs[0].fullName != n {
        RemoveFirstNamed(cvs[1..], n, m);
        assert RemoveFirst(cvs, n) == [cvs[0]] + RemoveFirst(cvs[1..], n);
        assert ([cvs[0]] + RemoveFirst(cvs[1..], n))[1..] == RemoveFirst(cvs[1..], n);
        assert Named(RemoveFirst(cvs, n), m) == head + Named(RemoveFirst(cvs[1..], n), m);
      }
    }
  }

  /** The registry update at the end of `Compile`: the old entry out, the new one appended. */
  function ReplaceEntry(cvs: seq<TemplateInfo>, v: TemplateInfo): seq<TemplateInfo> {
    RemoveFirst(cvs, v.fullName) + [v]
  }

  /**
   * Replacing an entry leaves every other name's entries as they were, keeps
   * the count of entries for its own name (one more only where there was none)
   * and makes the new record the last of them.
   */
  lemma ReplaceEntryNamed(cvs: seq<TemplateInfo>, v: TemplateInfo, m: string)
    ensures m != v.fullName ==> Named(ReplaceEntry(cvs, v), m) == Named(cvs, m)
    ensures var before := |Named(cvs, v.fullName)|;
      |Named(ReplaceEntry(cvs, v), v.fullName)| == if before == 0 then 1 else before
    ensures var after := Named(ReplaceEntry(cvs, v), v.fullName); after[|after| - 1] == v
  {
    if m != v.fullName {
      ReplaceEntryOther(cvs, v, m);
    }
    ReplaceEntryOwn(cvs, v);
  }

  lemma ReplaceEntryOther(cvs: seq<TemplateInfo>, v: TemplateInfo, m: string)
    requires m != v.fullName
    ensures Named(ReplaceEntry(cvs, v), m) == Named(cvs, m)
  {
    var r := RemoveFirst(cvs, v.fullName);
    NamedConcat(r, [v], m);
    RemoveFirstNamed(cvs, v.fullName, m);
    NamedOne(v, m);
  }

  lemma ReplaceEntryOwn(cvs: seq<TemplateInfo>, v: TemplateInfo)
    ensures var before := |Named(cvs, v.fullName)|;
      |Named(ReplaceEntry(cvs, v), v.fullName)| == if before == 0 then 1 else before
    ensures var after := Named(ReplaceEntry(cvs, v), v.fullName); after[|after| - 1] == v
  {
    var r := RemoveFirst(cvs, v.fullName);
    NamedConcat(r, [v], v.fullName);
    RemoveFirstNamed(cvs, v.fullName, v.fullName);
    NamedOne(v, v.fullName);
  }

  lemma NamedOne(v: TemplateInfo, m: string)
    ensures Named([v], m) == if v.fullName == m then [v] else []
  {
    assert [v][1..] == [];
  }

  lemma SingletonOf<T>(s: seq<T>, x: T)
    requires |s| == 1 && s[|s| - 1] == x
    ensures s == [x]
  {
  }

  /** In particular a registry with at most one entry per name keeps that property. */
  lemma ReplaceEntryKeepsUnique(cvs: seq<TemplateInfo>, v: TemplateInfo)
    requires |Named(cvs, v.fullName)| <= 1
    ensures Named(ReplaceEntry(cvs, v), v.fullName) == [v]
  {
    var after := Named(ReplaceEntry(cvs, v), v.fullName);
    ReplaceEntryOwn(cvs, v);
    assert |after| == 1;
    SingletonOf(after, v);
  }

  /** The entry `List.FirstOrDefault` finds is the first of the entries with that name. */
  lemma {:induction false} FindIndexIsFirstNamed(cvs: seq<TemplateInfo>, n: string)
    ensures FindIndex(cvs, n).Some? <==> Named(cvs, n) != []
    ensures FindIndex(cvs, n).Some? ==> Named(cvs, n)[0] == cvs[FindIndex(cvs, n).value]
  {
    if cvs != [] {
      FindIndexIsFirstNamed(cvs[1..], n);
    }
  }

  /** A registry holds at most one entry per logical name. */
  ghost predicate UniqueNames(cvs: seq<TemplateInfo>) {
    forall n :: |Named(cvs, n)| <= 1
  }

  /** Replacing an entry keeps a registry unique: the replaced name ends with exactly the new record. */
  lemma ReplaceEntryUnique(cvs: seq<TemplateInfo>, v: TemplateInfo)
    requires UniqueNames(cvs)
    ensures UniqueNames(ReplaceEntry(cvs, v)) && Named(ReplaceEntry(cvs, v), v.fullName) == [v]
  {
    forall n ensures |Named(ReplaceEntry(cvs, v), n)| <= 1 {
      ReplaceEntryNamed(cvs, v, n);
    }
    ReplaceEntryKeepsUnique(cvs, v);
  }

  /** Overwriting a record in place with one of the same name leaves every name's entries but that one record. */
  lemma {:induction false} NamedUpdate(cvs: seq<TemplateInfo>, k: nat, v: TemplateInfo, n: string)
    requires k < |cvs| && v.fullName == cvs[k].fullName
    ensures n != v.fullName ==> Named(cvs[k := v], n) == Named(cvs, n)
    ensures |Named(cvs[k := v], n)| == |Named(cvs, n)|
  {
    if k == 0 {
      assert cvs[k := v][1..] == cvs[1..];
    } else {
      NamedUpdate(cvs[1..], k - 1, v, n);
      assert cvs[k := v][1..] == cvs[1..][k - 1 := v];
    }
  }

  /** Overwriting the record `FindIndex` found, keeping its name, keeps `FindIndex` where it was. */
  lemma {:induction false} FindIndexAfterUpdate(cvs: seq<TemplateInfo>, k: nat, v: TemplateInfo)
    requires FindIndex(cvs, v.fullName) == Some(k)
    ensures FindIndex(cvs[k := v], v.fullName) == Some(k)
  {
    if k > 0 {
      FindIndexAfterUpdate(cvs[1..], k - 1, v);
      assert cvs[k := v][1..] == cvs[1..][k - 1 := v];
    }
  }
}
