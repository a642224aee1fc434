/** Values of a local (project) component's metadata, and the functions that say
    what the component's operations compute: hierarchy aggregation of declared
    dependencies, excludes and files, artifact realisation along the hierarchy,
    and the consumable-variants view. The class that updates these values in
    place is in module LocalComponent. */
module ComponentModel {
  import opened Wrappers

  type ComponentId = string

  /** An Ivy artifact name: what `artifact(name)` compares. */
  datatype ArtifactName = ArtifactName(name: string, extension: string, classifier: Option<string>)

  /** A raw artifact declaration, as added to a configuration or variant. */
  datatype PublishArtifact = PublishArtifact(name: ArtifactName, file: string)

  /** A declaration bound to the identifier of the component that owns it. */
  datatype LocalArtifact = LocalArtifact(componentId: ComponentId, name: ArtifactName, file: string)

  /** What `artifact(name)` returns: a realised artifact, or the "missing" sentinel. */
  datatype ComponentArtifact =
    | Found(artifact: LocalArtifact)
    | Missing(componentId: ComponentId, name: ArtifactName)

  datatype Dependency = Dependency(selector: string, isForced: bool)
  datatype Exclude = Exclude(group: string, moduleName: string)
  datatype FileDependency = FileDependency(source: string)

  /** The attribute set, reduced to the category value and a count of the other entries. */
  datatype Attributes = Attributes(category: Option<string>, otherEntries: nat) {
    predicate IsEmpty() {
      category.None? && otherEntries == 0
    }
  }

  /** Value of the category attribute that marks an enforced platform. */
  const EnforcedPlatform: string := "enforced-platform"

  /** What a backing configuration and its metadata builder append to a configuration
      when its dependencies are realised. */
  datatype Declarations = Declarations(dependencies: seq<Dependency>, excludes: seq<Exclude>, files: seq<FileDependency>)

  /** The artifacts of a configuration or variant: the raw declarations until the
      lazy value is finalised, the realised list afterwards (the declarations are
      dropped then). */
  datatype ArtifactSlot =
    | Pending(declared: seq<PublishArtifact>)
    | Realized(artifacts: seq<LocalArtifact>)

  datatype Config = Config(
    name: string,
    description: string,
    extendsFrom: set<string>,
    hierarchy: seq<string>,
    visible: bool,
    transitive: bool,
    attributes: Attributes,
    canBeConsumed: bool,
    canBeResolved: bool,
    backing: Option<Declarations>,
    definedDependencies: seq<Dependency>,
    definedExcludes: seq<Exclude>,
    definedFiles: seq<FileDependency>,
    dependencyCache: Option<seq<Dependency>>,
    excludeCache: Option<seq<Exclude>>,
    fileCache: Option<seq<FileDependency>>,
    artifacts: ArtifactSlot)

  datatype Variant = Variant(name: string, attributes: Attributes, artifacts: ArtifactSlot)

  /** A freshly registered configuration: nothing declared, nothing cached. */
  function NewConfig(name: string, description: string, extendsFrom: set<string>, hierarchy: seq<string>,
                     visible: bool, transitive: bool, attributes: Attributes,
                     canBeConsumed: bool, canBeResolved: bool): (c: Config)
  {
    Config(name, description, extendsFrom, hierarchy, visible, transitive, attributes,
           canBeConsumed, canBeResolved, None, [], [], [], None, None, None, Pending([]))
  }

  predicate NoDuplicates<T(==)>(s: seq<T>) {
    forall i, j :: 0 <= i < j < |s| ==> s[i] != s[j]
  }

  lemma NotInPrefix<T>(s: seq<T>, i: nat)
    requires NoDuplicates(s) && i < |s|
    ensures s[i] !in s[..i]
  {
  }

  lemma PrefixSnoc<T>(s: seq<T>, i: nat)
    requires i < |s|
    ensures s[..i + 1] == s[..i] + [s[i]]
  {
  }

  function Elements<T>(s: seq<T>): (r: set<T>) {
    set x | x in s
  }

  // ---------------------------------------------------------------------------
  // Deferred declarations

  /** The one-shot application of a backing configuration's declarations. */
  function RealizeDependencies(c: Config): (r: Config)
  {
    match c.backing
    case None => c
    case Some(d) =>
      c.(backing := None,
         definedDependencies := c.definedDependencies + d.dependencies,
         definedExcludes := c.definedExcludes + d.excludes,
         definedFiles := c.definedFiles + d.files)
  }

  /** A second realisation changes nothing. */
  lemma RealizeDependenciesIsOneShot(c: Config)
    ensures RealizeDependencies(RealizeDependencies(c)) == RealizeDependencies(c)
  {
  }

  /** The registry after realising the dependencies of every configuration named in `hierarchy`. */
  function RealizeIn(reg: map<string, Config>, hierarchy: seq<string>): (r: map<string, Config>)
    ensures r.Keys == reg.Keys
  {
    map x | x in reg :: if x in hierarchy then RealizeDependencies(reg[x]) else reg[x]
  }

  /** The registry after realising the dependencies of the configurations named in
      both `hierarchy` and `done`. */
  function RealizeAmong(reg: map<string, Config>, hierarchy: seq<string>, done: seq<string>): (r: map<string, Config>)
    ensures r.Keys == reg.Keys
  {
    map x | x in reg :: if x in hierarchy && x in done then RealizeDependencies(reg[x]) else reg[x]
  }

  lemma RealizeAmongStep(reg: map<string, Config>, hierarchy: seq<string>, done: seq<string>, x: string)
    requires x in reg && x !in done
    ensures RealizeAmong(reg, hierarchy, done)[x] == reg[x]
    ensures RealizeAmong(reg, hierarchy, done + [x]) ==
            if x in hierarchy then RealizeAmong(reg, hierarchy, done)[x := RealizeDependencies(reg[x])]
            else RealizeAmong(reg, hierarchy, done)
  {
    var a := RealizeAmong(reg, hierarchy, done + [x]);
    var b := RealizeAmong(reg, hierarchy, done);
    var b' := if x in hierarchy then b[x := RealizeDependencies(reg[x])] else b;
    assert a.Keys == b'.Keys;
    forall y | y in a
      ensures a[y] == b'[y]
    {
      assert y in done + [x] <==> y in done || y == x;
    }
  }

  lemma RealizeAmongAll(reg: map<string, Config>, hierarchy: seq<string>, order: seq<string>)
    requires forall y :: y in reg ==> y in order
    ensures RealizeAmong(reg, hierarchy, order) == RealizeIn(reg, hierarchy)
  {
  }

  // ---------------------------------------------------------------------------
  // Insertion-ordered sets (LinkedHashSet, ImmutableSet.Builder)

  function FirstIndex<T(==)>(s: seq<T>, x: T): (k: nat)
    requires x in s
    ensures k < |s| && s[k] == x && x !in s[..k]
  {
    if s[0] == x then 0 else 1 + FirstIndex(s[1..], x)
  }

  /** The elements of `s` in the order of their first occurrence, each once. */
  function Dedup<T(==,!new)>(s: seq<T>): (r: seq<T>)
    ensures NoDuplicates(r)
    ensures forall x :: x in r <==> x in s
    ensures |r| <= |s|
  {
    if s == [] then []
    else
      var r := Dedup(s[..|s| - 1]);
      if s[|s| - 1] in r then r else r + [s[|s| - 1]]
  }

  lemma {:induction false} FirstIndexInPrefix<T>(s: seq<T>, k: nat, x: T)
    requires k <= |s| && x in s[..k]
    ensures FirstIndex(s, x) == FirstIndex(s[..k], x)
  {
    if s[0] != x {
      assert s[..k][1..] == s[1..][..k - 1];
      FirstIndexInPrefix(s[1..], k - 1, x);
    }
  }

  /** Dedup keeps first occurrences: its elements appear in the order in which
      they first occur in the input. */
  lemma {:induction false} DedupKeepsFirstOccurrenceOrder<T(!new)>(s: seq<T>)
    ensures forall i, j :: 0 <= i < j < |Dedup(s)| ==> FirstIndex(s, Dedup(s)[i]) < FirstIndex(s, Dedup(s)[j])
  {
    if s != [] {
      var p := s[..|s| - 1];
      var last := s[|s| - 1];
      DedupKeepsFirstOccurrenceOrder(p);
      var r := Dedup(p);
      assert s[..|s| - 1] == p;
      assert forall x :: x in p ==> x in s;
      forall i | 0 <= i < |r|
        ensures FirstIndex(s, r[i]) == FirstIndex(p, r[i])
      {
        FirstIndexInPrefix(s, |s| - 1, r[i]);
      }
      if last !in r {
        forall i | 0 <= i < |r|
          ensures FirstIndex(s, r[i]) < FirstIndex(s, last)
        {
          assert last !in p;
          assert FirstIndex(s, last) == |s| - 1;
        }
      }
    }
  }

  // ---------------------------------------------------------------------------
  // Hierarchy aggregation

  /** Concatenation, in registry order `names`, of the lists `select` gives for every
      registered configuration whose name is in `hierarchy`. */
  function Gather<T>(reg: map<string, Config>, names: seq<string>, hierarchy: seq<string>, select: Config -> seq<T>): (r: seq<T>)
  {
    if names == [] then []
    else
      var last := names[|names| - 1];
      Gather(reg, names[..|names| - 1], hierarchy, select)
        + (if last in hierarchy && last in reg then select(reg[last]) else [])
  }

  lemma GatherSnoc<T>(reg: map<string, Config>, names: seq<string>, x: string, hierarchy: seq<string>, select: Config -> seq<T>)
    ensures Gather(reg, names + [x], hierarchy, select) ==
            Gather(reg, names, hierarchy, select) + (if x in hierarchy && x in reg then select(reg[x]) else [])
  {
    assert (names + [x])[..|names|] == names;
  }

  /** An element is aggregated exactly when some included configuration declares it. */
  lemma {:induction false} GatherMembers<T>(reg: map<string, Config>, names: seq<string>, hierarchy: seq<string>,
                                            select: Config -> seq<T>, x: T)
    ensures x in Gather(reg, names, hierarchy, select) <==>
            exists k :: 0 <= k < |names| && names[k] in hierarchy && names[k] in reg && x in select(reg[names[k]])
  {
    if names != [] {
      var p := names[..|names| - 1];
      GatherMembers(reg, p, hierarchy, select, x);
      if x in Gather(reg, names, hierarchy, select) && x !in Gather(reg, p, hierarchy, select) {
        var k := |names| - 1;
        assert names[k] in hierarchy && names[k] in reg && x in select(reg[names[k]]);
      }
      if x !in Gather(reg, names, hierarchy, select) {
        forall k | 0 <= k < |names| && names[k] in hierarchy && names[k] in reg
          ensures x !in select(reg[names[k]])
        {
          if k < |names| - 1 {
            assert names[k] == p[k];
          }
        }
      }
    }
  }

  /** Only the listed, included configurations matter to the aggregation. */
  lemma {:induction false} GatherFrame<T>(reg: map<string, Config>, reg': map<string, Config>,
                                          names: seq<string>, hierarchy: seq<string>, select: Config -> seq<T>)
    requires forall x :: x in names && x in hierarchy ==> (x in reg <==> x in reg')
    requires forall x :: x in names && x in hierarchy && x in reg ==> select(reg[x]) == select(reg'[x])
    ensures Gather(reg, names, hierarchy, select) == Gather(reg', names, hierarchy, select)
  {
    if names != [] {
      var p := names[..|names| - 1];
      forall x | x in p
        ensures x in names
      {
        assert x == names[FirstIndex(p, x)];
      }
      GatherFrame(reg, reg', p, hierarchy, select);
    }
  }

  predicate IsEnforcedPlatform(attributes: Attributes) {
    attributes.category == Some(EnforcedPlatform)
  }

  function Forced(d: Dependency): (r: Dependency) {
    d.(isForced := true)
  }

  /** The forced form of every dependency, in the same order. */
  function ForceAll(ds: seq<Dependency>): (r: seq<Dependency>)
    ensures |r| == |ds|
    ensures forall i :: 0 <= i < |ds| ==> r[i].isForced && r[i].selector == ds[i].selector
  {
    seq(|ds|, i requires 0 <= i < |ds| => Forced(ds[i]))
  }

  lemma ForceAllPrefix(ds: seq<Dependency>, i: nat)
    requires i < |ds|
    ensures ForceAll(ds[..i + 1]) == ForceAll(ds[..i]) + [Forced(ds[i])]
  {
  }

  function SelectDependencies(c: Config): (r: seq<Dependency>) { c.definedDependencies }
  function SelectExcludes(c: Config): (r: seq<Exclude>) { c.definedExcludes }
  function SelectFiles(c: Config): (r: seq<FileDependency>) { c.definedFiles }

  /** What `getDependencies` of a configuration with these `hierarchy` and `attributes`
      yields over registry `reg` (already realised) in order `order`. */
  function AggregatedDependencies(reg: map<string, Config>, order: seq<string>, hierarchy: seq<string>,
                                  attributes: Attributes): (r: seq<Dependency>)
  {
    var raw := Gather(reg, order, hierarchy, SelectDependencies);
    if IsEnforcedPlatform(attributes) then ForceAll(raw) else raw
  }

  function AggregatedExcludes(reg: map<string, Config>, order: seq<string>, hierarchy: seq<string>): (r: seq<Exclude>) {
    Gather(reg, order, hierarchy, SelectExcludes)
  }

  function AggregatedFiles(reg: map<string, Config>, order: seq<string>, hierarchy: seq<string>): (r: seq<FileDependency>) {
    Dedup(Gather(reg, order, hierarchy, SelectFiles))
  }

  /** The enforced-platform rule: forced iff the category says so, length and order kept. */
  lemma {:induction false} AggregatedDependenciesForcedRule(reg: map<string, Config>, order: seq<string>,
                                                           hierarchy: seq<string>, attributes: Attributes)
    ensures var raw := Gather(reg, order, hierarchy, SelectDependencies);
            var r := AggregatedDependencies(reg, order, hierarchy, attributes);
            && |r| == |raw|
            && (IsEnforcedPlatform(attributes) ==> forall i :: 0 <= i < |r| ==> r[i] == Forced(raw[i]))
            && (!IsEnforcedPlatform(attributes) ==> r == raw)
  {
  }

  // ---------------------------------------------------------------------------
  // Artifact realisation

  function Bind(id: ComponentId, a: PublishArtifact): (r: LocalArtifact) {
    LocalArtifact(id, a.name, a.file)
  }

  function BindAll(id: ComponentId, s: seq<PublishArtifact>): (r: seq<LocalArtifact>)
    ensures |r| == |s|
  {
    seq(|s|, i requires 0 <= i < |s| => Bind(id, s[i]))
  }

  lemma BindAllPrefix(id: ComponentId, s: seq<PublishArtifact>, i: nat)
    requires i < |s|
    ensures BindAll(id, s[..i + 1]) == BindAll(id, s[..i]) + [Bind(id, s[i])]
  {
  }

  /** Every name in a hierarchy is registered, and each other member's hierarchy is a
      strict subset of the including one (no cycles). Realisation needs this. */
  ghost predicate HierarchyWellFormed(reg: map<string, Config>) {
    forall x, p :: x in reg && p in reg[x].hierarchy && p != x ==>
      p in reg && Elements(reg[p].hierarchy) < Elements(reg[x].hierarchy)
  }

  /** The artifacts configuration `n` has once finalised: the cached list if already
      realised, otherwise its own declarations bound to `id`, then the realised
      artifacts of every other hierarchy member in hierarchy order, without duplicates. */
  function ExpectedArtifacts(reg: map<string, Config>, id: ComponentId, n: string): (r: seq<LocalArtifact>)
    requires HierarchyWellFormed(reg) && n in reg
    decreases Elements(reg[n].hierarchy), 1, 0
  {
    match reg[n].artifacts
    case Realized(v) => v
    case Pending(declared) =>
      if declared == [] && reg[n].hierarchy == [] then []
      else Dedup(BindAll(id, declared) + InheritedArtifacts(reg, id, n, reg[n].hierarchy))
  }

  /** Concatenation of the expected artifacts of the members of `hs` other than `n`. */
  function InheritedArtifacts(reg: map<string, Config>, id: ComponentId, n: string, hs: seq<string>): (r: seq<LocalArtifact>)
    requires HierarchyWellFormed(reg) && n in reg
    requires forall p :: p in hs ==> p in reg[n].hierarchy
    decreases Elements(reg[n].hierarchy), 0, |hs|
  {
    if hs == [] then []
    else
      var last := hs[|hs| - 1];
      InheritedArtifacts(reg, id, n, hs[..|hs| - 1]) + (if last == n then [] else ExpectedArtifacts(reg, id, last))
  }

  lemma InheritedArtifactsSnoc(reg: map<string, Config>, id: ComponentId, n: string, hs: seq<string>, p: string)
    requires HierarchyWellFormed(reg) && n in reg
    requires forall q :: q in hs + [p] ==> q in reg[n].hierarchy
    ensures InheritedArtifacts(reg, id, n, hs + [p]) ==
            InheritedArtifacts(reg, id, n, hs) + (if p == n then [] else ExpectedArtifacts(reg, id, p))
    ensures ReachedVia(reg, n, hs + [p]) == ReachedVia(reg, n, hs) + (if p == n then {} else Reached(reg, p))
  {
    assert (hs + [p])[..|hs|] == hs;
  }

  /** `reg'` is `reg` with some pending artifact slots finalised to their expected
      values; hierarchies are unchanged. */
  ghost predicate RealizedFrom(reg: map<string, Config>, reg': map<string, Config>, id: ComponentId)
    requires HierarchyWellFormed(reg)
  {
    && reg'.Keys == reg.Keys
    && forall x :: x in reg ==>
         && reg'[x].hierarchy == reg[x].hierarchy
         && (|| reg'[x].artifacts == reg[x].artifacts
             || (reg[x].artifacts.Pending? && reg'[x].artifacts == Realized(ExpectedArtifacts(reg, id, x))))
  }

  lemma RealizedFromWellFormed(reg: map<string, Config>, reg': map<string, Config>, id: ComponentId)
    requires HierarchyWellFormed(reg) && RealizedFrom(reg, reg', id)
    ensures HierarchyWellFormed(reg')
  {
    forall x, p | x in reg' && p in reg'[x].hierarchy && p != x
      ensures p in reg' && Elements(reg'[p].hierarchy) < Elements(reg'[x].hierarchy)
    {
      assert x in reg && p in reg[x].hierarchy;
    }
  }

  /** Finalising slots to their expected values does not change any expected value. */
  lemma {:induction false} ExpectedArtifactsStable(reg: map<string, Config>, reg': map<string, Config>, id: ComponentId, n: string)
    requires HierarchyWellFormed(reg) && RealizedFrom(reg, reg', id) && n in reg
    ensures HierarchyWellFormed(reg')
    ensures ExpectedArtifacts(reg', id, n) == ExpectedArtifacts(reg, id, n)
    decreases Elements(reg[n].hierarchy), 1, 0
  {
    RealizedFromWellFormed(reg, reg', id);
    if reg'[n].artifacts == reg[n].artifacts && reg[n].artifacts.Pending? {
      InheritedArtifactsStable(reg, reg', id, n, reg[n].hierarchy);
    }
  }

  lemma {:induction false} InheritedArtifactsStable(reg: map<string, Config>, reg': map<string, Config>, id: ComponentId,
                                                     n: string, hs: seq<string>)
    requires HierarchyWellFormed(reg) && RealizedFrom(reg, reg', id) && n in reg
    requires forall p :: p in hs ==> p in reg[n].hierarchy
    ensures HierarchyWellFormed(reg')
    ensures InheritedArtifacts(reg', id, n, hs) == InheritedArtifacts(reg, id, n, hs)
    decreases Elements(reg[n].hierarchy), 0, |hs|
  {
    RealizedFromWellFormed(reg, reg', id);
    if hs != [] {
      var last := hs[|hs| - 1];
      InheritedArtifactsStable(reg, reg', id, n, hs[..|hs| - 1]);
      if last != n {
        ExpectedArtifactsStable(reg, reg', id, last);
      }
    }
  }

  /** Finalising `n`'s hierarchy has reached member `i`: `reg` is a realisation of `reg0`,
      `inherited` holds the artifacts of the members before `i`, and the variants `v0`
      have become `vs`, with those of every configuration reached so far finalised. */
  ghost predicate Inheriting(reg0: map<string, Config>, reg: map<string, Config>,
                             v0: seq<(string, Variant)>, vs: seq<(string, Variant)>, id: ComponentId, n: string,
                             i: nat, inherited: seq<LocalArtifact>)
  {
    && HierarchyWellFormed(reg0) && n in reg0 && i <= |reg0[n].hierarchy|
    && HierarchyWellFormed(reg) && RealizedFrom(reg0, reg, id) && OnlyArtifactsChanged(reg0, reg)
    && inherited == InheritedArtifacts(reg0, id, n, reg0[n].hierarchy[..i])
    && vs == RealizeOwnedBy(id, v0, ReachedVia(reg0, n, reg0[n].hierarchy[..i]))
    && Absorbed(reg0, reg, ReachedVia(reg0, n, reg0[n].hierarchy[..i]))
  }

  lemma InheritingStart(reg0: map<string, Config>, v0: seq<(string, Variant)>, id: ComponentId, n: string)
    requires HierarchyWellFormed(reg0) && n in reg0
    ensures Inheriting(reg0, reg0, v0, v0, id, n, 0, [])
  {
    RealizedFromReflexive(reg0, id);
    assert reg0[n].hierarchy[..0] == [];
    RealizeOwnedByCompose(id, v0, {}, {});
  }

  /** Finalising pending `n` itself, once its hierarchy is done, keeps the record. */
  lemma AbsorbedFinish(reg0: map<string, Config>, cur: map<string, Config>, n: string, a: ArtifactSlot)
    requires HierarchyWellFormed(reg0) && n in reg0 && n in cur && reg0[n].artifacts.Pending?
    requires Absorbed(reg0, cur, ReachedBySlot(reg0, n))
    ensures Absorbed(reg0, cur[n := cur[n].(artifacts := a)], ReachedBySlot(reg0, n))
  {
  }

  /** Member `i` of `n`'s hierarchy is registered and, unless it is `n`, has a strictly
      smaller hierarchy. */
  lemma InheritingMember(reg0: map<string, Config>, reg: map<string, Config>,
                         v0: seq<(string, Variant)>, vs: seq<(string, Variant)>, id: ComponentId, n: string,
                         i: nat, inherited: seq<LocalArtifact>)
    requires Inheriting(reg0, reg, v0, vs, id, n, i, inherited) && i < |reg0[n].hierarchy|
    ensures n in reg && reg[n].hierarchy == reg0[n].hierarchy
    ensures var p := reg0[n].hierarchy[i];
            p != n ==> p in reg && Elements(reg[p].hierarchy) < Elements(reg0[n].hierarchy)
  {
    var p := reg0[n].hierarchy[i];
    assert p in reg0[n].hierarchy;
  }

  /** One member further: nothing changes if the member is `n`; otherwise the member has
      been prepared, which finalised its slot and the variants of what it reached. */
  lemma InheritingStep(reg0: map<string, Config>, before: map<string, Config>, after: map<string, Config>,
                       v0: seq<(string, Variant)>, vsBefore: seq<(string, Variant)>, vsAfter: seq<(string, Variant)>,
                       id: ComponentId, n: string, i: nat, inherited: seq<LocalArtifact>)
    requires Inheriting(reg0, before, v0, vsBefore, id, n, i, inherited) && i < |reg0[n].hierarchy|
    requires var p := reg0[n].hierarchy[i];
             if p == n then after == before && vsAfter == vsBefore
             else && p in before && HierarchyWellFormed(after) && RealizedFrom(before, after, id)
                  && OnlyArtifactsChanged(before, after)
                  && after[p].artifacts == Realized(ExpectedArtifacts(before, id, p))
                  && vsAfter == RealizeOwnedBy(id, vsBefore, Reached(before, p))
                  && Absorbed(before, after, Reached(before, p))
    ensures var p := reg0[n].hierarchy[i];
            Inheriting(reg0, after, v0, vsAfter, id, n, i + 1,
                       inherited + (if p == n then [] else after[p].artifacts.artifacts))
  {
    var hs := reg0[n].hierarchy;
    var p := hs[i];
    assert hs[..i + 1] == hs[..i] + [p];
    InheritedArtifactsSnoc(reg0, id, n, hs[..i], p);
    if p != n {
      ExpectedArtifactsStable(reg0, before, id, p);
      RealizedFromTransitive(reg0, before, after, id);
      InheritingVariantsStep(reg0, before, after, v0, vsBefore, vsAfter, id, ReachedVia(reg0, n, hs[..i]), p);
    }
  }

  /** The variant part of one step: preparing `p` on `before` finalises, together with
      what was done before, exactly what preparing it on `reg0` reaches. */
  lemma InheritingVariantsStep(reg0: map<string, Config>, before: map<string, Config>, after: map<string, Config>,
                               v0: seq<(string, Variant)>, vsBefore: seq<(string, Variant)>,
                               vsAfter: seq<(string, Variant)>, id: ComponentId, done: set<string>, p: string)
    requires HierarchyWellFormed(reg0) && RealizedFrom(reg0, before, id) && Absorbed(reg0, before, done) && p in reg0
    requires vsBefore == RealizeOwnedBy(id, v0, done)
    requires HierarchyWellFormed(before) && RealizedFrom(before, after, id)
    requires vsAfter == RealizeOwnedBy(id, vsBefore, Reached(before, p)) && Absorbed(before, after, Reached(before, p))
    ensures vsAfter == RealizeOwnedBy(id, v0, done + Reached(reg0, p))
    ensures Absorbed(reg0, after, done + Reached(reg0, p))
  {
    ReachedStable(reg0, before, id, done, p);
    assert done + Reached(before, p) == done + Reached(reg0, p);
    RealizeOwnedByCompose(id, v0, done, Reached(before, p));
    AbsorbedTransitive(reg0, before, after, id, done, Reached(before, p));
  }

  /** Finalising pending slot `n` to its expected value extends a realisation. */
  lemma RealizedFromFinish(reg: map<string, Config>, cur: map<string, Config>, id: ComponentId, n: string)
    requires HierarchyWellFormed(reg) && RealizedFrom(reg, cur, id) && OnlyArtifactsChanged(reg, cur)
    requires n in reg && reg[n].artifacts.Pending?
    ensures var next := cur[n := cur[n].(artifacts := Realized(ExpectedArtifacts(reg, id, n)))];
            && RealizedFrom(reg, next, id) && OnlyArtifactsChanged(reg, next) && HierarchyWellFormed(next)
  {
    var next := cur[n := cur[n].(artifacts := Realized(ExpectedArtifacts(reg, id, n)))];
    assert RealizedFrom(reg, next, id);
    RealizedFromWellFormed(reg, next, id);
  }

  lemma RealizedFromReflexive(reg: map<string, Config>, id: ComponentId)
    requires HierarchyWellFormed(reg)
    ensures RealizedFrom(reg, reg, id)
  {
  }

  lemma RealizedFromTransitive(reg: map<string, Config>, reg': map<string, Config>, reg'': map<string, Config>, id: ComponentId)
    requires HierarchyWellFormed(reg) && RealizedFrom(reg, reg', id)
    requires HierarchyWellFormed(reg') && RealizedFrom(reg', reg'', id)
    ensures RealizedFrom(reg, reg'', id)
  {
    RealizedFromWellFormed(reg, reg', id);
    forall x | x in reg
      ensures || reg''[x].artifacts == reg[x].artifacts
              || (reg[x].artifacts.Pending? && reg''[x].artifacts == Realized(ExpectedArtifacts(reg, id, x)))
    {
      ExpectedArtifactsStable(reg, reg', id, x);
    }
  }

  /** The realised artifacts of a variant: its own declarations bound to `id`, in order. */
  function RealizeVariant(id: ComponentId, v: Variant): (r: Variant)
    ensures r.artifacts.Realized?
    ensures v.artifacts.Realized? ==> r == v
    ensures v.artifacts.Pending? ==> r == v.(artifacts := Realized(BindAll(id, v.artifacts.declared)))
  {
    match v.artifacts
    case Realized(_) => v
    case Pending(declared) =>
      v.(artifacts := Realized(if declared == [] then [] else BindAll(id, declared)))
  }

  /** The variant entries `vs` with those whose owner is in `owners` finalised. */
  function RealizeOwnedBy(id: ComponentId, vs: seq<(string, Variant)>, owners: set<string>): (r: seq<(string, Variant)>)
  {
    seq(|vs|, k requires 0 <= k < |vs| => if vs[k].0 in owners then (vs[k].0, RealizeVariant(id, vs[k].1)) else vs[k])
  }

  /** Finalising the variants of two sets of owners one after the other is finalising
      those of their union; finalising no owner's variants changes nothing. */
  lemma RealizeOwnedByCompose(id: ComponentId, vs: seq<(string, Variant)>, a: set<string>, b: set<string>)
    ensures RealizeOwnedBy(id, RealizeOwnedBy(id, vs, a), b) == RealizeOwnedBy(id, vs, a + b)
    ensures RealizeOwnedBy(id, vs, {}) == vs
  {
  }

  /** Finalising variants changes nothing once they are all realised. */
  lemma RealizedVariantsUnchanged(vs: seq<(string, Variant)>, id: ComponentId, owners: set<string>)
    requires forall i :: 0 <= i < |vs| ==> vs[i].1.artifacts.Realized?
    ensures RealizeOwnedBy(id, vs, owners) == vs
  {
  }

  /** The configurations whose variants `prepareToResolveArtifacts` on `n` finalises:
      `n` itself and, while `n`'s artifacts are pending, every configuration that
      preparing each other member of its hierarchy reaches. */
  function Reached(reg: map<string, Config>, n: string): (r: set<string>)
    requires HierarchyWellFormed(reg) && n in reg
    decreases Elements(reg[n].hierarchy), 2, 0
  {
    {n} + ReachedBySlot(reg, n)
  }

  /** The configurations whose variants finalising `n`'s artifact slot finalises: none
      once the slot is realised. */
  function ReachedBySlot(reg: map<string, Config>, n: string): (r: set<string>)
    requires HierarchyWellFormed(reg) && n in reg
    decreases Elements(reg[n].hierarchy), 1, 0
  {
    if reg[n].artifacts.Pending? then ReachedVia(reg, n, reg[n].hierarchy) else {}
  }

  /** The configurations reached by preparing the members of `hs` other than `n`. */
  function ReachedVia(reg: map<string, Config>, n: string, hs: seq<string>): (r: set<string>)
    requires HierarchyWellFormed(reg) && n in reg
    requires forall p :: p in hs ==> p in reg[n].hierarchy
    decreases Elements(reg[n].hierarchy), 0, |hs|
  {
    if hs == [] then {}
    else
      var last := hs[|hs| - 1];
      ReachedVia(reg, n, hs[..|hs| - 1]) + (if last == n then {} else Reached(reg, last))
  }

  /** Preparing a configuration reaches itself and, while its artifacts are pending, every
      member of its hierarchy; once they are realised, only itself. */
  lemma ReachedCoversHierarchy(reg: map<string, Config>, n: string)
    requires HierarchyWellFormed(reg) && n in reg
    ensures reg[n].artifacts.Pending? ==> forall p :: p in reg[n].hierarchy ==> p in Reached(reg, n)
    ensures reg[n].artifacts.Realized? ==> Reached(reg, n) == {n}
  {
    if reg[n].artifacts.Pending? {
      ReachedViaCovers(reg, n, reg[n].hierarchy);
    }
  }

  lemma {:induction false} ReachedViaCovers(reg: map<string, Config>, n: string, hs: seq<string>)
    requires HierarchyWellFormed(reg) && n in reg
    requires forall p :: p in hs ==> p in reg[n].hierarchy
    ensures forall p :: p in hs && p != n ==> p in ReachedVia(reg, n, hs)
    decreases |hs|
  {
    if hs != [] {
      ReachedViaCovers(reg, n, hs[..|hs| - 1]);
      forall p | p in hs && p != n
        ensures p in ReachedVia(reg, n, hs)
      {
        if p != hs[|hs| - 1] {
          var k :| 0 <= k < |hs| && hs[k] == p;
          assert hs[..|hs| - 1][k] == p;
        }
      }
    }
  }

  /** "base" owns a pending variant and pending "impl" includes "base" in its hierarchy:
      preparing "impl" finalises the variant of "base". */
  lemma PreparingInheritorFinalisesParentVariant()
    ensures var none := Attributes(None, 0);
            var base := NewConfig("base", "", {}, ["base"], true, true, none, true, false);
            var impl := NewConfig("impl", "", {"base"}, ["impl", "base"], true, true, none, true, false);
            var reg := map["base" := base, "impl" := impl];
            var jar := PublishArtifact(ArtifactName("base", "jar", None), "base.jar");
            var vs := [("base", Variant("apiElements", none, Pending([jar])))];
            && HierarchyWellFormed(reg)
            && Reached(reg, "impl") == {"impl", "base"}
            && RealizeOwnedBy("project", vs, Reached(reg, "impl"))
               == [("base", Variant("apiElements", none, Realized([LocalArtifact("project", jar.name, jar.file)])))]
  {
    var none := Attributes(None, 0);
    var base := NewConfig("base", "", {}, ["base"], true, true, none, true, false);
    var impl := NewConfig("impl", "", {"base"}, ["impl", "base"], true, true, none, true, false);
    var reg := map["base" := base, "impl" := impl];
    assert Elements(["base"]) == {"base"} && Elements(["impl", "base"]) == {"impl", "base"};
    assert HierarchyWellFormed(reg);
    assert ["base"][..0] == [] && ["impl", "base"][..1] == ["impl"] && ["impl"][..0] == [];
    assert ReachedVia(reg, "base", ["base"]) == {};
    assert Reached(reg, "base") == {"base"};
    assert ReachedVia(reg, "impl", ["impl"]) == {};
    assert ReachedVia(reg, "impl", ["impl", "base"]) == {"base"};
    var jar := PublishArtifact(ArtifactName("base", "jar", None), "base.jar");
    assert BindAll("project", [jar]) == [LocalArtifact("project", jar.name, jar.file)];
  }

  /** Every configuration `reg` has finalised since `reg0` has already had the variants
      of everything it reached in `reg0` (other than its own) finalised: they are in `done`. */
  ghost predicate Absorbed(reg0: map<string, Config>, reg: map<string, Config>, done: set<string>)
    requires HierarchyWellFormed(reg0)
  {
    forall q :: q in reg0 && q in reg && reg0[q].artifacts.Pending? && reg[q].artifacts.Realized? ==>
      Reached(reg0, q) <= {q} + done
  }

  /** What a configuration reaches can only shrink as slots are finalised, and what it
      no longer reaches has already been done. */
  lemma {:induction false} ReachedStable(reg0: map<string, Config>, reg: map<string, Config>, id: ComponentId,
                                         done: set<string>, n: string)
    requires HierarchyWellFormed(reg0) && RealizedFrom(reg0, reg, id) && Absorbed(reg0, reg, done) && n in reg0
    ensures HierarchyWellFormed(reg)
    ensures Reached(reg, n) <= Reached(reg0, n) <= Reached(reg, n) + done
    decreases Elements(reg0[n].hierarchy), 2, 0
  {
    RealizedFromWellFormed(reg0, reg, id);
    if reg[n].artifacts.Pending? {
      ReachedViaStable(reg0, reg, id, done, n, reg0[n].hierarchy);
    }
  }

  lemma {:induction false} ReachedViaStable(reg0: map<string, Config>, reg: map<string, Config>, id: ComponentId,
                                            done: set<string>, n: string, hs: seq<string>)
    requires HierarchyWellFormed(reg0) && RealizedFrom(reg0, reg, id) && Absorbed(reg0, reg, done) && n in reg0
    requires forall p :: p in hs ==> p in reg0[n].hierarchy
    ensures HierarchyWellFormed(reg)
    ensures ReachedVia(reg, n, hs) <= ReachedVia(reg0, n, hs) <= ReachedVia(reg, n, hs) + done
    decreases Elements(reg0[n].hierarchy), 0, |hs|
  {
    RealizedFromWellFormed(reg0, reg, id);
    if hs != [] {
      var last := hs[|hs| - 1];
      ReachedViaStable(reg0, reg, id, done, n, hs[..|hs| - 1]);
      if last != n {
        assert last in reg0[n].hierarchy;
        ReachedStable(reg0, reg, id, done, last);
      }
    }
  }

  /** Two finalisation steps, each recording what it did, compose. */
  lemma AbsorbedTransitive(reg0: map<string, Config>, reg1: map<string, Config>, reg2: map<string, Config>,
                           id: ComponentId, a: set<string>, b: set<string>)
    requires HierarchyWellFormed(reg0) && RealizedFrom(reg0, reg1, id) && Absorbed(reg0, reg1, a)
    requires HierarchyWellFormed(reg1) && RealizedFrom(reg1, reg2, id) && Absorbed(reg1, reg2, b)
    ensures Absorbed(reg0, reg2, a + b)
  {
    forall q | q in reg0 && q in reg2 && reg0[q].artifacts.Pending? && reg2[q].artifacts.Realized?
      ensures Reached(reg0, q) <= {q} + (a + b)
    {
      ReachedStable(reg0, reg1, id, a, q);
    }
  }

  // ---------------------------------------------------------------------------
  // Consumable variants for graph traversal

  predicate Qualifies(c: Config) {
    c.canBeConsumed && !c.attributes.IsEmpty()
  }

  /** `Absent` is the explicit "no variants" marker, distinct from an empty list. */
  datatype TraversalVariants = Absent | Present(names: seq<string>)

  function QualifyingNames(reg: map<string, Config>, order: seq<string>): (r: seq<string>)
    ensures forall n :: n in r <==> n in order && n in reg && Qualifies(reg[n])
    ensures |r| <= |order|
  {
    if order == [] then []
    else
      var last := order[|order| - 1];
      QualifyingNames(reg, order[..|order| - 1]) + (if last in reg && Qualifies(reg[last]) then [last] else [])
  }

  lemma QualifyingNamesPrefix(reg: map<string, Config>, order: seq<string>, i: nat)
    requires i < |order|
    ensures QualifyingNames(reg, order[..i + 1]) ==
            QualifyingNames(reg, order[..i]) + (if order[i] in reg && Qualifies(reg[order[i]]) then [order[i]] else [])
  {
    assert order[..i + 1][..i] == order[..i];
  }

  function VariantsForGraphTraversal(reg: map<string, Config>, order: seq<string>): (r: TraversalVariants) {
    var q := QualifyingNames(reg, order);
    if q == [] then Absent else Present(q)
  }

  /** Absent exactly when no registered configuration qualifies; otherwise a non-empty
      list holding exactly the qualifying ones. */
  lemma VariantsForGraphTraversalCases(reg: map<string, Config>, order: seq<string>)
    ensures var r := VariantsForGraphTraversal(reg, order);
            && (r.Absent? <==> forall n :: n in order && n in reg ==> !Qualifies(reg[n]))
            && (r.Present? ==> |r.names| > 0 && forall n :: n in r.names <==> n in order && n in reg && Qualifies(reg[n]))
  {
    var q := QualifyingNames(reg, order);
    if q != [] {
      assert q[0] in q;
    }
  }

  // ---------------------------------------------------------------------------
  // Artifact lookup by name

  /** Index of the first artifact named `name`, if any. */
  function FirstNamed(arts: seq<LocalArtifact>, name: ArtifactName): (r: Option<nat>)
    ensures r.Some? ==> r.value < |arts| && arts[r.value].name == name
                        && forall j :: 0 <= j < r.value ==> arts[j].name != name
    ensures r.None? ==> forall j :: 0 <= j < |arts| ==> arts[j].name != name
  {
    if arts == [] then None
    else if arts[0].name == name then Some(0)
    else match FirstNamed(arts[1..], name)
      case None => None
      case Some(k) => Some(k + 1)
  }

  // ---------------------------------------------------------------------------
  // Copying artifacts through a transform, at most once per distinct artifact

  /** `memo` holds the transform of exactly the artifacts in the call log `calls`,
      and no artifact was transformed twice. */
  ghost predicate MemoOf(memo: map<LocalArtifact, LocalArtifact>, calls: seq<LocalArtifact>, t: LocalArtifact -> LocalArtifact) {
    && NoDuplicates(calls)
    && memo.Keys == Elements(calls)
    && (forall a {:trigger memo[a]} :: a in memo ==> memo[a] == t(a))
  }

  /** Transforms `a` unless the memo already holds it. `seen` is every artifact copied
      so far: the call log stays its first occurrences, so the transform ran once
      for each distinct artifact and for nothing else. */
  method CopyArtifact(a: LocalArtifact, t: LocalArtifact -> LocalArtifact,
                      memo: map<LocalArtifact, LocalArtifact>, ghost seen: seq<LocalArtifact>, ghost calls: seq<LocalArtifact>)
    returns (r: LocalArtifact, memo': map<LocalArtifact, LocalArtifact>, ghost calls': seq<LocalArtifact>)
    requires MemoOf(memo, calls, t) && calls == Dedup(seen)
    ensures MemoOf(memo', calls', t) && calls' == Dedup(seen + [a])
    ensures r == t(a)
    ensures a in memo ==> memo' == memo && calls' == calls
  {
    DedupSnoc(seen, a);
    if a in memo {
      r, memo', calls' := memo[a], memo, calls;
    } else {
      r := t(a);
      MemoOfExtend(memo, calls, t, a);
      memo', calls' := memo[a := r], calls + [a];
    }
  }

  lemma DedupSnoc<T(!new)>(s: seq<T>, x: T)
    ensures Dedup(s + [x]) == if x in Dedup(s) then Dedup(s) else Dedup(s) + [x]
  {
    assert (s + [x])[..|s|] == s;
  }

  lemma MemoOfExtend(memo: map<LocalArtifact, LocalArtifact>, calls: seq<LocalArtifact>, t: LocalArtifact -> LocalArtifact,
                     a: LocalArtifact)
    requires MemoOf(memo, calls, t) && a !in memo
    ensures MemoOf(memo[a := t(a)], calls + [a], t)
  {
    assert Elements(calls + [a]) == Elements(calls) + {a};
  }

  method CopyArtifacts(arts: seq<LocalArtifact>, t: LocalArtifact -> LocalArtifact,
                       memo: map<LocalArtifact, LocalArtifact>, ghost seen: seq<LocalArtifact>, ghost calls: seq<LocalArtifact>)
    returns (r: seq<LocalArtifact>, memo': map<LocalArtifact, LocalArtifact>, ghost calls': seq<LocalArtifact>)
    requires MemoOf(memo, calls, t) && calls == Dedup(seen)
    ensures MemoOf(memo', calls', t) && calls' == Dedup(seen + arts)
    ensures r == TransformAll(t, arts)
    ensures arts == [] ==> memo' == memo && calls' == calls
  {
    if arts == [] {
      assert seen + arts == seen;
      return [], memo, calls;
    }
    r, memo', calls' := [], memo, calls;
    var i := 0;
    assert seen + arts[..0] == seen;
    while i < |arts|
      invariant 0 <= i <= |arts|
      invariant MemoOf(memo', calls', t) && calls' == Dedup(seen + arts[..i])
      invariant r == TransformAll(t, arts[..i])
    {
      var a;
      PrefixStep(t, seen, arts, i);
      a, memo', calls' := CopyArtifact(arts[i], t, memo', seen + arts[..i], calls');
      r := r + [a];
      i := i + 1;
    }
    assert arts[..i] == arts;
  }

  lemma PrefixStep(t: LocalArtifact -> LocalArtifact, seen: seq<LocalArtifact>, arts: seq<LocalArtifact>, i: nat)
    requires i < |arts|
    ensures seen + arts[..i + 1] == (seen + arts[..i]) + [arts[i]]
    ensures TransformAll(t, arts[..i + 1]) == TransformAll(t, arts[..i]) + [t(arts[i])]
  {
    PrefixSnoc(arts, i);
    TransformAllSnoc(t, arts[..i], arts[i]);
  }

  /** Applies the transform to every artifact, keeping order and length. */
  function TransformAll(t: LocalArtifact -> LocalArtifact, arts: seq<LocalArtifact>): (r: seq<LocalArtifact>)
    ensures |r| == |arts|
  {
    seq(|arts|, i requires 0 <= i < |arts| => t(arts[i]))
  }

  lemma TransformAllSnoc(t: LocalArtifact -> LocalArtifact, arts: seq<LocalArtifact>, a: LocalArtifact)
    ensures TransformAll(t, arts + [a]) == TransformAll(t, arts) + [t(a)]
  {
    assert forall k :: 0 <= k < |arts| ==> (arts + [a])[k] == arts[k];
  }

  function SlotArtifacts(slot: ArtifactSlot): (r: seq<LocalArtifact>) {
    match slot
    case Pending(_) => []
    case Realized(arts) => arts
  }

  function SelectArtifacts(c: Config): (r: seq<LocalArtifact>) { SlotArtifacts(c.artifacts) }

  /** The variants the multimap `vs` holds under key `c`, in insertion order. */
  function OwnedVariants(vs: seq<(string, Variant)>, c: string): (r: seq<Variant>)
    ensures |r| <= |vs|
    ensures forall v :: v in r <==> (c, v) in vs
  {
    if vs == [] then []
    else OwnedVariants(vs[..|vs| - 1], c) + (if vs[|vs| - 1].0 == c then [vs[|vs| - 1].1] else [])
  }

  lemma OwnedVariantsPrefix(vs: seq<(string, Variant)>, c: string, i: nat)
    requires i < |vs|
    ensures OwnedVariants(vs[..i + 1], c) == OwnedVariants(vs[..i], c) + (if vs[i].0 == c then [vs[i].1] else [])
  {
    assert vs[..i + 1][..i] == vs[..i];
  }

  /** The realised artifact lists of `vs`, concatenated in multimap order. */
  function VariantArtifactLists(vs: seq<(string, Variant)>): (r: seq<LocalArtifact>) {
    if vs == [] then []
    else VariantArtifactLists(vs[..|vs| - 1]) + SlotArtifacts(vs[|vs| - 1].1.artifacts)
  }

  /** The variants `v0` with those among the first `i` that configuration `n` owns realised. */
  ghost predicate VariantsRealizedFor(v0: seq<(string, Variant)>, vs: seq<(string, Variant)>, id: ComponentId,
                                      n: string, i: nat)
  {
    && i <= |vs| == |v0|
    && forall k :: 0 <= k < |vs| ==>
         vs[k] == if k < i && v0[k].0 == n then (n, RealizeVariant(id, v0[k].1)) else v0[k]
  }

  lemma VariantsRealizedForStep(v0: seq<(string, Variant)>, before: seq<(string, Variant)>,
                                after: seq<(string, Variant)>, id: ComponentId, n: string, i: nat)
    requires VariantsRealizedFor(v0, before, id, n, i) && i < |before|
    requires after == if before[i].0 == n then before[i := (before[i].0, RealizeVariant(id, before[i].1))] else before
    ensures VariantsRealizedFor(v0, after, id, n, i + 1)
  {
  }

  /** Copying the variants `v0` has realised the first `i` of them into `vs` and listed
      their copies in `copied`, transforming each distinct artifact once. */
  ghost predicate VariantsCopied(v0: seq<(string, Variant)>, vs: seq<(string, Variant)>, id: ComponentId,
                                 copied: seq<(string, Variant)>, t: LocalArtifact -> LocalArtifact,
                                 memo: map<LocalArtifact, LocalArtifact>, calls: seq<LocalArtifact>, i: nat)
  {
    && i <= |vs| == |v0| && |copied| == i
    && (forall k :: 0 <= k < i ==> vs[k] == (v0[k].0, RealizeVariant(id, v0[k].1)))
    && (forall k :: i <= k < |vs| ==> vs[k] == v0[k])
    && (forall k :: 0 <= k < i ==> copied[k] == (vs[k].0, CopiedVariant(vs[k].1, t)))
    && MemoOf(memo, calls, t) && calls == Dedup(VariantArtifactLists(vs[..i]))
  }

  lemma VariantsCopiedStep(v0: seq<(string, Variant)>, before: seq<(string, Variant)>, after: seq<(string, Variant)>,
                           id: ComponentId, copied: seq<(string, Variant)>, t: LocalArtifact -> LocalArtifact,
                           memo: map<LocalArtifact, LocalArtifact>, calls: seq<LocalArtifact>,
                           memo': map<LocalArtifact, LocalArtifact>, calls': seq<LocalArtifact>,
                           newArts: seq<LocalArtifact>, i: nat)
    requires i < |before| && VariantsCopied(v0, before, id, copied, t, memo, calls, i)
    requires after == before[i := (before[i].0, RealizeVariant(id, before[i].1))]
    requires newArts == TransformAll(t, SlotArtifacts(after[i].1.artifacts))
    requires MemoOf(memo', calls', t)
    requires calls' == Dedup(VariantArtifactLists(before[..i]) + SlotArtifacts(after[i].1.artifacts))
    ensures VariantsCopied(v0, after, id, copied + [(after[i].0, Variant(after[i].1.name, after[i].1.attributes, Realized(newArts)))],
                           t, memo', calls', i + 1)
  {
    assert after[..i + 1] == before[..i] + [after[i]];
    assert (before[..i] + [after[i]])[..i] == before[..i];
  }

  /** Every artifact the copy transforms: the variants' lists, then the configurations' lists. */
  function CopySources(reg: map<string, Config>, order: seq<string>, vs: seq<(string, Variant)>): (r: seq<LocalArtifact>) {
    VariantArtifactLists(vs) + Gather(reg, order, order, SelectArtifacts)
  }

  /** The configuration `copy` registers for `c`: same name, flags, hierarchy and attributes, nothing declared. */
  function CopiedShell(c: Config): (r: Config) {
    NewConfig(c.name, c.description, c.extendsFrom, c.hierarchy, c.visible, c.transitive, c.attributes,
              c.canBeConsumed, c.canBeResolved)
  }

  /** The copy's registry `cfgs` and order `ord` once the first `i` names of `names`
      are registered, each as the shell of its configuration in `reg`. */
  ghost predicate ShellsOf(reg: map<string, Config>, names: seq<string>, i: nat,
                           cfgs: map<string, Config>, ord: seq<string>)
  {
    && i <= |names| && ord == names[..i] && cfgs.Keys == Elements(names[..i])
    && forall x :: x in cfgs ==> x in reg && cfgs[x] == CopiedShell(reg[x])
  }

  lemma ShellsStart(reg: map<string, Config>, names: seq<string>)
    ensures ShellsOf(reg, names, 0, map[], [])
  {
    assert names[..0] == [];
  }

  /** Registering the next name adds its shell: the name is new, and the shell is the
      configuration `addConfiguration` builds from the source's fields. */
  lemma ShellsStep(reg: map<string, Config>, names: seq<string>, i: nat, cfgs: map<string, Config>, ord: seq<string>)
    requires ShellsOf(reg, names, i, cfgs, ord) && i < |names| && NoDuplicates(names)
    requires forall x :: x in names ==> x in reg && reg[x].name == x
    ensures var x := names[i];
            var c := reg[x];
            && x !in cfgs
            && ShellsOf(reg, names, i + 1,
                        cfgs[x := NewConfig(x, c.description, c.extendsFrom, c.hierarchy, c.visible, c.transitive,
                                            c.attributes, c.canBeConsumed, c.canBeResolved)],
                        ord + [x])
  {
    NotInPrefix(names, i);
    PrefixSnoc(names, i);
    assert names[i] in names;
  }

  /** `dst` is the copy of the realised configuration `src`: raw lists verbatim, artifacts transformed. */
  ghost predicate CopiedConfig(src: Config, dst: Config, t: LocalArtifact -> LocalArtifact) {
    && src.artifacts.Realized?
    && dst == CopiedShell(src).(definedDependencies := src.definedDependencies,
                                definedExcludes := src.definedExcludes,
                                definedFiles := src.definedFiles,
                                artifacts := Realized(TransformAll(t, src.artifacts.artifacts)))
  }

  lemma CopiedRegistryKeepsNames(reg: map<string, Config>, copies: map<string, Config>, t: LocalArtifact -> LocalArtifact)
    requires copies.Keys == reg.Keys && forall n :: n in reg ==> CopiedConfig(reg[n], copies[n], t)
    ensures forall n :: n in copies ==> copies[n].name == reg[n].name && copies[n].hierarchy == reg[n].hierarchy
  {
  }

  function CopiedVariant(v: Variant, t: LocalArtifact -> LocalArtifact): (r: Variant) {
    Variant(v.name, v.attributes, Realized(TransformAll(t, SlotArtifacts(v.artifacts))))
  }

  /** `reg'` differs from `reg` at most in artifact slots. */
  ghost predicate OnlyArtifactsChanged(reg: map<string, Config>, reg': map<string, Config>) {
    && reg'.Keys == reg.Keys
    && forall x :: x in reg ==> reg'[x] == reg[x].(artifacts := reg'[x].artifacts)
  }

  /** Configuration `x` once `copy` has realised both its declarations and its artifacts. */
  function Prepared(reg: map<string, Config>, id: ComponentId, x: string): (r: Config)
    requires HierarchyWellFormed(reg) && x in reg
    ensures r.artifacts.Realized? && r.backing.None? && r.hierarchy == reg[x].hierarchy
  {
    RealizeDependencies(reg[x]).(artifacts := Realized(ExpectedArtifacts(reg, id, x)))
  }

  /** Whatever slot a realisation has finalised holds the expected artifacts. */
  lemma RealizedSlotIsExpected(reg: map<string, Config>, reg': map<string, Config>, id: ComponentId, x: string)
    requires HierarchyWellFormed(reg) && RealizedFrom(reg, reg', id) && x in reg && reg'[x].artifacts.Realized?
    ensures reg'[x].artifacts == Realized(ExpectedArtifacts(reg, id, x))
  {
  }

  /** Realising a configuration's declarations leaves its artifacts and hierarchy alone. */
  lemma RealizeDependenciesKeepsRealization(reg: map<string, Config>, reg': map<string, Config>, id: ComponentId, x: string)
    requires HierarchyWellFormed(reg) && RealizedFrom(reg, reg', id) && x in reg'
    ensures RealizedFrom(reg, reg'[x := RealizeDependencies(reg'[x])], id)
    ensures HierarchyWellFormed(reg'[x := RealizeDependencies(reg'[x])])
  {
    var next := reg'[x := RealizeDependencies(reg'[x])];
    assert RealizedFrom(reg, next, id);
    RealizedFromWellFormed(reg, next, id);
  }

  /** Realising declarations of `x` commutes with changing artifact slots. */
  lemma OnlyArtifactsChangedCompose(a: map<string, Config>, b: map<string, Config>, c: map<string, Config>, x: string)
    requires x in a && OnlyArtifactsChanged(a, b) && OnlyArtifactsChanged(b[x := RealizeDependencies(b[x])], c)
    ensures OnlyArtifactsChanged(a[x := RealizeDependencies(a[x])], c)
  {
    var a' := a[x := RealizeDependencies(a[x])];
    forall y | y in a'
      ensures c[y] == a'[y].(artifacts := c[y].artifacts)
    {
      if y == x {
        assert b[x] == a[x].(artifacts := b[x].artifacts);
      }
    }
  }

  /** Progress of `copy` over the registry: the names in `done` have their declarations
      and artifacts realised; nothing else has changed apart from artifact slots
      finalised to their expected values. */
  ghost predicate PreparedAmong(reg0: map<string, Config>, reg: map<string, Config>, id: ComponentId,
                                order: seq<string>, done: seq<string>)
  {
    && HierarchyWellFormed(reg0) && HierarchyWellFormed(reg)
    && RealizedFrom(reg0, reg, id)
    && OnlyArtifactsChanged(RealizeAmong(reg0, order, done), reg)
    && forall y :: y in done ==> y in reg && reg[y].artifacts.Realized?
  }

  lemma PreparedAmongStart(reg0: map<string, Config>, id: ComponentId, order: seq<string>)
    requires HierarchyWellFormed(reg0)
    ensures PreparedAmong(reg0, reg0, id, order, [])
  {
    RealizedFromReflexive(reg0, id);
    assert RealizeAmong(reg0, order, []) == reg0;
  }

  lemma PreparedAmongStep(reg0: map<string, Config>, before: map<string, Config>, after: map<string, Config>,
                          id: ComponentId, order: seq<string>, done: seq<string>, x: string)
    requires x in before && x in order && x !in done
    requires PreparedAmong(reg0, before, id, order, done)
    requires HierarchyWellFormed(after) && RealizedFrom(before, after, id)
    requires OnlyArtifactsChanged(before[x := RealizeDependencies(before[x])], after)
    requires after[x].artifacts.Realized?
    ensures PreparedStep(reg0, before, after, id, order, done, x)
  {
    RealizeAmongStep(reg0, order, done, x);
    RealizedFromTransitive(reg0, before, after, id);
    OnlyArtifactsChangedCompose(RealizeAmong(reg0, order, done), before, after, x);
    UnchangedWhereRealized(before, after, id, done, x);
    PreparedKeepsShell(reg0, after, id, order, done + [x], x);
  }

  lemma DeclarationsKeepWellFormed(reg: map<string, Config>, x: string)
    requires HierarchyWellFormed(reg) && x in reg
    ensures HierarchyWellFormed(reg[x := RealizeDependencies(reg[x])])
  {
  }

  /** Realising the declarations of `x` and then its artifacts takes a prepared registry
      one name further. */
  lemma PreparedForCopy(reg0: map<string, Config>, before: map<string, Config>, after: map<string, Config>,
                        id: ComponentId, order: seq<string>, done: seq<string>, x: string)
    requires x in before && x in order && x !in done
    requires PreparedAmong(reg0, before, id, order, done)
    requires var mid := before[x := RealizeDependencies(before[x])];
             && HierarchyWellFormed(mid) && RealizedFrom(mid, after, id) && OnlyArtifactsChanged(mid, after)
             && after[x].artifacts.Realized?
    ensures PreparedStep(reg0, before, after, id, order, done, x)
  {
    var mid := before[x := RealizeDependencies(before[x])];
    RealizedFromReflexive(before, id);
    RealizeDependenciesKeepsRealization(before, before, id, x);
    RealizedFromTransitive(before, mid, after, id);
    PreparedAmongStep(reg0, before, after, id, order, done, x);
  }

  /** What realising `x` for the copy leaves behind: `x` joins the prepared names, the
      names already copied keep their configurations, and `x` keeps its declarations. */
  ghost predicate PreparedStep(reg0: map<string, Config>, before: map<string, Config>, after: map<string, Config>,
                               id: ComponentId, order: seq<string>, done: seq<string>, x: string)
  {
    && PreparedAmong(reg0, after, id, order, done + [x])
    && after.Keys == before.Keys && x in after && x in reg0
    && (forall y :: y in done ==> after[y] == before[y])
    && CopiedShell(after[x]) == CopiedShell(reg0[x]) && after[x].artifacts.Realized?
  }

  /** Slots already finalised stay as they are while `x` is realised. */
  lemma UnchangedWhereRealized(before: map<string, Config>, after: map<string, Config>, id: ComponentId,
                               done: seq<string>, x: string)
    requires HierarchyWellFormed(before) && RealizedFrom(before, after, id)
    requires x in before && x !in done
    requires OnlyArtifactsChanged(before[x := RealizeDependencies(before[x])], after)
    requires forall y :: y in done ==> y in before && before[y].artifacts.Realized?
    ensures forall y :: y in done ==> after[y] == before[y]
  {
    forall y | y in done
      ensures after[y] == before[y]
    {
      assert y != x;
      assert after[y].artifacts == before[y].artifacts;
      assert after[y] == before[y].(artifacts := after[y].artifacts);
    }
  }

  lemma PreparedAmongAll(reg0: map<string, Config>, reg: map<string, Config>, id: ComponentId, order: seq<string>)
    requires PreparedAmong(reg0, reg, id, order, order)
    requires forall y :: y in reg0 <==> y in order
    ensures reg.Keys == reg0.Keys
    ensures forall y :: y in reg ==> reg[y] == Prepared(reg0, id, y)
  {
    RealizeAmongAll(reg0, order, order);
    forall y | y in reg
      ensures reg[y] == Prepared(reg0, id, y)
    {
      RealizedSlotIsExpected(reg0, reg, id, y);
    }
  }

  /** Realising declarations and finalising artifacts leave what `copy` registers alone. */
  lemma PreparedKeepsShell(reg0: map<string, Config>, reg: map<string, Config>, id: ComponentId,
                           order: seq<string>, done: seq<string>, x: string)
    requires PreparedAmong(reg0, reg, id, order, done) && x in reg0
    ensures CopiedShell(reg[x]) == CopiedShell(reg0[x])
  {
    assert reg[x] == RealizeAmong(reg0, order, done)[x].(artifacts := reg[x].artifacts);
  }

  /** The registered copy `shell` of a configuration, filled with the declarations of
      the realised source `src` and the transformed artifacts `newArts`. */
  function Filled(shell: Config, src: Config, newArts: seq<LocalArtifact>): (r: Config) {
    shell.(definedDependencies := shell.definedDependencies + src.definedDependencies,
           definedFiles := shell.definedFiles + src.definedFiles,
           definedExcludes := shell.definedExcludes + src.definedExcludes,
           artifacts := Realized(newArts))
  }

  lemma FilledShellIsCopy(shell: Config, src: Config, t: LocalArtifact -> LocalArtifact, newArts: seq<LocalArtifact>)
    requires shell == CopiedShell(src) && src.artifacts.Realized? && newArts == TransformAll(t, src.artifacts.artifacts)
    ensures CopiedConfig(src, Filled(shell, src, newArts), t)
  {
    assert shell.definedDependencies == [] && shell.definedFiles == [] && shell.definedExcludes == [];
  }

  /** Progress of `copy` over the copy's registry `copies`: the names in `done` hold
      the copies of their realised configurations, the others the registered copy. */
  ghost predicate CopiesProgress(reg0: map<string, Config>, reg: map<string, Config>, copies: map<string, Config>,
                                 done: seq<string>, t: LocalArtifact -> LocalArtifact)
  {
    && copies.Keys == reg.Keys == reg0.Keys
    && (forall x :: x in reg && x !in done ==> copies[x] == CopiedShell(reg0[x]))
    && (forall x :: x in done ==> x in reg && CopiedConfig(reg[x], copies[x], t))
  }

  lemma CopiesProgressStep(reg0: map<string, Config>, before: map<string, Config>, after: map<string, Config>,
                           copies: map<string, Config>, done: seq<string>, x: string,
                           t: LocalArtifact -> LocalArtifact, newArts: seq<LocalArtifact>)
    requires x in before && x !in done
    requires CopiesProgress(reg0, before, copies, done, t)
    requires after.Keys == before.Keys && forall y :: y in done ==> after[y] == before[y]
    requires CopiedShell(after[x]) == CopiedShell(reg0[x]) && after[x].artifacts.Realized?
    requires newArts == TransformAll(t, after[x].artifacts.artifacts)
    ensures CopiesProgress(reg0, after, copies[x := Filled(copies[x], after[x], newArts)], done + [x], t)
  {
    FilledShellIsCopy(copies[x], after[x], t, newArts);
    CopiedStaysCopied(before, after, copies, done, x, t, Filled(copies[x], after[x], newArts));
  }

  /** The names copied earlier keep their copies when `x`'s copy is filled in. */
  lemma CopiedStaysCopied(before: map<string, Config>, after: map<string, Config>, copies: map<string, Config>,
                          done: seq<string>, x: string, t: LocalArtifact -> LocalArtifact, filled: Config)
    requires x !in done && x in after && CopiedConfig(after[x], filled, t)
    requires forall y :: y in done ==> y in before && y in copies && CopiedConfig(before[y], copies[y], t)
    requires forall y :: y in done ==> y in after && after[y] == before[y]
    ensures forall y :: y in done + [x] ==> y in after && CopiedConfig(after[y], copies[x := filled][y], t)
  {
  }

  lemma CopiesProgressAll(reg0: map<string, Config>, reg: map<string, Config>, copies: map<string, Config>,
                          order: seq<string>, t: LocalArtifact -> LocalArtifact)
    requires CopiesProgress(reg0, reg, copies, order, t)
    requires forall y :: y in reg0 <==> y in order
    ensures copies.Keys == reg.Keys
    ensures forall y :: y in reg ==> CopiedConfig(reg[y], copies[y], t)
  {
  }

  /** What `copy` has transformed grows by the artifacts of the configuration it just
      finalised; those finalised earlier are untouched. */
  lemma CopiedSourcesStep(fromVariants: seq<LocalArtifact>, before: map<string, Config>, after: map<string, Config>,
                          order: seq<string>, done: seq<string>, x: string)
    requires x in order && x in after && after[x].artifacts.Realized?
    requires forall y :: y in done ==> y in before && y in after && after[y] == before[y]
    ensures fromVariants + Gather(after, done + [x], order, SelectArtifacts) ==
            fromVariants + Gather(before, done, order, SelectArtifacts) + after[x].artifacts.artifacts
  {
    GatherFrame(before, after, done, order, SelectArtifacts);
    GatherSnoc(after, done, x, order, SelectArtifacts);
  }
}
