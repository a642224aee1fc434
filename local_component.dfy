/** The metadata of one local (project) component, updated in place: the
    insertion-ordered registry of configurations keyed by name, the multimap of
    variants keyed by owning configuration, and the caches the operations fill
    on first use. Each configuration is a `Config` value in the registry; its
    methods take the configuration's name. */
module LocalComponent {
  import opened Wrappers
  import opened ComponentModel

  class Component {
    const componentId: ComponentId
    /** allConfigurations, with `order` its insertion order. */
    var configs: map<string, Config>
    var order: seq<string>
    /** allVariants: (owning configuration name, variant) entries in insertion order. */
    var variants: seq<(string, Variant)>
    /** consumableConfigurations: None until first computed. */
    var traversalCache: Option<TraversalVariants>

    ghost predicate Valid()
      reads this
    {
      && NoDuplicates(order)
      && (forall n :: n in order <==> n in configs)
      && (forall n :: n in configs ==> configs[n].name == n && n in configs[n].hierarchy)
      && (forall i :: 0 <= i < |variants| ==> variants[i].0 in configs)
    }

    constructor (id: ComponentId)
      ensures Valid() && componentId == id
      ensures configs == map[] && order == [] && variants == [] && traversalCache == None
    {
      componentId := id;
      configs, order, variants, traversalCache := map[], [], [], None;
    }

    /** Registers a configuration under `name`. A name already registered keeps its
        place in the order and its configuration is replaced. */
    method AddConfiguration(name: string, description: string, extendsFrom: set<string>, hierarchy: seq<string>,
                            visible: bool, transitive: bool, attributes: Attributes,
                            canBeConsumed: bool, canBeResolved: bool)
      requires Valid() && name in hierarchy
      modifies this`configs, this`order
      ensures Valid()
      ensures configs == old(configs)[name := NewConfig(name, description, extendsFrom, hierarchy, visible, transitive,
                                                        attributes, canBeConsumed, canBeResolved)]
      ensures order == if name in old(configs) then old(order) else old(order) + [name]
    {
      if name !in configs {
        order := order + [name];
      }
      configs := configs[name := NewConfig(name, description, extendsFrom, hierarchy, visible, transitive,
                                           attributes, canBeConsumed, canBeResolved)];
    }

    /** Registered configuration names, in insertion order. */
    method GetConfigurationNames() returns (names: seq<string>)
      requires Valid()
      ensures names == order
      ensures NoDuplicates(names) && forall n :: n in names <==> n in configs
    {
      names := order;
    }

    /** Links configuration `c` to a backing configuration whose declarations are
        applied on first realisation. */
    method SetDeclarationSource(c: string, declarations: Declarations)
      requires Valid() && c in configs
      modifies this`configs
      ensures Valid()
      ensures configs == old(configs)[c := old(configs)[c].(backing := Some(declarations))]
    {
      configs := configs[c := configs[c].(backing := Some(declarations))];
    }

    method AddDependency(c: string, d: Dependency)
      requires Valid() && c in configs
      modifies this`configs
      ensures Valid()
      ensures configs == old(configs)[c := old(configs)[c].(definedDependencies := old(configs)[c].definedDependencies + [d])]
    {
      configs := configs[c := configs[c].(definedDependencies := configs[c].definedDependencies + [d])];
    }

    method AddExclude(c: string, e: Exclude)
      requires Valid() && c in configs
      modifies this`configs
      ensures Valid()
      ensures configs == old(configs)[c := old(configs)[c].(definedExcludes := old(configs)[c].definedExcludes + [e])]
    {
      configs := configs[c := configs[c].(definedExcludes := configs[c].definedExcludes + [e])];
    }

    method AddFiles(c: string, f: FileDependency)
      requires Valid() && c in configs
      modifies this`configs
      ensures Valid()
      ensures configs == old(configs)[c := old(configs)[c].(definedFiles := old(configs)[c].definedFiles + [f])]
    {
      configs := configs[c := configs[c].(definedFiles := configs[c].definedFiles + [f])];
    }

    /** Appends artifact declarations; once the configuration's artifacts are realised
        the declaration list is gone and the call fails (`ok` is false). */
    method AddArtifacts(c: string, arts: seq<PublishArtifact>) returns (ok: bool)
      requires Valid() && c in configs
      modifies this`configs
      ensures Valid()
      ensures ok == old(configs)[c].artifacts.Pending?
      ensures ok ==> configs == old(configs)[c := old(configs)[c].(artifacts := Pending(old(configs)[c].artifacts.declared + arts))]
      ensures !ok ==> configs == old(configs)
    {
      match configs[c].artifacts
      case Pending(declared) =>
        configs := configs[c := configs[c].(artifacts := Pending(declared + arts))];
        ok := true;
      case Realized(_) =>
        ok := false;
    }

    /** Adds a variant owned by configuration `c`. */
    method AddVariant(c: string, name: string, attributes: Attributes, arts: seq<PublishArtifact>)
      requires Valid() && c in configs
      modifies this`variants
      ensures Valid()
      ensures variants == old(variants) + [(c, Variant(name, attributes, Pending(arts)))]
    {
      variants := variants + [(c, Variant(name, attributes, Pending(arts)))];
    }

    /** The variants owned by configuration `c`, in insertion order. */
    method GetVariants(c: string) returns (vs: seq<Variant>)
      ensures vs == OwnedVariants(variants, c)
    {
      vs := [];
      var i := 0;
      while i < |variants|
        invariant 0 <= i <= |variants|
        invariant vs == OwnedVariants(variants[..i], c)
      {
        OwnedVariantsPrefix(variants, c, i);
        if variants[i].0 == c {
          vs := vs + [variants[i].1];
        }
        i := i + 1;
      }
      assert variants[..i] == variants;
    }

    /** One-shot: applies and drops the backing declarations, if any. */
    method RealizeDependenciesOf(c: string)
      requires Valid() && c in configs
      modifies this`configs
      ensures Valid()
      ensures configs == old(configs)[c := RealizeDependencies(old(configs)[c])]
    {
      match configs[c].backing
      case None =>
      case Some(d) =>
        var cfg := configs[c];
        configs := configs[c := cfg.(backing := None,
                                     definedDependencies := cfg.definedDependencies + d.dependencies,
                                     definedExcludes := cfg.definedExcludes + d.excludes,
                                     definedFiles := cfg.definedFiles + d.files)];
    }

    /** Walks the registry in order; every configuration named in `hierarchy` is
        realised and its list (as `select` picks it) appended. */
    method CollectFromHierarchy<T>(hierarchy: seq<string>, select: Config -> seq<T>) returns (acc: seq<T>)
      requires Valid()
      modifies this`configs
      ensures Valid()
      ensures configs == RealizeIn(old(configs), hierarchy)
      ensures acc == Gather(configs, order, hierarchy, select)
    {
      acc := [];
      var i := 0;
      ghost var done: seq<string> := [];
      while i < |order|
        invariant 0 <= i <= |order| && done == order[..i]
        invariant CollectState(old(configs), hierarchy, select, done, acc)
      {
        NotInPrefix(order, i);
        acc := CollectOne(order[i], old(configs), hierarchy, select, done, acc);
        PrefixSnoc(order, i);
        done := done + [order[i]];
        i := i + 1;
      }
      assert order[..i] == order;
      RealizeAmongAll(old(configs), hierarchy, order);
    }

    /** What holds while collecting over `hierarchy`, once the names in `done` are visited. */
    ghost predicate CollectState<T>(reg0: map<string, Config>, hierarchy: seq<string>, select: Config -> seq<T>,
                                    done: seq<string>, acc: seq<T>)
      reads this
    {
      Valid() && configs == RealizeAmong(reg0, hierarchy, done) && acc == Gather(configs, done, hierarchy, select)
    }

    /** One step of the walk: visits registry entry `x`. */
    method CollectOne<T>(x: string, ghost reg0: map<string, Config>, hierarchy: seq<string>, select: Config -> seq<T>,
                         ghost done: seq<string>, acc: seq<T>) returns (acc': seq<T>)
      requires x in reg0 && x !in done && CollectState(reg0, hierarchy, select, done, acc)
      modifies this`configs
      ensures CollectState(reg0, hierarchy, select, done + [x], acc')
    {
      RealizeAmongStep(reg0, hierarchy, done, x);
      acc' := acc;
      if x in hierarchy {
        ghost var before := configs;
        RealizeDependenciesOf(x);
        GatherFrame(before, configs, done, hierarchy, select);
        acc' := acc' + select(configs[x]);
      }
      GatherSnoc(configs, done, x, hierarchy, select);
    }

    /** getDependencies: the first call aggregates over the hierarchy, forces every
        dependency of an enforced platform, and caches; later calls return the cache. */
    method GetDependencies(c: string) returns (r: seq<Dependency>)
      requires Valid() && c in configs
      modifies this`configs
      ensures Valid()
      ensures old(configs)[c].dependencyCache.Some? ==>
                r == old(configs)[c].dependencyCache.value && configs == old(configs)
      ensures old(configs)[c].dependencyCache.None? ==>
                var realized := RealizeIn(old(configs), old(configs)[c].hierarchy);
                && r == AggregatedDependencies(realized, order, old(configs)[c].hierarchy, old(configs)[c].attributes)
                && configs == realized[c := realized[c].(dependencyCache := Some(r))]
    {
      match configs[c].dependencyCache
      case Some(cached) =>
        r := cached;
      case None =>
        var cfg := configs[c];
        r := CollectFromHierarchy(cfg.hierarchy, SelectDependencies);
        if IsEnforcedPlatform(cfg.attributes) {
          r := ForceEach(r);
        }
        configs := configs[c := configs[c].(dependencyCache := Some(r))];
    }

    /** The enforced-platform rewrite of getDependencies: each dependency forced, in order. */
    static method ForceEach(raw: seq<Dependency>) returns (r: seq<Dependency>)
      ensures r == ForceAll(raw)
    {
      r := [];
      var i := 0;
      while i < |raw|
        invariant 0 <= i <= |raw|
        invariant r == ForceAll(raw[..i])
      {
        ForceAllPrefix(raw, i);
        r := r + [Forced(raw[i])];
        i := i + 1;
      }
      assert raw[..i] == raw;
    }

    /** getExcludes: the hierarchy aggregation of excludes, cached on first call. */
    method GetExcludes(c: string) returns (r: seq<Exclude>)
      requires Valid() && c in configs
      modifies this`configs
      ensures Valid()
      ensures old(configs)[c].excludeCache.Some? ==>
                r == old(configs)[c].excludeCache.value && configs == old(configs)
      ensures old(configs)[c].excludeCache.None? ==>
                var realized := RealizeIn(old(configs), old(configs)[c].hierarchy);
                && r == AggregatedExcludes(realized, order, old(configs)[c].hierarchy)
                && configs == realized[c := realized[c].(excludeCache := Some(r))]
    {
      match configs[c].excludeCache
      case Some(cached) =>
        r := cached;
      case None =>
        r := CollectFromHierarchy(configs[c].hierarchy, SelectExcludes);
        configs := configs[c := configs[c].(excludeCache := Some(r))];
    }

    /** getFiles: the hierarchy aggregation of file dependencies as an insertion-ordered
        set, cached on first call. */
    method GetFiles(c: string) returns (r: seq<FileDependency>)
      requires Valid() && c in configs
      modifies this`configs
      ensures Valid()
      ensures old(configs)[c].fileCache.Some? ==>
                r == old(configs)[c].fileCache.value && configs == old(configs)
      ensures old(configs)[c].fileCache.None? ==>
                var realized := RealizeIn(old(configs), old(configs)[c].hierarchy);
                && r == AggregatedFiles(realized, order, old(configs)[c].hierarchy)
                && configs == realized[c := realized[c].(fileCache := Some(r))]
    {
      match configs[c].fileCache
      case Some(cached) =>
        r := cached;
      case None =>
        var all := CollectFromHierarchy(configs[c].hierarchy, SelectFiles);
        r := Dedup(all);
        configs := configs[c := configs[c].(fileCache := Some(r))];
    }

    /** getVariantsForGraphTraversal: computed once, then the cached answer. */
    method GetVariantsForGraphTraversal() returns (r: TraversalVariants)
      requires Valid()
      modifies this`traversalCache
      ensures old(traversalCache).Some? ==> r == old(traversalCache).value && traversalCache == old(traversalCache)
      ensures old(traversalCache).None? ==> r == VariantsForGraphTraversal(configs, order) && traversalCache == Some(r)
    {
      if traversalCache.Some? {
        return traversalCache.value;
      }
      var builder: seq<string> := [];
      var hasAtLeastOne := false;
      var i := 0;
      while i < |order|
        invariant 0 <= i <= |order|
        invariant builder == QualifyingNames(configs, order[..i])
        invariant hasAtLeastOne == (builder != [])
      {
        var name := order[i];
        QualifyingNamesPrefix(configs, order, i);
        if Qualifies(configs[name]) {
          hasAtLeastOne := true;
          builder := builder + [name];
        }
        i := i + 1;
      }
      assert order[..i] == order;
      r := if hasAtLeastOne then Present(builder) else Absent;
      traversalCache := Some(r);
    }

    /** Finalises variant `i`'s artifacts: its own declarations bound to this component. */
    method RealizeVariantArtifacts(i: nat)
      requires Valid() && i < |variants|
      modifies this`variants
      ensures Valid()
      ensures variants == old(variants)[i := (old(variants)[i].0, RealizeVariant(componentId, old(variants)[i].1))]
    {
      var (key, v) := variants[i];
      match v.artifacts
      case Realized(_) =>
      case Pending(declared) =>
        var result: seq<LocalArtifact> := [];
        if declared != [] {
          result := BindEach(componentId, declared);
        }
        variants := variants[i := (key, v.(artifacts := Realized(result)))];
    }

    /** Each declared artifact bound to component `id`, in declaration order. */
    static method BindEach(id: ComponentId, declared: seq<PublishArtifact>) returns (result: seq<LocalArtifact>)
      ensures result == BindAll(id, declared)
    {
      result := [];
      var k := 0;
      while k < |declared|
        invariant 0 <= k <= |declared|
        invariant result == BindAll(id, declared[..k])
      {
        BindAllPrefix(id, declared, k);
        result := result + [Bind(id, declared[k])];
        k := k + 1;
      }
      assert declared[..k] == declared;
    }

    /** Finalises configuration `n`'s artifacts: its own declarations bound to this
        component, then the finalised artifacts of every other hierarchy member, without
        duplicates. The result is the expected artifacts of `n` in the registry as it was.
        Each member is prepared on the way, so its variants are finalised as well. */
    method RealizeConfigArtifacts(n: string)
      requires Valid() && n in configs && HierarchyWellFormed(configs)
      modifies this`configs, this`variants
      ensures Valid() && HierarchyWellFormed(configs)
      ensures RealizedFrom(old(configs), configs, componentId)
      ensures OnlyArtifactsChanged(old(configs), configs)
      ensures configs[n].artifacts == Realized(ExpectedArtifacts(old(configs), componentId, n))
      ensures variants == RealizeOwnedBy(componentId, old(variants), ReachedBySlot(old(configs), n))
      ensures Absorbed(old(configs), configs, ReachedBySlot(old(configs), n))
      decreases Elements(configs[n].hierarchy), 2
    {
      match configs[n].artifacts
      case Realized(_) =>
        RealizedFromReflexive(configs, componentId);
        RealizeOwnedByCompose(componentId, variants, {}, {});
      case Pending(declared) =>
        ghost var reg0 := configs;
        // n is in its own hierarchy, so the shortcut for an empty hierarchy never applies.
        assert configs[n].hierarchy != [] by { assert n in configs[n].hierarchy; }
        var inherited := InheritArtifacts(n);
        var own := BindAll(componentId, declared);
        assert Dedup(own + inherited) == ExpectedArtifacts(reg0, componentId, n);
        RealizedFromFinish(reg0, configs, componentId, n);
        AbsorbedFinish(reg0, configs, n, Realized(Dedup(own + inherited)));
        configs := configs[n := configs[n].(artifacts := Realized(Dedup(own + inherited)))];
    }

    /** Prepares every member of `n`'s hierarchy other than `n`, in hierarchy order,
        and concatenates their artifacts. */
    method InheritArtifacts(n: string) returns (inherited: seq<LocalArtifact>)
      requires Valid() && n in configs && HierarchyWellFormed(configs)
      modifies this`configs, this`variants
      ensures Valid() && HierarchyWellFormed(configs)
      ensures RealizedFrom(old(configs), configs, componentId) && OnlyArtifactsChanged(old(configs), configs)
      ensures inherited == InheritedArtifacts(old(configs), componentId, n, old(configs)[n].hierarchy)
      ensures variants == RealizeOwnedBy(componentId, old(variants), ReachedVia(old(configs), n, old(configs)[n].hierarchy))
      ensures Absorbed(old(configs), configs, ReachedVia(old(configs), n, old(configs)[n].hierarchy))
      decreases Elements(configs[n].hierarchy), 1
    {
      var hierarchy := configs[n].hierarchy;
      inherited := [];
      var i := 0;
      InheritingStart(configs, variants, componentId, n);
      while i < |hierarchy|
        invariant 0 <= i <= |hierarchy| && Valid()
        invariant Inheriting(old(configs), configs, old(variants), variants, componentId, n, i, inherited)
      {
        inherited := InheritOne(n, old(configs), old(variants), i, inherited);
        i := i + 1;
      }
      assert hierarchy[..i] == hierarchy;
    }

    /** One step of InheritArtifacts: hierarchy member `i` of `n`, prepared and its
        artifacts appended, unless it is `n` itself. */
    method InheritOne(n: string, ghost reg0: map<string, Config>, ghost v0: seq<(string, Variant)>,
                      i: nat, inherited: seq<LocalArtifact>)
      returns (inherited': seq<LocalArtifact>)
      requires Valid() && Inheriting(reg0, configs, v0, variants, componentId, n, i, inherited)
      requires i < |reg0[n].hierarchy|
      modifies this`configs, this`variants
      ensures Valid() && Inheriting(reg0, configs, v0, variants, componentId, n, i + 1, inherited')
      decreases Elements(reg0[n].hierarchy), 0
    {
      InheritingMember(reg0, configs, v0, variants, componentId, n, i, inherited);
      var p := configs[n].hierarchy[i];
      ghost var before, vsBefore := configs, variants;
      inherited' := inherited;
      if p != n {
        PrepareToResolveArtifacts(p);
        inherited' := inherited' + configs[p].artifacts.artifacts;
      }
      InheritingStep(reg0, before, configs, v0, vsBefore, variants, componentId, n, i, inherited);
    }

    /** prepareToResolveArtifacts: finalises the configuration's artifacts, then those of
        each of its variants. Finalising a pending configuration prepares the other members
        of its hierarchy first, so the variants of everything reached are finalised. */
    method PrepareToResolveArtifacts(n: string)
      requires Valid() && n in configs && HierarchyWellFormed(configs)
      modifies this`configs, this`variants
      ensures Valid() && HierarchyWellFormed(configs)
      ensures RealizedFrom(old(configs), configs, componentId)
      ensures OnlyArtifactsChanged(old(configs), configs)
      ensures configs[n].artifacts == Realized(ExpectedArtifacts(old(configs), componentId, n))
      ensures variants == RealizeOwnedBy(componentId, old(variants), Reached(old(configs), n))
      ensures Absorbed(old(configs), configs, Reached(old(configs), n))
      decreases Elements(configs[n].hierarchy), 3
    {
      RealizeConfigArtifacts(n);
      RealizeVariantsOf(n);
      RealizeOwnedByCompose(componentId, old(variants), ReachedBySlot(old(configs), n), {n});
      assert ReachedBySlot(old(configs), n) + {n} == Reached(old(configs), n);
    }

    /** Finalises the artifacts of every variant owned by configuration `n`. */
    method RealizeVariantsOf(n: string)
      requires Valid()
      modifies this`variants
      ensures Valid() && variants == RealizeOwnedBy(componentId, old(variants), {n})
    {
      var i := 0;
      while i < |variants|
        invariant 0 <= i <= |variants| && Valid()
        invariant VariantsRealizedFor(old(variants), variants, componentId, n, i)
      {
        ghost var before := variants;
        if variants[i].0 == n {
          RealizeVariantArtifacts(i);
        }
        VariantsRealizedForStep(old(variants), before, variants, componentId, n, i);
        i := i + 1;
      }
    }

    /** artifact(name): the first realised artifact with that name, else the missing
        sentinel for this component and name. */
    method Artifact(n: string, name: ArtifactName) returns (r: ComponentArtifact)
      requires n in configs && configs[n].artifacts.Realized?
      ensures var arts := configs[n].artifacts.artifacts;
              && (r.Found? ==> exists k :: 0 <= k < |arts| && arts[k] == r.artifact && r.artifact.name == name
                                          && forall j :: 0 <= j < k ==> arts[j].name != name)
              && (r.Missing? ==> r == Missing(componentId, name) && forall j :: 0 <= j < |arts| ==> arts[j].name != name)
              && r == match FirstNamed(arts, name) case Some(k) => Found(arts[k]) case None => Missing(componentId, name)
    {
      var arts := configs[n].artifacts.artifacts;
      var i := 0;
      while i < |arts|
        invariant 0 <= i <= |arts|
        invariant forall j :: 0 <= j < i ==> arts[j].name != name
      {
        if arts[i].name == name {
          return Found(arts[i]);
        }
        i := i + 1;
      }
      r := Missing(componentId, name);
    }
  

    /** copy: a new component `c` with the same configurations, whose variants and
        configurations carry this component's realised declarations and artifacts, each
        artifact passed through `t`. This component's declarations and artifacts are
        realised on the way. The ghost log `calls` lists the artifacts `t` was applied
        to: every distinct source artifact exactly once, in first-seen order. */
    method Copy(newId: ComponentId, t: LocalArtifact -> LocalArtifact) returns (c: Component, ghost calls: seq<LocalArtifact>)
      requires Valid() && HierarchyWellFormed(configs)
      modifies this`configs, this`variants
      ensures Valid() && fresh(c) && c.Valid()
      ensures c.componentId == newId && c.order == order && c.traversalCache == None
      ensures configs.Keys == old(configs).Keys && c.configs.Keys == configs.Keys
      ensures forall x :: x in configs ==>
                configs[x] == Prepared(old(configs), componentId, x) && CopiedConfig(configs[x], c.configs[x], t)
      ensures |variants| == |old(variants)| == |c.variants|
      ensures forall i :: 0 <= i < |variants| ==>
                && variants[i] == (old(variants)[i].0, RealizeVariant(componentId, old(variants)[i].1))
                && c.variants[i] == (variants[i].0, CopiedVariant(variants[i].1, t))
      ensures NoDuplicates(calls) && calls == Dedup(CopySources(configs, order, variants))
    {
      c := CopyShell(newId);
      var copiedVariants, memo;
      copiedVariants, memo, calls := CopyVariants(t);
      var copies;
      copies, memo, calls := CopyConfigurations(c.configs, t, memo, calls);
      CopiedRegistryKeepsNames(configs, copies, t);
      c.variants := copiedVariants;
      c.configs := copies;
    }

    /** The copy's configurations, registered in this component's order with the same
        names, flags, hierarchies and attributes, and nothing declared. */
    method CopyShell(newId: ComponentId) returns (c: Component)
      requires Valid()
      ensures fresh(c) && c.Valid()
      ensures c.componentId == newId && c.order == order && c.variants == [] && c.traversalCache == None
      ensures c.configs.Keys == configs.Keys && forall x :: x in configs ==> c.configs[x] == CopiedShell(configs[x])
    {
      var reg, names := configs, order;
      c := new Component(newId);
      ShellsStart(reg, names);
      var i := 0;
      while i < |names|
        invariant 0 <= i <= |names|
        invariant fresh(c) && c.Valid()
        invariant c.componentId == newId && c.variants == [] && c.traversalCache == None
        invariant ShellsOf(reg, names, i, c.configs, c.order)
      {
        var x := names[i];
        var cfg := reg[x];
        ShellsStep(reg, names, i, c.configs, c.order);
        c.AddConfiguration(x, cfg.description, cfg.extendsFrom, cfg.hierarchy, cfg.visible, cfg.transitive,
                           cfg.attributes, cfg.canBeConsumed, cfg.canBeResolved);
        i := i + 1;
      }
      assert names[..i] == names;
    }

    /** Realises each variant in turn and lists, for the copy, a variant under the same
        key with the same name and attributes and the transformed artifacts. */
    method CopyVariants(t: LocalArtifact -> LocalArtifact)
      returns (copied: seq<(string, Variant)>, memo: map<LocalArtifact, LocalArtifact>, ghost calls: seq<LocalArtifact>)
      requires Valid()
      modifies this`variants
      ensures Valid()
      ensures |variants| == |old(variants)| == |copied|
      ensures forall i :: 0 <= i < |variants| ==>
                && variants[i] == (old(variants)[i].0, RealizeVariant(componentId, old(variants)[i].1))
                && copied[i] == (variants[i].0, CopiedVariant(variants[i].1, t))
      ensures MemoOf(memo, calls, t) && calls == Dedup(VariantArtifactLists(variants))
    {
      memo, calls := map[], [];
      copied := [];
      var i := 0;
      while i < |variants|
        invariant 0 <= i <= |variants| && Valid()
        invariant VariantsCopied(old(variants), variants, componentId, copied, t, memo, calls, i)
      {
        copied, memo, calls := CopyVariant(i, old(variants), copied, t, memo, calls);
        i := i + 1;
      }
      assert variants[..i] == variants;
    }

    /** One step of copying the variants: realises variant `i` and appends its copy. */
    method CopyVariant(i: nat, ghost v0: seq<(string, Variant)>, copied: seq<(string, Variant)>,
                       t: LocalArtifact -> LocalArtifact, memo: map<LocalArtifact, LocalArtifact>, ghost calls: seq<LocalArtifact>)
      returns (copied': seq<(string, Variant)>, memo': map<LocalArtifact, LocalArtifact>, ghost calls': seq<LocalArtifact>)
      requires Valid() && i < |variants| && VariantsCopied(v0, variants, componentId, copied, t, memo, calls, i)
      modifies this`variants
      ensures Valid() && VariantsCopied(v0, variants, componentId, copied', t, memo', calls', i + 1)
    {
      ghost var before := variants;
      RealizeVariantArtifacts(i);
      var (key, v) := variants[i];
      var newArts;
      newArts, memo', calls' := CopyArtifacts(SlotArtifacts(v.artifacts), t, memo, VariantArtifactLists(before[..i]), calls);
      copied' := copied + [(key, Variant(v.name, v.attributes, Realized(newArts)))];
      VariantsCopiedStep(v0, before, variants, componentId, copied, t, memo, calls, memo', calls', newArts, i);
    }

    /** Realises each configuration's declarations and artifacts in registry order and
        fills the matching configuration of the copy's registry `shells`: the declared
        dependencies, files and excludes appended, the transformed artifacts as its
        finalised artifacts. */
    method CopyConfigurations(shells: map<string, Config>, t: LocalArtifact -> LocalArtifact,
                              memo: map<LocalArtifact, LocalArtifact>, ghost calls: seq<LocalArtifact>)
      returns (copies: map<string, Config>, memo': map<LocalArtifact, LocalArtifact>, ghost calls': seq<LocalArtifact>)
      requires Valid() && HierarchyWellFormed(configs)
      requires shells.Keys == configs.Keys && forall x :: x in configs ==> shells[x] == CopiedShell(configs[x])
      requires forall k :: 0 <= k < |variants| ==> variants[k].1.artifacts.Realized?
      requires MemoOf(memo, calls, t) && calls == Dedup(VariantArtifactLists(variants))
      modifies this`configs, this`variants
      ensures Valid() && variants == old(variants)
      ensures configs.Keys == old(configs).Keys && copies.Keys == configs.Keys
      ensures forall x :: x in configs ==>
                configs[x] == Prepared(old(configs), componentId, x) && CopiedConfig(configs[x], copies[x], t)
      ensures MemoOf(memo', calls', t) && calls' == Dedup(CopySources(configs, order, variants))
    {
      ghost var reg0 := configs;
      ghost var fromVariants := VariantArtifactLists(variants);
      PreparedAmongStart(reg0, componentId, order);
      assert CopiesProgress(reg0, configs, shells, [], t);
      assert fromVariants + Gather(configs, [], order, SelectArtifacts) == fromVariants;
      copies, memo', calls' := CopyEachConfiguration(reg0, fromVariants, shells, t, memo, calls);
      PreparedAmongAll(reg0, configs, componentId, order);
      CopiesProgressAll(reg0, configs, copies, order, t);
    }

    /** What holds between two steps of copying the configurations, once the names in
        `done` are realised and copied. */
    ghost predicate CopyState(reg0: map<string, Config>, fromVariants: seq<LocalArtifact>, copies: map<string, Config>,
                              t: LocalArtifact -> LocalArtifact, memo: map<LocalArtifact, LocalArtifact>,
                              calls: seq<LocalArtifact>, done: seq<string>)
      reads this
    {
      && Valid() && (forall k :: 0 <= k < |variants| ==> variants[k].1.artifacts.Realized?)
      && PreparedAmong(reg0, configs, componentId, order, done) && CopiesProgress(reg0, configs, copies, done, t)
      && MemoOf(memo, calls, t) && calls == Dedup(fromVariants + Gather(configs, done, order, SelectArtifacts))
    }

    /** The loop of copying the configurations, over the registry order. */
    method CopyEachConfiguration(ghost reg0: map<string, Config>, ghost fromVariants: seq<LocalArtifact>,
                                 copies: map<string, Config>, t: LocalArtifact -> LocalArtifact,
                                 memo: map<LocalArtifact, LocalArtifact>, ghost calls: seq<LocalArtifact>)
      returns (copies': map<string, Config>, memo': map<LocalArtifact, LocalArtifact>, ghost calls': seq<LocalArtifact>)
      requires CopyState(reg0, fromVariants, copies, t, memo, calls, [])
      modifies this`configs, this`variants
      ensures CopyState(reg0, fromVariants, copies', t, memo', calls', order) && variants == old(variants)
    {
      copies', memo', calls' := copies, memo, calls;
      var i := 0;
      ghost var done: seq<string> := [];
      while i < |order|
        invariant 0 <= i <= |order| && done == order[..i]
        invariant CopyState(reg0, fromVariants, copies', t, memo', calls', done) && variants == old(variants)
      {
        NotInPrefix(order, i);
        copies', memo', calls' := CopyConfiguration(order[i], reg0, fromVariants, done, copies', t, memo', calls');
        PrefixSnoc(order, i);
        done := done + [order[i]];
        i := i + 1;
      }
      assert order[..i] == order;
    }

    /** One step of copying the configurations: realises `x` and fills its copy. */
    method CopyConfiguration(x: string, ghost reg0: map<string, Config>, ghost fromVariants: seq<LocalArtifact>,
                             ghost done: seq<string>, copies: map<string, Config>, t: LocalArtifact -> LocalArtifact,
                             memo: map<LocalArtifact, LocalArtifact>, ghost calls: seq<LocalArtifact>)
      returns (copies': map<string, Config>, memo': map<LocalArtifact, LocalArtifact>, ghost calls': seq<LocalArtifact>)
      requires x in configs && x in order && x !in done
      requires CopyState(reg0, fromVariants, copies, t, memo, calls, done)
      modifies this`configs, this`variants
      ensures CopyState(reg0, fromVariants, copies', t, memo', calls', done + [x]) && variants == old(variants)
    {
      ghost var before := configs;
      PrepareForCopy(x, reg0, done);
      var src := configs[x];
      var newArts;
      newArts, memo', calls' := CopyArtifacts(src.artifacts.artifacts, t, memo,
                                              fromVariants + Gather(before, done, order, SelectArtifacts), calls);
      CopiesProgressStep(reg0, before, configs, copies, done, x, t, newArts);
      CopiedSourcesStep(fromVariants, before, configs, order, done, x);
      copies' := copies[x := Filled(copies[x], src, newArts)];
    }

    /** Realises configuration `x` for the copy, as `copy` does before copying it:
        realizeDependencies then prepareToResolveArtifacts. Every variant is already
        realised, so the variants stay as they are. */
    method PrepareForCopy(x: string, ghost reg0: map<string, Config>, ghost done: seq<string>)
      requires Valid() && x in configs && x in order && x !in done
      requires forall k :: 0 <= k < |variants| ==> variants[k].1.artifacts.Realized?
      requires PreparedAmong(reg0, configs, componentId, order, done)
      modifies this`configs, this`variants
      ensures Valid() && variants == old(variants)
      ensures PreparedStep(reg0, old(configs), configs, componentId, order, done, x)
    {
      RealizeForCopy(x);
      PreparedForCopy(reg0, old(configs), configs, componentId, order, done, x);
    }

    /** realizeDependencies then prepareToResolveArtifacts on one configuration, once every
        variant is already realised. */
    method RealizeForCopy(x: string)
      requires Valid() && x in configs && HierarchyWellFormed(configs)
      requires forall k :: 0 <= k < |variants| ==> variants[k].1.artifacts.Realized?
      modifies this`configs, this`variants
      ensures Valid() && variants == old(variants)
      ensures var mid := old(configs)[x := RealizeDependencies(old(configs)[x])];
              && HierarchyWellFormed(mid) && RealizedFrom(mid, configs, componentId)
              && OnlyArtifactsChanged(mid, configs) && configs[x].artifacts.Realized?
    {
      RealizeDependenciesOf(x);
      DeclarationsKeepWellFormed(old(configs), x);
      PrepareToResolveArtifacts(x);
      RealizedVariantsUnchanged(old(variants), componentId, Reached(old(configs)[x := RealizeDependencies(old(configs)[x])], x));
    }
  }
}
