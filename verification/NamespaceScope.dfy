/** Bounding a fault to eligible namespaces: its targets and every selector of its spec (pkg/executor/nsscope.go). */
module NamespaceScope {
  import opened Vocabulary
  import opened Ordering
  import opened Selectors
  import opened Narrowing

  // ----- What narrowing does to the sites -----

  ghost predicate TargetList(target: seq<string>) {
    Ascending(target, TextBefore) && "" !in target
  }

  /** A site after narrowing and the site it comes from. */
  ghost predicate ComesFrom(t: Site, s: Site, target: seq<string>) {
    && t.path == s.path
    && t.namespaces == (if s.namespaces == [] then target else s.namespaces)
    && var children := NarrowedChildren(Obj(s.node), target);
       t.node == if s.namespaces == [] then children["namespaces" := AsList(target)] else children
  }

  lemma {:induction false} FieldSites(node: Json, path: Path, keys: seq<string>, s: Site)
    requires node.Obj? && forall k :: k in keys ==> k in node.fields
    ensures s in WalkFields(node, path, keys) <==>
      exists k :: k in keys && k !in OPAQUE_MAP_FIELDS && s in Walk(node.fields[k], path + [Key(k)], k)
    decreases |keys|
  {
    if keys != [] {
      FieldSites(node, path, keys[1..], s);
      assert forall k :: k in keys <==> k == keys[0] || k in keys[1..];
    }
  }

  ghost predicate InItem(node: Json, path: Path, i: nat, s: Site)
    requires node.Arr?
  {
    i < |node.items| && s in Walk(node.items[i], path + [Index(i)], "")
  }

  lemma {:induction false} ItemSites(node: Json, path: Path, from: nat, s: Site)
    requires node.Arr? && from <= |node.items|
    ensures s in WalkItems(node, path, from) <==> exists i: nat :: from <= i && InItem(node, path, i, s)
    decreases |node.items| - from
  {
    if from < |node.items| {
      ItemSites(node, path, from + 1, s);
      ItemStep(node, path, from, s);
    }
  }

  lemma ItemStep(node: Json, path: Path, from: nat, s: Site)
    requires node.Arr? && from < |node.items|
    ensures s in WalkItems(node, path, from) <==> InItem(node, path, from, s) || s in WalkItems(node, path, from + 1)
  {
  }

  /** A site of a field, or of an item, is one of the whole. */
  lemma SiteBelowField(node: Json, path: Path, key: string, k: string, sites: seq<Site>, t: Site)
    requires node.Obj? && k in node.fields && k !in OPAQUE_MAP_FIELDS
    requires sites == Walk(node.fields[k], path + [Key(k)], k) && t in sites
    ensures t in Walk(node, path, key)
  {
    FieldSites(node, path, SortedKeys(node.fields), t);
  }

  lemma SiteBelowItem(node: Json, path: Path, key: string, i: nat, t: Site)
    requires node.Arr? && InItem(node, path, i, t)
    ensures t in Walk(node, path, key)
  {
    ItemSites(node, path, 0, t);
  }

  lemma {:induction false} ListHasNoSites(target: seq<string>, path: Path, from: nat)
    requires from <= |target|
    ensures WalkItems(AsList(target), path, from) == []
    decreases |target| - from
  {
    if from < |target| {
      assert AsList(target).items[from] == Str(target[from]);
      ListHasNoSites(target, path, from + 1);
    }
  }

  lemma NarrowKeepsShape(node: Json, key: string, target: seq<string>)
    ensures Narrow(node, key, target).Obj? <==> node.Obj?
    ensures Narrow(node, key, target).Arr? <==> node.Arr?
    ensures node.Str? || Narrow(node, key, target).Str? ==> Narrow(node, key, target) == node
  {
  }

  /** The fields narrowing leaves of an object. */
  ghost function After(fields: Fields, key: string, target: seq<string>): Fields {
    Narrow(Obj(fields), key, target).fields
  }

  lemma ChildAfter(fields: Fields, key: string, target: seq<string>, k: string)
    requires k in fields
    ensures k in After(fields, key, target)
    ensures (fields[k].Arr? || fields[k].Obj?) ==>
      After(fields, key, target)[k].Arr? || After(fields, key, target)[k].Obj?
    ensures !NamesNothing(fields, key) ==>
      ((fields[k].Arr? || fields[k].Obj?) <==>
        (After(fields, key, target)[k].Arr? || After(fields, key, target)[k].Obj?))
  {
    var children := NarrowedChildren(Obj(fields), target);
    assert children[k] == if k in OPAQUE_MAP_FIELDS then fields[k] else Narrow(fields[k], k, target);
    NarrowKeepsShape(fields[k], k, target);
  }

  lemma MarkersAreKept(fields: Fields, key: string, target: seq<string>)
    ensures IsSelector(key, After(fields, key, target)) <==> IsSelector(key, fields)
  {
    var after := After(fields, key, target);
    if HasSelectorMarker(fields) {
      var k :| k in fields && k in SELECTOR_MARKER_KEYS && (fields[k].Arr? || fields[k].Obj?);
      ChildAfter(fields, key, target, k);
      assert k in after && k in SELECTOR_MARKER_KEYS && (after[k].Arr? || after[k].Obj?);
    }
    if HasSelectorMarker(after) && !NamesNothing(fields, key) {
      var k :| k in after && k in SELECTOR_MARKER_KEYS && (after[k].Arr? || after[k].Obj?);
      assert k in NarrowedChildren(Obj(fields), target);
      ChildAfter(fields, key, target, k);
    }
  }

  lemma ChoicesAreKept(fields: Fields, target: seq<string>)
    ensures NamedNamespaces(NarrowedChildren(Obj(fields), target)) == NamedNamespaces(fields)
  {
    var after := NarrowedChildren(Obj(fields), target);
    if "namespaces" in fields {
      var before := fields["namespaces"];
      NarrowKeepsShape(before, "namespaces", target);
      if before.Arr? {
        forall v: Json | v.Str? ensures v in after["namespaces"].items <==> v in before.items {
          StringsAreKept(before.items, target, v);
        }
      }
    }
  }

  lemma StringsAreKept(items: seq<Json>, target: seq<string>, v: Json)
    requires v.Str?
    ensures v in Narrow(Arr(items), "namespaces", target).items <==> v in items
  {
    var after := Narrow(Arr(items), "namespaces", target).items;
    if v in items {
      var i :| 0 <= i < |items| && items[i] == v;
      NarrowKeepsShape(items[i], "", target);
      assert after[i] == v;
    }
    if v in after {
      var i :| 0 <= i < |after| && after[i] == v;
      NarrowKeepsShape(items[i], "", target);
    }
  }

  lemma GivenNamespaces(fields: Fields, target: seq<string>)
    requires TargetList(target) && NamespacesIn(fields) == []
    ensures NamespacesIn(NarrowedChildren(Obj(fields), target)["namespaces" := AsList(target)]) == target
  {
    var after := NarrowedChildren(Obj(fields), target)["namespaces" := AsList(target)];
    forall ns ensures ns in target <==> ns in NamedNamespaces(after) {
      if ns in target {
        var i :| 0 <= i < |target| && target[i] == ns;
        assert AsList(target).items[i] == Str(ns);
        assert Str(ns).text in NamedNamespaces(after);
      }
      assert ns in NamedNamespaces(fields) <==> ns in NamespacesIn(fields);
    }
    TextIsTotal();
    AscendingIsUnique(NamespacesIn(after), target, TextBefore);
  }

  lemma OwnSiteComesFrom(fields: Fields, path: Path, key: string, target: seq<string>, t: Site)
    requires TargetList(target) && t in OwnSite(After(fields, key, target), path, key)
    ensures exists s :: s in OwnSite(fields, path, key) && ComesFrom(t, s, target)
  {
    MarkersAreKept(fields, key, target);
    var s := Site(path, fields, NamespacesIn(fields));
    if NamespacesIn(fields) == [] {
      GivenNamespaces(fields, target);
    } else {
      ChoicesAreKept(fields, target);
    }
    assert s in OwnSite(fields, path, key) && ComesFrom(t, s, target);
  }

  lemma NarrowedField(fields: Fields, key: string, target: seq<string>, k: string)
    requires k in After(fields, key, target) && k !in OPAQUE_MAP_FIELDS
    requires After(fields, key, target)[k] != AsList(target)
    ensures k in fields && After(fields, key, target)[k] == Narrow(fields[k], k, target)
  {
    var children := NarrowedChildren(Obj(fields), target);
    assert After(fields, key, target)
      == if NamesNothing(fields, key) then children["namespaces" := AsList(target)] else children;
    assert children.Keys == fields.Keys;
    assert k in children && children[k] == After(fields, key, target)[k];
  }

  /** The field a site below a narrowed object lies in. */
  lemma FieldOfSite(fields: Fields, path: Path, key: string, target: seq<string>, t: Site) returns (k: string)
    requires t in WalkFields(Obj(After(fields, key, target)), path, SortedKeys(After(fields, key, target)))
    ensures k in fields && k !in OPAQUE_MAP_FIELDS && t in Walk(Narrow(fields[k], k, target), path + [Key(k)], k)
  {
    var after := After(fields, key, target);
    FieldSites(Obj(after), path, SortedKeys(after), t);
    k :| k in after && k !in OPAQUE_MAP_FIELDS && t in Walk(after[k], path + [Key(k)], k);
    ListHasNoSites(target, path + [Key(k)], 0);
    NarrowedField(fields, key, target, k);
  }

  /** Narrowing makes no new selector, and each one left keeps its choice of namespaces or gets the targets. */
  lemma {:induction false} SitesAfterNarrowing(node: Json, path: Path, key: string, target: seq<string>, t: Site)
    requires TargetList(target) && t in Walk(Narrow(node, key, target), path, key)
    ensures exists s :: s in Walk(node, path, key) && ComesFrom(t, s, target)
    decreases node
  {
    match node
    case Obj(fields) =>
      if t in OwnSite(After(fields, key, target), path, key) {
        OwnSiteComesFrom(fields, path, key, target, t);
      } else {
        var k := FieldOfSite(fields, path, key, target, t);
        SitesAfterNarrowing(fields[k], path + [Key(k)], k, target, t);
        var s :| s in Walk(fields[k], path + [Key(k)], k) && ComesFrom(t, s, target);
        SiteBelowField(node, path, key, k, Walk(fields[k], path + [Key(k)], k), s);
      }
    case Arr(items) =>
      var after := Narrow(node, key, target);
      ItemSites(after, path, 0, t);
      var i: nat :| InItem(after, path, i, t);
      SitesAfterNarrowing(items[i], path + [Index(i)], "", target, t);
      var s :| s in Walk(items[i], path + [Index(i)], "") && ComesFrom(t, s, target);
      assert InItem(node, path, i, s);
      SiteBelowItem(node, path, key, i, s);
    case _ =>
  }

  ghost predicate AllNameSomething(sites: seq<Site>) {
    forall s :: s in sites ==> s.namespaces != []
  }

  lemma BelowNameSomething(node: Json, path: Path, key: string, sites: seq<Site>)
    requires AllNameSomething(Walk(node, path, key))
    requires forall s :: s in sites ==> s in Walk(node, path, key)
    ensures AllNameSomething(sites)
  {
  }

  lemma FieldNamesSomething(node: Json, path: Path, key: string, k: string)
    requires node.Obj? && k in node.fields && k !in OPAQUE_MAP_FIELDS && AllNameSomething(Walk(node, path, key))
    ensures AllNameSomething(Walk(node.fields[k], path + [Key(k)], k))
  {
    var sites := Walk(node.fields[k], path + [Key(k)], k);
    forall s | s in sites ensures s in Walk(node, path, key) {
      SiteBelowField(node, path, key, k, sites, s);
    }
    BelowNameSomething(node, path, key, sites);
  }

  lemma ItemNamesSomething(node: Json, path: Path, key: string, i: nat)
    requires node.Arr? && i < |node.items| && AllNameSomething(Walk(node, path, key))
    ensures AllNameSomething(Walk(node.items[i], path + [Index(i)], ""))
  {
    var sites := Walk(node.items[i], path + [Index(i)], "");
    forall s | s in sites ensures s in Walk(node, path, key) {
      assert InItem(node, path, i, s);
      SiteBelowItem(node, path, key, i, s);
    }
    BelowNameSomething(node, path, key, sites);
  }

  /** Where every selector names a namespace, narrowing changes nothing. */
  lemma {:induction false} NothingToNarrow(node: Json, path: Path, key: string, target: seq<string>)
    requires AllNameSomething(Walk(node, path, key))
    ensures Narrow(node, key, target) == node
    decreases node
  {
    match node
    case Obj(fields) =>
      assert OwnSite(fields, path, key) != [] ==> OwnSite(fields, path, key)[0] in Walk(node, path, key);
      var children := NarrowedChildren(node, target);
      forall k | k in fields ensures children[k] == fields[k] {
        if k !in OPAQUE_MAP_FIELDS {
          FieldNamesSomething(node, path, key, k);
          NothingToNarrow(fields[k], path + [Key(k)], k, target);
        }
      }
      assert children == fields;
    case Arr(items) =>
      var after := Narrow(node, key, target).items;
      forall i | 0 <= i < |items| ensures after[i] == items[i] {
        ItemNamesSomething(node, path, key, i);
        NothingToNarrow(items[i], path + [Index(i)], "", target);
      }
      assert after == items;
    case _ =>
  }

  // ----- The check -----

  const SPEC_SCOPE_EXEMPT: set<string> := {"network-policy", "envoy-fault"}

  /** What an eligibility lookup answers. */
  datatype Lookup = Eligible | NotEligible | Failed

  datatype Scope =
    | Scoped(spec: Fields, narrowed: seq<Path>)
    | NoTargetNamespace
    | LookupFailed(path: Path, namespace: string)
    | Ineligible(path: Path, namespace: string)

  predicate Exempt(m: Manifest) {
    m.engine in SPEC_SCOPE_EXEMPT || m.spec == map[]
  }

  ghost function TargetsOf(m: Manifest): (target: seq<string>)
    ensures TargetList(target) && forall ns :: ns in target <==> ns in m.TargetNamespaces()
  {
    TextIsTotal();
    Listing(m.TargetNamespaces(), TextBefore)
  }

  ghost function SitesOf(spec: Fields): seq<Site> {
    Walk(Obj(spec), [], "")
  }

  ghost predicate NamesOnlyEligible(sites: seq<Site>, elig: string -> Lookup) {
    forall s, ns :: s in sites && ns in s.namespaces ==> elig(ns) == Eligible
  }

  /** The first namespace of a list that the lookup does not clear. */
  ghost predicate FirstNotEligible(namespaces: seq<string>, elig: string -> Lookup, ns: string) {
    exists j :: 0 <= j < |namespaces| && namespaces[j] == ns && elig(ns) != Eligible
      && AllEligible(namespaces[..j], elig)
  }

  ghost predicate AllEligible(namespaces: seq<string>, elig: string -> Lookup) {
    forall ns :: ns in namespaces ==> elig(ns) == Eligible
  }

  /**
   * A refusal and what it leaves of the spec: it names the first selector with a namespace that is not clear, and the
   * first such namespace there; the selectors before it have been narrowed already.
   */
  ghost predicate RefusedAt(r: Scope, tree: Json, spec: Json, sites: seq<Site>, target: seq<string>,
      elig: string -> Lookup, i: nat)
  {
    && i < |sites| && NamesOnlyEligible(sites[..i], elig)
    && (r.LookupFailed? || r.Ineligible?) && r.path == sites[i].path
    && FirstNotEligible(sites[i].namespaces, elig, r.namespace)
    && (r.LookupFailed? <==> elig(r.namespace) == Failed)
    && tree == WriteAll(spec, sites[..i], 0, target)
  }

  method ListTargetNamespaces(m: Manifest) returns (target: seq<string>)
    ensures target == TargetsOf(m)
  {
    var seen: set<string> := {};
    for i := 0 to |m.targets|
      invariant seen == set t | t in m.targets[..i] && t.namespace != "" :: t.namespace
    {
      assert m.targets[..i + 1] == m.targets[..i] + [m.targets[i]];
      if m.targets[i].namespace != "" { seen := seen + {m.targets[i].namespace}; }
    }
    assert m.targets[..|m.targets|] == m.targets;
    target := CollectSorted(seen);
    TextIsTotal();
    AscendingIsUnique(target, TargetsOf(m), TextBefore);
  }

  /** Answers remembered from earlier lookups. */
  ghost predicate Remembers(known: map<string, bool>, elig: string -> Lookup) {
    forall ns :: ns in known ==> known[ns] == (elig(ns) == Eligible) && elig(ns) != Failed
  }

  ghost predicate Refused(r: Scope, tree: Json, spec: Json, sites: seq<Site>, target: seq<string>,
      elig: string -> Lookup)
  {
    exists i: nat :: RefusedAt(r, tree, spec, sites, target, elig, i)
  }

  /** Looks up the namespaces of one site, each at most once over the whole check. */
  method CheckSite(site: Site, elig: string -> Lookup, known: map<string, bool>)
    returns (answer: Lookup, offender: string, learned: map<string, bool>)
    requires Remembers(known, elig)
    ensures Remembers(learned, elig)
    ensures answer == Eligible <==> AllEligible(site.namespaces, elig)
    ensures answer != Eligible ==> elig(offender) == answer && FirstNotEligible(site.namespaces, elig, offender)
  {
    learned := known;
    for i := 0 to |site.namespaces|
      invariant Remembers(learned, elig)
      invariant AllEligible(site.namespaces[..i], elig)
    {
      var ns := site.namespaces[i];
      assert site.namespaces[..i + 1] == site.namespaces[..i] + [ns];
      if ns !in learned {
        if elig(ns) == Failed { return Failed, ns, learned; }
        learned := learned[ns := elig(ns) == Eligible];
      }
      if !learned[ns] { return NotEligible, ns, learned; }
    }
    assert site.namespaces[..|site.namespaces|] == site.namespaces;
    return Eligible, "", learned;
  }

  ghost function Narrowed(sites: seq<Site>): seq<Path> {
    if sites == [] then []
    else Narrowed(sites[..|sites| - 1]) + if sites[|sites| - 1].namespaces == [] then [sites[|sites| - 1].path] else []
  }

  /** The loop over the sites: narrows those that name nothing, stops at the first that names too much. */
  method NarrowSites(spec: Json, sites: seq<Site>, target: seq<string>, elig: string -> Lookup)
    returns (offence: Option<Scope>, tree: Json, narrowed: seq<Path>)
    ensures offence.None? <==> NamesOnlyEligible(sites, elig)
    ensures offence.None? ==> tree == WriteAll(spec, sites, 0, target) && narrowed == Narrowed(sites)
    ensures offence.Some? ==> Refused(offence.value, tree, spec, sites, target, elig)
  {
    offence, tree, narrowed := None, spec, [];
    var known: map<string, bool> := map[];
    var i := 0;
    while i < |sites|
      invariant 0 <= i <= |sites|
      invariant tree == WriteAll(spec, sites[..i], 0, target)
      invariant narrowed == Narrowed(sites[..i])
      invariant Remembers(known, elig)
      invariant NamesOnlyEligible(sites[..i], elig)
    {
      var site := sites[i];
      assert sites[..i + 1] == sites[..i] + [site] && sites[..i + 1][..i] == sites[..i];
      WriteOneMore(spec, sites[..i], site, target);
      ghost var at: nat := i;
      i := i + 1;
      if site.namespaces == [] {
        tree := SetAt(tree, site.path, target);
        narrowed := narrowed + [site.path];
        continue;
      }
      var answer, ns, learned := CheckSite(site, elig, known);
      if answer != Eligible {
        offence := Some(if answer == Failed then LookupFailed(site.path, ns) else Ineligible(site.path, ns));
        NotAllEligible(sites, at, elig, ns);
        assert RefusedAt(offence.value, tree, spec, sites, target, elig, at);
        return;
      }
      known := learned;
    }
    assert sites[..i] == sites;
  }

  lemma WriteOneMore(spec: Json, before: seq<Site>, site: Site, target: seq<string>)
    ensures WriteAll(spec, before + [site], 0, target)
         == if site.namespaces == [] then SetAt(WriteAll(spec, before, 0, target), site.path, target)
            else WriteAll(spec, before, 0, target)
  {
    WriteAllSplits(spec, before, [site], 0, target);
    assert site.path[0..] == site.path && [site][1..] == [];
  }

  lemma NotAllEligible(sites: seq<Site>, i: nat, elig: string -> Lookup, ns: string)
    requires i < |sites| && FirstNotEligible(sites[i].namespaces, elig, ns)
    ensures !NamesOnlyEligible(sites, elig)
  {
    assert sites[i] in sites && ns in sites[i].namespaces;
  }

  /** The first offending selector is the only one a refusal can name, and the namespace and what is left follow. */
  lemma RefusalIsDetermined(r: Scope, t: Json, r': Scope, t': Json, spec: Json, sites: seq<Site>, target: seq<string>,
                            elig: string -> Lookup)
    requires Refused(r, t, spec, sites, target, elig) && Refused(r', t', spec, sites, target, elig)
    ensures r == r' && t == t'
  {
    var i: nat :| RefusedAt(r, t, spec, sites, target, elig, i);
    var j: nat :| RefusedAt(r', t', spec, sites, target, elig, j);
    if i < j {
      assert sites[..j][i] == sites[i];
      NotAllEligible(sites[..j], i, elig, r.namespace);
    } else if j < i {
      assert sites[..i][j] == sites[j];
      NotAllEligible(sites[..i], j, elig, r'.namespace);
    } else {
      FirstIsOne(sites[i].namespaces, elig, r.namespace, r'.namespace);
    }
  }

  lemma FirstIsOne(namespaces: seq<string>, elig: string -> Lookup, a: string, b: string)
    requires FirstNotEligible(namespaces, elig, a) && FirstNotEligible(namespaces, elig, b)
    ensures a == b
  {
    var k :| 0 <= k < |namespaces| && namespaces[k] == a && elig(a) != Eligible && AllEligible(namespaces[..k], elig);
    var l :| 0 <= l < |namespaces| && namespaces[l] == b && elig(b) != Eligible && AllEligible(namespaces[..l], elig);
    assert forall i :: 0 <= i < l ==> namespaces[i] in namespaces[..l];
    assert forall i :: 0 <= i < k ==> namespaces[i] in namespaces[..k];
  }

  lemma {:induction false} WritingKeepsObjects(node: Json, sites: seq<Site>, target: seq<string>)
    requires node.Obj?
    ensures WriteAll(node, sites, 0, target).Obj?
    decreases |sites|
  {
    if sites != [] {
      var s := sites[0];
      WritingKeepsObjects(if s.namespaces == [] then SetAt(node, s.path[0..], target) else node, sites[1..], target);
    }
  }

  lemma RefusalLeavesAnObject(r: Scope, tree: Json, spec: Json, sites: seq<Site>, target: seq<string>,
      elig: string -> Lookup)
    requires spec.Obj? && Refused(r, tree, spec, sites, target, elig)
    ensures tree.Obj? && (r.LookupFailed? || r.Ineligible?)
  {
    var i: nat :| RefusedAt(r, tree, spec, sites, target, elig, i);
    WritingKeepsObjects(spec, sites[..i], target);
  }

  lemma LoopNarrowsSpec(spec: Fields, target: seq<string>)
    ensures WriteAll(Obj(spec), SitesOf(spec), 0, target) == Narrow(Obj(spec), "", target)
    ensures Narrow(Obj(spec), "", target).Obj?
  {
    LoopIsNarrow(Obj(spec), [], "", target);
  }

  method ScopeSpec(spec: Fields, target: seq<string>, elig: string -> Lookup) returns (r: Scope, left: Fields)
    ensures r.Scoped? <==> NamesOnlyEligible(SitesOf(spec), elig)
    ensures r.Scoped? ==>
      left == r.spec && Obj(r.spec) == Narrow(Obj(spec), "", target) && r.narrowed == Narrowed(SitesOf(spec))
    ensures !r.Scoped? ==> Refused(r, Obj(left), Obj(spec), SitesOf(spec), target, elig)
  {
    var sites := FindSelectorSites(spec);
    var offence, tree, narrowed := NarrowSites(Obj(spec), sites, target, elig);
    if offence.Some? {
      RefusalLeavesAnObject(offence.value, tree, Obj(spec), sites, target, elig);
      return offence.value, tree.fields;
    }
    LoopNarrowsSpec(spec, target);
    return Scoped(tree.fields, narrowed), tree.fields;
  }

  lemma NoTargets(m: Manifest)
    requires TargetsOf(m) == []
    ensures m.TargetNamespaces() == {}
  {
    forall ns ensures ns !in m.TargetNamespaces() {
      assert ns in TargetsOf(m) <==> ns in m.TargetNamespaces();
    }
  }

  // ----- What a scoped spec promises -----

  /** The targets were checked beforehand. */
  ghost predicate EligibleTargets(m: Manifest, elig: string -> Lookup) {
    m.TargetNamespaces() != {} && forall ns :: ns in m.TargetNamespaces() ==> elig(ns) == Eligible
  }

  /**
   * A scoped spec selects in eligible namespaces only, and in at least one wherever it selects; its
   * selectors are among the original ones, and a choice once made is kept.
   */
  lemma ScopedSpecIsContained(m: Manifest, elig: string -> Lookup, spec: Fields, t: Site)
    requires EligibleTargets(m, elig) && NamesOnlyEligible(SitesOf(m.spec), elig)
    requires Obj(spec) == Narrow(Obj(m.spec), "", TargetsOf(m)) && t in SitesOf(spec)
    ensures t.namespaces != [] && forall ns :: ns in t.namespaces ==> elig(ns) == Eligible
    ensures exists s :: (s in SitesOf(m.spec) && s.path == t.path
                         && t.namespaces == (if s.namespaces == [] then TargetsOf(m) else s.namespaces))
  {
    var target := TargetsOf(m);
    SitesAfterNarrowing(Obj(m.spec), [], "", target, t);
    var s :| s in SitesOf(m.spec) && ComesFrom(t, s, target);
    var ns := Pick(m.TargetNamespaces());
    assert ns in target;
    forall n | n in t.namespaces ensures elig(n) == Eligible {
      assert n in (if s.namespaces == [] then target else s.namespaces);
      assert n in target ==> n in m.TargetNamespaces();
    }
  }

  /** Every selector of the spec names a namespace, and only eligible ones. */
  ghost predicate Contained(spec: Fields, elig: string -> Lookup) {
    forall t :: t in SitesOf(spec) ==> t.namespaces != [] && forall ns :: ns in t.namespaces ==> elig(ns) == Eligible
  }

  lemma EmptySpecIsContained(elig: string -> Lookup)
    ensures Contained(map[], elig)
  {
    var none: Fields := map[];
    assert "" !in SELECTOR_FIELD_NAMES && !HasSelectorMarker(none);
    forall t ensures t !in SitesOf(none) { FieldSites(Obj(none), [], SortedKeys(none), t); }
  }

  lemma ScopedIsContained(m: Manifest, elig: string -> Lookup, spec: Fields)
    requires EligibleTargets(m, elig) && NamesOnlyEligible(SitesOf(m.spec), elig)
    requires Obj(spec) == Narrow(Obj(m.spec), "", TargetsOf(m))
    ensures Contained(spec, elig)
  {
    forall t | t in SitesOf(spec)
      ensures t.namespaces != [] && forall ns :: ns in t.namespaces ==> elig(ns) == Eligible
    {
      ScopedSpecIsContained(m, elig, spec, t);
    }
  }

  /** Every manifest but those whose driver hands on no spec, or that have none. */
  ghost predicate LookedAt(m: Manifest) {
    m.engine != "network-policy" && m.engine != "envoy-fault" && m.spec != map[]
  }

  /** Returns its verdict and the spec the caller's manifest is left with. */
  method ValidateSpecNamespaceScope(m: Manifest, elig: string -> Lookup) returns (r: Scope, left: Fields)
    ensures m.engine !in {"network-policy", "envoy-fault"} && EligibleTargets(m, elig) && r.Scoped? ==>
      Contained(r.spec, elig)
    ensures m.engine in {"network-policy", "envoy-fault"} || m.spec == map[] ==> r == Scoped(m.spec, [])
    ensures r.Scoped? ==> left == r.spec
    ensures r.NoTargetNamespace? ==> left == m.spec
    ensures LookedAt(m) ==> (r == NoTargetNamespace <==> m.TargetNamespaces() == {})
    ensures LookedAt(m) && m.TargetNamespaces() != {} ==> (r.Scoped? <==> NamesOnlyEligible(SitesOf(m.spec), elig))
    ensures LookedAt(m) && r.Scoped? ==>
      Obj(r.spec) == Narrow(Obj(m.spec), "", TargetsOf(m)) && r.narrowed == Narrowed(SitesOf(m.spec))
    ensures r.Ineligible? || r.LookupFailed? ==>
      Refused(r, Obj(left), Obj(m.spec), SitesOf(m.spec), TargetsOf(m), elig)
  {
    if Exempt(m) {
      EmptySpecIsContained(elig);
      return Scoped(m.spec, []), m.spec;
    }
    var target := ListTargetNamespaces(m);
    if |target| == 0 {
      NoTargets(m);
      return NoTargetNamespace, m.spec;
    }
    assert target[0] in m.TargetNamespaces();
    r, left := ScopeSpec(m.spec, target, elig);
    if EligibleTargets(m, elig) && r.Scoped? { ScopedIsContained(m, elig, r.spec); }
  }

  lemma {:induction false} NothingNarrowed(sites: seq<Site>)
    requires AllNameSomething(sites)
    ensures Narrowed(sites) == []
  {
    if sites != [] {
      assert sites[|sites| - 1] in sites;
      NothingNarrowed(sites[..|sites| - 1]);
    }
  }

  /** A second pass finds nothing to narrow and nothing to refuse. */
  lemma SecondPassIsIdle(m: Manifest, elig: string -> Lookup, spec: Fields)
    requires EligibleTargets(m, elig) && NamesOnlyEligible(SitesOf(m.spec), elig)
    requires Obj(spec) == Narrow(Obj(m.spec), "", TargetsOf(m))
    ensures NamesOnlyEligible(SitesOf(spec), elig)
    ensures Narrow(Obj(spec), "", TargetsOf(m)) == Obj(spec) && Narrowed(SitesOf(spec)) == []
  {
    forall t | t in SitesOf(spec)
      ensures t.namespaces != [] && forall ns :: ns in t.namespaces ==> elig(ns) == Eligible
    {
      ScopedSpecIsContained(m, elig, spec, t);
    }
    NothingToNarrow(Obj(spec), [], "", TargetsOf(m));
    NothingNarrowed(SitesOf(spec));
  }
}
