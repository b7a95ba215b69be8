/** Bounding a fault to the pods its targets name, and away from excluded workloads (pkg/executor/podscope.go). */
module PodScope {
  import opened Vocabulary
  import opened Ordering
  import opened Selectors
  import opened Narrowing
  import opened NamespaceScope

  const POD_NARROWING_KEYS: seq<string> := [
    "labelSelectors", "expressionSelectors", "annotationSelectors", "fieldSelectors", "pods", "nodes", "nodeSelectors"]

  const SELECTOR: string := "selector"

  predicate EmptyValue(v: Json) {
    match v
    case Null => true
    case Obj(fields) => fields == map[]
    case Arr(items) => items == []
    case Str(text) => text == ""
    case _ => false
  }

  /** A field that picks pods says something: it is neither null nor an empty object, list or text. */
  ghost predicate PicksPods(sel: Fields) {
    exists k :: k in sel && sel[k] !in {Null, Obj(map[]), Arr([]), Str("")} && k in {
      "labelSelectors", "expressionSelectors", "annotationSelectors", "fieldSelectors", "pods", "nodes",
      "nodeSelectors"}
  }

  /** Whether a selector picks particular pods out of its namespaces. */
  predicate SelectsPods(sel: Fields)
    ensures SelectsPods(sel) <==> PicksPods(sel)
  {
    exists k | k in POD_NARROWING_KEYS :: k in sel && !EmptyValue(sel[k])
  }

  /** What looking up a namespace's excluded workloads answers. */
  datatype Exclusions = NoAnswer | Excludes(workloads: seq<string>)

  predicate IsOutageKind(engine: string, kind: string) {
    engine == "chaos-mesh" && (kind == "ZoneOutage" || kind == "NodeOutage")
  }

  /** Faults whose spec the driver does not hand on as a selector. */
  predicate Untouched(m: Manifest, hasSpec: bool) {
    m.engine != "chaos-mesh" || !hasSpec || IsOutageKind(m.engine, m.resourceKind)
  }

  datatype PodScope =
    | Accepted(spec: Fields, labels: Option<map<string, string>>)
    | ExclusionLookupFailed(namespace: string)
    | ReachesExcluded(path: Path, namespace: string)
    | LabelsUnknown

  /** The selector the fault is aimed with; anything but an object counts as none. */
  function MainSelector(spec: Fields): Fields {
    if SELECTOR in spec && spec[SELECTOR].Obj? then spec[SELECTOR].fields else map[]
  }

  /** The labels every target has, if they are known and agree. */
  ghost function AgreedLabels(targets: seq<TargetRef>): Option<map<string, string>> {
    if targets != [] && targets[0].labels != map[] && forall t :: t in targets ==> t.labels == targets[0].labels
    then Some(targets[0].labels) else None
  }

  predicate NamesWorkload(targets: seq<TargetRef>) {
    exists t | t in targets :: t.name != ""
  }

  function LabelsValue(labels: map<string, string>): Json {
    Obj(map k | k in labels :: Str(labels[k]))
  }

  function WithLabels(spec: Fields, labels: map<string, string>): (after: Fields)
    ensures "selector" in after && after["selector"].Obj?
    ensures forall k :: k != "selector" ==> (k in after <==> k in spec) && (k in spec ==> after[k] == spec[k])
    ensures
      var was := if "selector" in spec && spec["selector"].Obj? then spec["selector"].fields else map[];
      var sel := after["selector"].fields;
      && "labelSelectors" in sel && sel["labelSelectors"] == Obj(map l | l in labels :: Str(labels[l]))
      && (forall k :: k != "labelSelectors" ==> (k in sel <==> k in was) && (k in was ==> sel[k] == was[k]))
  {
    spec[SELECTOR := Obj(MainSelector(spec)["labelSelectors" := LabelsValue(labels)])]
  }

  /** The namespaces a selector covers: the ones it names, or the targets' when it names none. */
  function Covered(namespaces: seq<string>, target: seq<string>): seq<string> {
    if namespaces == [] then target else namespaces
  }

  predicate Clear(excl: string -> Exclusions, ns: string) {
    excl(ns) == Excludes([])
  }

  ghost predicate AllClear(excl: string -> Exclusions, namespaces: seq<string>) {
    forall ns :: ns in namespaces ==> Clear(excl, ns)
  }

  ghost predicate SecondaryClear(sites: seq<Site>, target: seq<string>, excl: string -> Exclusions) {
    forall s :: s in sites ==> SiteClear(s, target, excl)
  }

  /** When a fault that is looked at at all is let through. */
  ghost predicate Passes(m: Manifest, excl: string -> Exclusions, hasResolver: bool) {
    && SecondaryClear(SitesOf(m.spec), TargetsOf(m), excl)
    && (|| SelectsPods(MainSelector(m.spec))
        || AgreedLabels(m.targets).Some?
        || (if NamesWorkload(m.targets) then !hasResolver else AllClear(excl, TargetsOf(m))))
  }

  /** A refusal names the first namespace of a list that is not clear, and the selector that covers it. */
  ghost predicate RefusedOver(r: PodScope, namespaces: seq<string>, path: Path, excl: string -> Exclusions) {
    exists j :: 0 <= j < |namespaces| && !Clear(excl, namespaces[j]) && AllClear(excl, namespaces[..j])
      && r == if excl(namespaces[j]) == NoAnswer then ExclusionLookupFailed(namespaces[j])
              else ReachesExcluded(path, namespaces[j])
  }

  /** The first selector beside the main one that reaches an excluded workload is the one refused. */
  ghost predicate SecondaryRefused(r: PodScope, sites: seq<Site>, target: seq<string>, excl: string -> Exclusions) {
    exists i :: 0 <= i < |sites| && SecondaryClear(sites[..i], target, excl) && SiteRefused(r, sites[i], target, excl)
  }

  ghost predicate SiteRefused(r: PodScope, s: Site, target: seq<string>, excl: string -> Exclusions) {
    s.path != [Key(SELECTOR)] && !SelectsPods(s.node) && RefusedOver(r, Covered(s.namespaces, target), s.path, excl)
  }

  // ----- The checks -----

  /** The first namespace of a list that is not clear. */
  method CheckNamespaces(namespaces: seq<string>, path: Path, excl: string -> Exclusions)
      returns (refusal: Option<PodScope>)
    ensures refusal.None? <==> AllClear(excl, namespaces)
    ensures refusal.Some? ==> RefusedOver(refusal.value, namespaces, path, excl)
  {
    for i := 0 to |namespaces|
      invariant AllClear(excl, namespaces[..i])
    {
      var ns := namespaces[i];
      assert namespaces[..i + 1] == namespaces[..i] + [ns];
      if excl(ns) == NoAnswer {
        assert !Clear(excl, ns) && ns in namespaces;
        return Some(ExclusionLookupFailed(ns));
      }
      if |excl(ns).workloads| > 0 {
        assert !Clear(excl, ns) && ns in namespaces;
        return Some(ReachesExcluded(path, ns));
      }
    }
    assert namespaces[..|namespaces|] == namespaces;
    return None;
  }

  ghost predicate SiteClear(s: Site, target: seq<string>, excl: string -> Exclusions) {
    s.path != [Key(SELECTOR)] && !SelectsPods(s.node) ==> AllClear(excl, Covered(s.namespaces, target))
  }

  method CheckSecondarySite(site: Site, target: seq<string>, excl: string -> Exclusions)
      returns (refusal: Option<PodScope>)
    ensures refusal.None? <==> SiteClear(site, target, excl)
    ensures refusal.Some? ==> SiteRefused(refusal.value, site, target, excl)
  {
    if site.path == [Key(SELECTOR)] || SelectsPods(site.node) { return None; }
    refusal := CheckNamespaces(Covered(site.namespaces, target), site.path, excl);
  }

  /** Every selector but the main one must pick pods or reach no excluded workload. */
  method CheckSecondarySelectors(m: Manifest, excl: string -> Exclusions) returns (refusal: Option<PodScope>)
    ensures refusal.None? <==> SecondaryClear(SitesOf(m.spec), TargetsOf(m), excl)
    ensures refusal.Some? ==> SecondaryRefused(refusal.value, SitesOf(m.spec), TargetsOf(m), excl)
  {
    var sites := FindSelectorSites(m.spec);
    var target := ListTargetNamespaces(m);
    refusal := CheckSites(sites, target, excl);
  }

  method CheckSites(sites: seq<Site>, target: seq<string>, excl: string -> Exclusions)
      returns (refusal: Option<PodScope>)
    ensures refusal.None? <==> SecondaryClear(sites, target, excl)
    ensures refusal.Some? ==> SecondaryRefused(refusal.value, sites, target, excl)
  {
    for i := 0 to |sites|
      invariant SecondaryClear(sites[..i], target, excl)
    {
      assert sites[..i + 1] == sites[..i] + [sites[i]];
      refusal := CheckSecondarySite(sites[i], target, excl);
      if refusal.Some? {
        assert sites[i] in sites;
        return;
      }
    }
    assert sites[..|sites|] == sites;
    return None;
  }

  /** Goes through the targets once: their common labels, if any, and whether one names a workload. */
  method CompareTargets(targets: seq<TargetRef>) returns (labels: Option<map<string, string>>, named: bool)
    ensures labels == AgreedLabels(targets)
    ensures named <==> NamesWorkload(targets)
  {
    var first: Option<map<string, string>> := None;
    var agree := true;
    named := false;
    for i := 0 to |targets|
      invariant named <==> exists t | t in targets[..i] :: t.name != ""
      invariant first.Some? ==> first.value != map[]
      invariant agree ==> forall t :: t in targets[..i] ==> first == Some(t.labels)
      invariant agree && i > 0 ==> first.Some?
      invariant !agree ==> exists t, u ::
        t in targets[..i] && u in targets[..i] && (t.labels == map[] || t.labels != u.labels)
      invariant first.Some? ==> exists t :: t in targets[..i] && t.labels == first.value
    {
      var t := targets[i];
      assert targets[..i + 1] == targets[..i] + [t];
      if t.name != "" { named := true; }
      if t.labels == map[] {
        agree := false;
      } else if first.None? {
        first := Some(t.labels);
      } else if first.value != t.labels {
        agree := false;
      }
    }
    assert targets[..|targets|] == targets;
    if agree && first.Some? {
      assert targets != [] && first == Some(targets[0].labels);
      return first, named;
    }
    return None, named;
  }

  // ----- What a fault that was let through can reach -----

  /** A selector that picks no particular pods and covers a namespace with excluded workloads. */
  ghost predicate Exposes(t: Site, target: seq<string>, excl: string -> Exclusions) {
    && !SelectsPods(t.node)
    && exists ns :: (ns in t.namespaces || (t.namespaces == [] && ns in target)) && excl(ns) != Excludes([])
  }

  ghost predicate SparesExcluded(spec: Fields, target: seq<string>, excl: string -> Exclusions) {
    forall t :: t in SitesOf(spec) ==> !Exposes(t, target, excl)
  }

  /** The main selector of a spec, as the site it is. */
  lemma MainSite(spec: Fields, t: Site)
    requires t in SitesOf(spec) && t.path == [Key(SELECTOR)]
    ensures SELECTOR in spec && spec[SELECTOR].Obj?
      && t == Site([Key(SELECTOR)], MainSelector(spec), NamespacesIn(MainSelector(spec)))
  {
    TopSite(spec, t);
    var k :| k in spec && k !in OPAQUE_MAP_FIELDS && t in Walk(spec[k], [Key(k)], k);
    WalkIsBeneath(spec[k], [Key(k)], k);
    assert t.path[..1] == [Key(k)];
    TopOfWalk(spec[k], [Key(k)], k, t);
  }

  lemma TopSite(spec: Fields, t: Site)
    ensures t in SitesOf(spec) <==>
      (t in OwnSite(spec, [], "") || exists k ::
        k in spec && k !in OPAQUE_MAP_FIELDS && t in Walk(spec[k], [Key(k)], k))
  {
    FieldSites(Obj(spec), [], SortedKeys(spec), t);
    forall k ensures [] + [Key(k)] == [Key(k)] {}
  }

  /** The only site of a tree at its own path is its root. */
  lemma TopOfWalk(node: Json, path: Path, key: string, t: Site)
    requires t in Walk(node, path, key) && t.path == path
    ensures node.Obj? && t in OwnSite(node.fields, path, key)
  {
    if node.Arr? {
      ItemSites(node, path, 0, t);
      var i: nat :| InItem(node, path, i, t);
      WalkIsBeneath(node.items[i], path + [Index(i)], "");
    } else if node.Obj? && t !in OwnSite(node.fields, path, key) {
      FieldSites(node, path, SortedKeys(node.fields), t);
      var k :| k in node.fields && t in Walk(node.fields[k], path + [Key(k)], k);
      WalkIsBeneath(node.fields[k], path + [Key(k)], k);
    }
  }

  lemma LabelsSelectPods(sel: Fields, labels: map<string, string>)
    requires labels != map[]
    ensures SelectsPods(sel["labelSelectors" := LabelsValue(labels)])
  {
    var k :| k in labels;
    var value := LabelsValue(labels);
    assert k in value.fields;
    assert !EmptyValue(value);
    assert POD_NARROWING_KEYS[0] == "labelSelectors";
    assert "labelSelectors" in POD_NARROWING_KEYS;
  }

  lemma RootAfterLabels(spec: Fields, labels: map<string, string>)
    ensures HasSelectorMarker(WithLabels(spec, labels)) ==> HasSelectorMarker(spec)
    ensures NamespacesIn(WithLabels(spec, labels)) == NamespacesIn(spec)
    ensures SelectsPods(WithLabels(spec, labels)) <==> SelectsPods(spec)
  {
    var after := WithLabels(spec, labels);
    if HasSelectorMarker(after) {
      var k :| k in after && k in SELECTOR_MARKER_KEYS && (after[k].Arr? || after[k].Obj?);
      assert k in spec && (spec[k].Arr? || spec[k].Obj?);
    }
    assert NamedNamespaces(after) == NamedNamespaces(spec);
    assert SELECTOR !in POD_NARROWING_KEYS;
    assert forall k :: k in POD_NARROWING_KEYS ==> (k in after <==> k in spec) && (k in after ==> after[k] == spec[k]);
  }

  /** A site that does as one of the spec's own sites does. */
  ghost predicate Alike(spec: Fields, t: Site) {
    exists s :: s in SitesOf(spec) && s.path == t.path && s.namespaces == t.namespaces
             && (SelectsPods(s.node) <==> SelectsPods(t.node))
  }

  lemma PathOfSite(node: Json, path: Path, key: string, t: Site)
    requires t in Walk(node, path, key)
    ensures |t.path| >= |path| && t.path[..|path|] == path
  {
    WalkIsBeneath(node, path, key);
  }

  lemma SiteBelowTop(spec: Fields, k: string, sites: seq<Site>, t: Site)
    requires k in spec && k !in OPAQUE_MAP_FIELDS && sites == Walk(spec[k], [Key(k)], k) && t in sites
    ensures t in SitesOf(spec)
  {
    TopSite(spec, t);
  }

  /** What lies below a labelled selector lies below it without the labels too. */
  lemma BelowLabels(sel: Fields, labels: map<string, string>, path: Path, t: Site)
    requires t in WalkFields(Obj(sel["labelSelectors" := LabelsValue(labels)]), path,
                             SortedKeys(sel["labelSelectors" := LabelsValue(labels)]))
    ensures t in Walk(Obj(sel), path, SELECTOR) && |t.path| > |path| && sel != map[]
  {
    var after := sel["labelSelectors" := LabelsValue(labels)];
    FieldSites(Obj(after), path, SortedKeys(after), t);
    var k :| k in after && k !in OPAQUE_MAP_FIELDS && t in Walk(after[k], path + [Key(k)], k);
    assert k in sel && sel[k] == after[k];
    PathOfSite(after[k], path + [Key(k)], k, t);
    SiteBelowField(Obj(sel), path, SELECTOR, k, Walk(after[k], path + [Key(k)], k), t);
  }

  lemma SitesOfLabelled(sel: Fields, labels: map<string, string>, path: Path, t: Site)
    requires labels != map[] && t in Walk(Obj(sel["labelSelectors" := LabelsValue(labels)]), path, SELECTOR)
    ensures if t.path == path then SelectsPods(t.node) else t in Walk(Obj(sel), path, SELECTOR) && sel != map[]
  {
    var after := sel["labelSelectors" := LabelsValue(labels)];
    if t in OwnSite(after, path, SELECTOR) {
      OwnPath(after, path, SELECTOR, t);
      LabelsSelectPods(sel, labels);
    } else {
      BelowLabels(sel, labels, path, t);
    }
  }

  lemma OwnPath(fields: Fields, path: Path, key: string, t: Site)
    requires t in OwnSite(fields, path, key)
    ensures t.path == path && t.node == fields
  {
  }

  lemma SameSiteIsAlike(spec: Fields, t: Site)
    requires t in SitesOf(spec)
    ensures Alike(spec, t)
  {
  }

  lemma RootIsAlike(spec: Fields, labels: map<string, string>, t: Site)
    requires t in OwnSite(WithLabels(spec, labels), [], "")
    ensures Alike(spec, t) && t.path == []
  {
    RootAfterLabels(spec, labels);
    var s := Site([], spec, NamespacesIn(spec));
    assert s in OwnSite(spec, [], "");
    TopSite(spec, s);
    assert s in SitesOf(spec) && s.path == t.path;
  }

  /** Giving the main selector labels leaves every other selector as it was. */
  lemma SitesAfterLabels(spec: Fields, labels: map<string, string>, t: Site)
    requires labels != map[] && t in SitesOf(WithLabels(spec, labels))
    ensures if t.path == [Key(SELECTOR)] then SelectsPods(t.node) else Alike(spec, t)
  {
    var after := WithLabels(spec, labels);
    TopSite(after, t);
    if t in OwnSite(after, [], "") {
      RootIsAlike(spec, labels, t);
    } else {
      var k :| k in after && k !in OPAQUE_MAP_FIELDS && t in Walk(after[k], [Key(k)], k);
      if k == SELECTOR {
        var sel := MainSelector(spec);
        SitesOfLabelled(sel, labels, [Key(SELECTOR)], t);
        if t.path != [Key(SELECTOR)] {
          SiteBelowTop(spec, SELECTOR, Walk(Obj(sel), [Key(SELECTOR)], SELECTOR), t);
          SameSiteIsAlike(spec, t);
        }
      } else {
        assert after[k] == spec[k];
        PathOfSite(after[k], [Key(k)], k, t);
        assert t.path[..1][0] == Key(k);
        SiteBelowTop(spec, k, Walk(after[k], [Key(k)], k), t);
        SameSiteIsAlike(spec, t);
      }
    }
  }

  /** The labels its main selector is given, if any. */
  ghost function GivenLabels(m: Manifest): Option<map<string, string>> {
    if SelectsPods(MainSelector(m.spec)) then None else AgreedLabels(m.targets)
  }

  /** The spec a fault that was let through goes on with. */
  ghost function FinalSpec(m: Manifest): Fields {
    if SelectsPods(MainSelector(m.spec)) || AgreedLabels(m.targets).None? then m.spec
    else WithLabels(m.spec, AgreedLabels(m.targets).value)
  }

  /**
   * The gap the check leaves: an unlabelled main selector that names, beside the targets, a namespace with
   * excluded workloads - or any covered one, where targets name workloads and nobody resolves their labels.
   */
  ghost predicate Gap(m: Manifest, excl: string -> Exclusions, hasResolver: bool) {
    var sel, target := MainSelector(m.spec), TargetsOf(m);
    && SELECTOR in m.spec && m.spec[SELECTOR].Obj?
    && !SelectsPods(sel) && AgreedLabels(m.targets).None?
    && (|| (exists ns :: ns in NamespacesIn(sel) && ns !in target && excl(ns) != Excludes([]))
        || (NamesWorkload(m.targets) && !hasResolver && exists ns ::
              (ns in NamespacesIn(sel) || (NamespacesIn(sel) == [] && ns in target)) && excl(ns) != Excludes([])))
  }

  lemma MainSelectorIsASite(spec: Fields)
    requires SELECTOR in spec && spec[SELECTOR].Obj?
    ensures Site([Key(SELECTOR)], MainSelector(spec), NamespacesIn(MainSelector(spec))) in SitesOf(spec)
  {
    var s := Site([Key(SELECTOR)], MainSelector(spec), NamespacesIn(MainSelector(spec)));
    assert SELECTOR in SELECTOR_FIELD_NAMES && SELECTOR !in OPAQUE_MAP_FIELDS;
    assert s in OwnSite(MainSelector(spec), [Key(SELECTOR)], SELECTOR);
    assert s in Walk(spec[SELECTOR], [Key(SELECTOR)], SELECTOR);
    TopSite(spec, s);
  }

  lemma SecondaryIsSpared(m: Manifest, excl: string -> Exclusions, t: Site)
    requires SecondaryClear(SitesOf(m.spec), TargetsOf(m), excl) && t.path != [Key(SELECTOR)] && Alike(m.spec, t)
    ensures !Exposes(t, TargetsOf(m), excl)
  {
    var s :| s in SitesOf(m.spec) && s.path == t.path && s.namespaces == t.namespaces
          && (SelectsPods(s.node) <==> SelectsPods(t.node));
    assert SiteClear(s, TargetsOf(m), excl);
  }

  /** A fault that was let through spares every excluded workload exactly when it does not fall into the gap. */
  lemma SparedUnlessGap(m: Manifest, excl: string -> Exclusions, hasResolver: bool)
    requires Passes(m, excl, hasResolver)
    ensures SparesExcluded(FinalSpec(m), TargetsOf(m), excl) <==> !Gap(m, excl, hasResolver)
  {
    var target, final := TargetsOf(m), FinalSpec(m);
    if Gap(m, excl, hasResolver) {
      var t := Site([Key(SELECTOR)], MainSelector(m.spec), NamespacesIn(MainSelector(m.spec)));
      MainSelectorIsASite(m.spec);
      assert Exposes(t, target, excl);
    } else {
      forall t | t in SitesOf(final) ensures !Exposes(t, target, excl) {
        SpareSite(m, excl, hasResolver, t);
      }
    }
  }

  lemma SpareSite(m: Manifest, excl: string -> Exclusions, hasResolver: bool, t: Site)
    requires Passes(m, excl, hasResolver) && !Gap(m, excl, hasResolver) && t in SitesOf(FinalSpec(m))
    ensures !Exposes(t, TargetsOf(m), excl)
  {
    var labelled := !SelectsPods(MainSelector(m.spec)) && AgreedLabels(m.targets).Some?;
    if labelled {
      SitesAfterLabels(m.spec, AgreedLabels(m.targets).value, t);
    }
    if t.path != [Key(SELECTOR)] {
      assert Alike(m.spec, t);
      SecondaryIsSpared(m, excl, t);
    } else if !labelled {
      MainSite(m.spec, t);
      if !SelectsPods(t.node) {
        assert !NamesWorkload(m.targets) ==> AllClear(excl, TargetsOf(m));
      }
    }
  }

  /** An answer about a manifest that was looked at. */
  ghost predicate Answers(m: Manifest, excl: string -> Exclusions, hasResolver: bool, r: PodScope) {
    && (r.Accepted? <==> Passes(m, excl, hasResolver))
    && (if r.Accepted? then r.spec == FinalSpec(m) && r.labels == GivenLabels(m)
        else if !SecondaryClear(SitesOf(m.spec), TargetsOf(m), excl) then
          SecondaryRefused(r, SitesOf(m.spec), TargetsOf(m), excl)
        else if NamesWorkload(m.targets) then r == LabelsUnknown
        else RefusedOver(r, TargetsOf(m), [Key(SELECTOR)], excl))
  }

  method NarrowPodSelector(m: Manifest, hasSpec: bool, excl: string -> Exclusions, hasResolver: bool)
      returns (r: PodScope)
    ensures m.engine != "chaos-mesh" || !hasSpec || m.resourceKind in {"ZoneOutage", "NodeOutage"} ==>
      r == Accepted(m.spec, None)
    ensures m.engine == "chaos-mesh" && hasSpec && m.resourceKind !in {"ZoneOutage", "NodeOutage"} ==>
      && Answers(m, excl, hasResolver, r)
      && (r.Accepted? ==> (SparesExcluded(r.spec, TargetsOf(m), excl) <==> !Gap(m, excl, hasResolver)))
  {
    if Untouched(m, hasSpec) { return Accepted(m.spec, None); }
    r := NarrowLookedAt(m, excl, hasResolver);
    if r.Accepted? { SparedUnlessGap(m, excl, hasResolver); }
  }

  method NarrowLookedAt(m: Manifest, excl: string -> Exclusions, hasResolver: bool) returns (r: PodScope)
    ensures Answers(m, excl, hasResolver, r)
  {
    var refusal := CheckSecondarySelectors(m, excl);
    if refusal.Some? { return refusal.value; }
    if SelectsPods(MainSelector(m.spec)) { return Accepted(m.spec, None); }
    var labels, named := CompareTargets(m.targets);
    if labels.Some? {
      return Accepted(WithLabels(m.spec, labels.value), labels);
    }
    if named {
      return if hasResolver then LabelsUnknown else Accepted(m.spec, None);
    }
    var target := ListTargetNamespaces(m);
    refusal := CheckNamespaces(target, [Key(SELECTOR)], excl);
    return if refusal.Some? then refusal.value else Accepted(m.spec, None);
  }

  /** Scoped to namespaces and then to pods, a fault whose main selector names only targets spares what is excluded. */
  lemma ScopedThenNarrowedSparesExcluded(m: Manifest, spec: Fields, elig: string -> Lookup, excl: string -> Exclusions)
    requires EligibleTargets(m, elig) && NamesOnlyEligible(SitesOf(m.spec), elig)
    requires Obj(spec) == Narrow(Obj(m.spec), "", TargetsOf(m))
    requires forall ns :: ns in NamespacesIn(MainSelector(m.spec)) ==> ns in TargetsOf(m)
    requires Passes(m.(spec := spec), excl, true)
    ensures SparesExcluded(FinalSpec(m.(spec := spec)), TargetsOf(m), excl)
  {
    var scoped := m.(spec := spec);
    assert scoped.TargetNamespaces() == m.TargetNamespaces();
    SameTargets(m, scoped);
    if SELECTOR in spec && spec[SELECTOR].Obj? {
      var t := Site([Key(SELECTOR)], MainSelector(spec), NamespacesIn(MainSelector(spec)));
      MainSelectorIsASite(spec);
      SitesAfterNarrowing(Obj(m.spec), [], "", TargetsOf(m), t);
      var s :| s in SitesOf(m.spec) && ComesFrom(t, s, TargetsOf(m));
      MainSite(m.spec, s);
      assert forall ns :: ns in t.namespaces ==> ns in TargetsOf(m);
    }
    SparedUnlessGap(scoped, excl, true);
  }

  lemma SameTargets(m: Manifest, n: Manifest)
    requires m.TargetNamespaces() == n.TargetNamespaces()
    ensures TargetsOf(m) == TargetsOf(n)
  {
    TextIsTotal();
    AscendingIsUnique(TargetsOf(m), TargetsOf(n), TextBefore);
  }

  /**
   * The gap is real: a fault aimed at namespace "a" whose selector names "b" is let through, and reaches the
   * workload excluded in "b".
   */
  lemma GapExample() returns (m: Manifest, excl: string -> Exclusions)
    ensures Passes(m, excl, true) && EligibleTargets(m, ns => Eligible)
      && NamesOnlyEligible(SitesOf(m.spec), ns => Eligible)
    ensures Obj(m.spec) == Narrow(Obj(m.spec), "", TargetsOf(m))
    ensures !SparesExcluded(FinalSpec(m), TargetsOf(m), excl)
  {
    var sel: Fields := map["namespaces" := Arr([Str("b")])];
    m := Manifest("", "", "chaos-mesh", "PodChaos", map[SELECTOR := Obj(sel)],
      [TargetRef("a", "", "", map[])], 60, "namespace", "");
    excl := ns => if ns == "b" then Excludes(["loadgenerator"]) else Excludes([]);
    ExampleNames(sel);
    ExampleSites(m.spec, sel);
    ExampleTargets(m);
    ExampleNarrows(m, sel);
    ExampleIsAGap(m, sel, excl);
    SparedUnlessGap(m, excl, true);
  }

  lemma ExampleNarrows(m: Manifest, sel: Fields)
    requires m.spec == map[SELECTOR := Obj(sel)] && NamespacesIn(sel) != []
    requires forall s :: s in SitesOf(m.spec) ==> s == Site([Key(SELECTOR)], sel, NamespacesIn(sel))
    ensures Obj(m.spec) == Narrow(Obj(m.spec), "", TargetsOf(m))
  {
    AllOfOne(SitesOf(m.spec), Site([Key(SELECTOR)], sel, NamespacesIn(sel)));
    NothingToNarrow(Obj(m.spec), [], "", TargetsOf(m));
  }

  lemma AllOfOne(sites: seq<Site>, one: Site)
    requires one.namespaces != [] && forall s :: s in sites ==> s == one
    ensures AllNameSomething(sites)
  {
  }

  lemma ExampleIsAGap(m: Manifest, sel: Fields, excl: string -> Exclusions)
    requires m.spec == map[SELECTOR := Obj(sel)] && sel == map["namespaces" := Arr([Str("b")])]
    requires m.targets == [TargetRef("a", "", "", map[])]
    requires forall s :: s in SitesOf(m.spec) ==> s == Site([Key(SELECTOR)], sel, NamespacesIn(sel))
    requires forall ns :: ns in TargetsOf(m) <==> ns == "a"
    requires forall ns :: ns in NamespacesIn(sel) <==> ns == "b"
    requires !Clear(excl, "b") && Clear(excl, "a")
    ensures Passes(m, excl, true) && Gap(m, excl, true)
  {
    assert AgreedLabels(m.targets).None? && !NamesWorkload(m.targets);
    assert MainSelector(m.spec) == sel;
    assert !SelectsPods(sel);
    assert "b" in NamespacesIn(sel) && "b" !in TargetsOf(m);
  }

  lemma ExampleTargets(m: Manifest)
    requires m.targets == [TargetRef("a", "", "", map[])]
    ensures forall ns :: ns in TargetsOf(m) <==> ns == "a"
    ensures m.TargetNamespaces() == {"a"}
  {
    assert m.targets[0] in m.targets && m.targets[0].namespace == "a";
    assert m.TargetNamespaces() == {"a"};
  }

  lemma ExampleNames(sel: Fields)
    requires sel == map["namespaces" := Arr([Str("b")])]
    ensures forall ns :: ns in NamespacesIn(sel) <==> ns == "b"
    ensures NamespacesIn(sel) != []
  {
    assert Str("b").text in NamedNamespaces(sel);
    assert "b" in NamespacesIn(sel);
  }

  lemma ExampleRoot(spec: Fields, sel: Fields)
    requires spec == map[SELECTOR := Obj(sel)]
    ensures OwnSite(spec, [], "") == []
  {
    assert !HasSelectorMarker(spec);
    assert "" !in SELECTOR_FIELD_NAMES;
  }

  lemma ExampleBelow(sel: Fields, s: Site)
    requires sel == map["namespaces" := Arr([Str("b")])]
    ensures s !in WalkFields(Obj(sel), [Key(SELECTOR)], SortedKeys(sel))
  {
    FieldSites(Obj(sel), [Key(SELECTOR)], SortedKeys(sel), s);
    ItemsOfOne(sel["namespaces"], [Key(SELECTOR)] + [Key("namespaces")]);
  }

  lemma ExampleSites(spec: Fields, sel: Fields)
    requires sel == map["namespaces" := Arr([Str("b")])] && spec == map[SELECTOR := Obj(sel)]
    ensures forall s :: s in SitesOf(spec) ==> s == Site([Key(SELECTOR)], sel, NamespacesIn(sel))
  {
    ExampleRoot(spec, sel);
    forall s | s in SitesOf(spec) ensures s == Site([Key(SELECTOR)], sel, NamespacesIn(sel)) {
      TopSite(spec, s);
      assert s in Walk(Obj(sel), [Key(SELECTOR)], SELECTOR);
      ExampleBelow(sel, s);
      assert s in OwnSite(sel, [Key(SELECTOR)], SELECTOR);
    }
  }

  lemma ItemsOfOne(list: Json, path: Path)
    requires list == Arr([Str("b")])
    ensures Walk(list, path, "namespaces") == []
  {
    assert WalkItems(list, path, 1) == [];
    assert Walk(list.items[0], path + [Index(0)], "") == [];
    assert WalkItems(list, path, 0) == [];
  }
}
