/** Which nodes of a spec are its selectors, told by the paths that lead to them (pkg/executor/nsscope.go). */
module SelectorPaths {
  import opened Vocabulary
  import opened Ordering
  import opened Selectors
  import opened Narrowing
  import opened NamespaceScope

  /** What a path leads to. */
  function NodeAt(node: Json, path: Path): Option<Json>
    decreases |path|
  {
    if path == [] then Some(node)
    else
      match (node, path[0])
      case (Obj(fields), Key(k)) => if k in fields then NodeAt(fields[k], path[1..]) else None
      case (Arr(items), Index(i)) => if i < |items| then NodeAt(items[i], path[1..]) else None
      case _ => None
  }

  /** The field a path ends in; an element of a list has no name. */
  function NameAt(path: Path, key: string): string {
    if path == [] then key else match path[|path| - 1] case Key(k) => k case Index(_) => ""
  }

  /** The path stays clear of the fields whose keys are the user's own words. */
  ghost predicate InSchema(path: Path) {
    forall k :: Key(k) in path ==>
      k !in {"labelSelectors", "annotationSelectors", "fieldSelectors", "nodeSelectors", "pods"}
  }

  /** A node that stands where a selector does, or has a field only a selector has. */
  ghost predicate SelectorShaped(name: string, fields: Fields) {
    || name in {"selector", "podSelector", "containerSelector"}
    || exists k :: k in fields && (fields[k].Arr? || fields[k].Obj?)
         && k in {"namespaces", "labelSelectors", "expressionSelectors", "annotationSelectors", "fieldSelectors",
                  "podPhaseSelectors", "nodeSelectors", "nodes", "pods"}
  }

  /** The namespaces in the node's list and the keys of its pods, in order, once each. */
  ghost predicate Names(fields: Fields, namespaces: seq<string>) {
    && Ascending(namespaces, TextBefore)
    && forall ns :: ns in namespaces <==> ns != "" && NamedIn(fields, ns)
  }

  ghost predicate NamedIn(fields: Fields, ns: string) {
    || ("namespaces" in fields && fields["namespaces"].Arr? && Str(ns) in fields["namespaces"].items)
    || ("pods" in fields && fields["pods"].Obj? && ns in fields["pods"].fields)
  }

  /** The rest of a path leads from the node to a selector, told as the site has it. */
  ghost predicate LeadsTo(node: Json, key: string, rest: Path, s: Site) {
    && NodeAt(node, rest) == Some(Obj(s.node)) && InSchema(rest)
    && SelectorShaped(NameAt(rest, key), s.node) && Names(s.node, s.namespaces)
  }

  ghost predicate Extends(path: Path, s: Site) {
    |s.path| >= |path| && s.path[..|path|] == path
  }

  ghost predicate IsBelow(node: Json, path: Path, key: string, s: Site) {
    Extends(path, s) && LeadsTo(node, key, s.path[|path|..], s)
  }

  lemma NamesAreListed(fields: Fields, namespaces: seq<string>)
    ensures Names(fields, namespaces) <==> namespaces == NamespacesIn(fields)
  {
    forall ns ensures ns in NamedNamespaces(fields) <==> ns != "" && NamedIn(fields, ns) {
      if "namespaces" in fields && fields["namespaces"].Arr? && Str(ns) in fields["namespaces"].items && ns != "" {
        assert Str(ns).text in NamedNamespaces(fields);
      }
    }
    TextIsTotal();
    if Names(fields, namespaces) { AscendingIsUnique(namespaces, NamespacesIn(fields), TextBefore); }
  }

  lemma OwnIsAtTheEnd(fields: Fields, path: Path, key: string, s: Site)
    ensures s in OwnSite(fields, path, key) <==> s.path == path && LeadsTo(Obj(fields), key, [], s)
  {
    NamesAreListed(fields, s.namespaces);
    assert SelectorShaped(key, fields) <==> IsSelector(key, fields);
  }

  lemma StepDown(node: Json, path: Path, key: string, seg: Segment, child: Json, name: string, s: Site)
    requires NodeAt(node, [seg]) == Some(child) && name == NameAt([seg], key)
    requires Extends(path + [seg], s)
    ensures IsBelow(node, path, key, s) <==> InSchema([seg]) && IsBelow(child, path + [seg], name, s)
  {
    var rest, below := s.path[|path|..], s.path[|path| + 1..];
    assert s.path[..|path|] == s.path[..|path| + 1][..|path|];
    assert rest[0] == s.path[..|path| + 1][|path|] == seg;
    assert rest == [seg] + below && rest[1..] == below;
    assert NodeAt(node, rest) == NodeAt(child, below);
    assert InSchema(rest) <==> InSchema([seg]) && InSchema(below);
    assert NameAt(rest, key) == NameAt(below, name);
  }

  /** Below the node itself there are only its children. */
  lemma BelowObject(fields: Fields, path: Path, key: string, s: Site)
    requires s.path != path
    ensures IsBelow(Obj(fields), path, key, s) <==>
      exists k :: k in fields && k !in OPAQUE_MAP_FIELDS && IsBelow(fields[k], path + [Key(k)], k, s)
  {
    if IsBelow(Obj(fields), path, key, s) {
      var seg := s.path[|path|];
      assert s.path[..|path| + 1] == path + [seg] && s.path[|path|..][0] == seg;
      assert seg.Key? && seg.name in fields && InSchema([seg]) by { assert seg in s.path[|path|..]; }
      ChildOfObject(fields, path, key, seg.name, s);
    }
    if k :| k in fields && k !in OPAQUE_MAP_FIELDS && IsBelow(fields[k], path + [Key(k)], k, s) {
      ChildOfObject(fields, path, key, k, s);
    }
  }

  lemma ChildOfObject(fields: Fields, path: Path, key: string, k: string, s: Site)
    requires k in fields && Extends(path + [Key(k)], s)
    ensures IsBelow(Obj(fields), path, key, s) <==>
      k !in OPAQUE_MAP_FIELDS && IsBelow(fields[k], path + [Key(k)], k, s)
  {
    assert NodeAt(Obj(fields), [Key(k)]) == NodeAt(fields[k], [Key(k)][1..]) == Some(fields[k]);
    assert InSchema([Key(k)]) <==> k !in OPAQUE_MAP_FIELDS by { assert Key(k) in [Key(k)]; }
    StepDown(Obj(fields), path, key, Key(k), fields[k], k, s);
  }

  lemma BelowArray(items: seq<Json>, path: Path, key: string, s: Site)
    requires s.path != path
    ensures IsBelow(Arr(items), path, key, s) <==>
      exists i: nat :: i < |items| && IsBelow(items[i], path + [Index(i)], "", s)
  {
    if IsBelow(Arr(items), path, key, s) {
      var seg := s.path[|path|];
      assert s.path[..|path| + 1] == path + [seg] && s.path[|path|..][0] == seg;
      assert seg.Index? && seg.at < |items|;
      ChildOfArray(items, path, key, seg.at, s);
    }
    if i: nat :| i < |items| && IsBelow(items[i], path + [Index(i)], "", s) {
      ChildOfArray(items, path, key, i, s);
    }
  }

  lemma ChildOfArray(items: seq<Json>, path: Path, key: string, i: nat, s: Site)
    requires i < |items| && Extends(path + [Index(i)], s)
    ensures IsBelow(Arr(items), path, key, s) <==> IsBelow(items[i], path + [Index(i)], "", s)
  {
    assert NodeAt(Arr(items), [Index(i)]) == NodeAt(items[i], [Index(i)][1..]) == Some(items[i]);
    assert InSchema([Index(i)]);
    StepDown(Arr(items), path, key, Index(i), items[i], "", s);
  }

  /** The walk finds exactly the selectors below a node. */
  lemma {:induction false} WalkFinds(node: Json, path: Path, key: string, s: Site)
    ensures s in Walk(node, path, key) <==> IsBelow(node, path, key, s)
    decreases node, 1
  {
    match node
    case Obj(fields) => ObjectFinds(node, path, key, s);
    case Arr(items) => ArrayFinds(node, path, key, s);
    case _ => assert NodeAt(node, s.path[|s.path|..]) == Some(node);
  }

  lemma {:induction false} ObjectFinds(node: Json, path: Path, key: string, s: Site)
    requires node.Obj?
    ensures s in Walk(node, path, key) <==> IsBelow(node, path, key, s)
    decreases node, 0
  {
    var fields := node.fields;
    OwnIsAtTheEnd(fields, path, key, s);
    FieldSites(node, path, SortedKeys(fields), s);
    forall k | k in fields
      ensures s in Walk(fields[k], path + [Key(k)], k) <==> IsBelow(fields[k], path + [Key(k)], k, s)
    {
      WalkFinds(fields[k], path + [Key(k)], k, s);
    }
    FieldsFind(fields, path, key, s);
  }

  lemma FieldsFind(fields: Fields, path: Path, key: string, s: Site)
    requires forall k :: k in fields ==>
      (s in Walk(fields[k], path + [Key(k)], k) <==> IsBelow(fields[k], path + [Key(k)], k, s))
    requires s in OwnSite(fields, path, key) <==> s.path == path && LeadsTo(Obj(fields), key, [], s)
    requires s in WalkFields(Obj(fields), path, SortedKeys(fields)) <==>
      exists k :: k in SortedKeys(fields) && k !in OPAQUE_MAP_FIELDS && s in Walk(fields[k], path + [Key(k)], k)
    ensures s in Walk(Obj(fields), path, key) <==> IsBelow(Obj(fields), path, key, s)
  {
    if s.path == path {
      assert s.path[|path|..] == [];
    } else {
      BelowObject(fields, path, key, s);
    }
  }

  lemma {:induction false} ArrayFinds(node: Json, path: Path, key: string, s: Site)
    requires node.Arr?
    ensures s in Walk(node, path, key) <==> IsBelow(node, path, key, s)
    decreases node, 0
  {
    var items := node.items;
    ItemSites(node, path, 0, s);
    forall i: nat | i < |items|
      ensures InItem(node, path, i, s) <==> IsBelow(items[i], path + [Index(i)], "", s)
    {
      WalkFinds(items[i], path + [Index(i)], "", s);
    }
    if s.path == path {
      assert s.path[|path|..] == [];
    } else {
      BelowArray(items, path, key, s);
    }
  }

  /**
   * The selectors of a spec are exactly the objects that stand in a selector's field or have a selector's field, list
   * or object as it may be, at any depth but not below the user's own keys; each with the namespaces it names.
   */
  lemma SitesAreTheSelectors(spec: Fields, s: Site)
    ensures s in SitesOf(spec) <==>
      && NodeAt(Obj(spec), s.path) == Some(Obj(s.node)) && InSchema(s.path)
      && SelectorShaped(NameAt(s.path, ""), s.node) && Names(s.node, s.namespaces)
  {
    WalkFinds(Obj(spec), [], "", s);
    assert s.path[0..] == s.path && s.path[..0] == [];
  }
}
