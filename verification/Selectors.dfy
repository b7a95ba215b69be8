/** Finding the selector-shaped nodes of a fault's spec (pkg/executor/nsscope.go). */
module Selectors {
  import opened Vocabulary
  import opened Ordering

  const SELECTOR_FIELD_NAMES: set<string> := {"selector", "podSelector", "containerSelector"}

  const SELECTOR_MARKER_KEYS: set<string> := {
    "namespaces", "labelSelectors", "expressionSelectors", "annotationSelectors", "fieldSelectors",
    "podPhaseSelectors", "nodeSelectors", "nodes", "pods"}

  const OPAQUE_MAP_FIELDS: set<string> := {
    "labelSelectors", "annotationSelectors", "fieldSelectors", "nodeSelectors", "pods"}

  type Fields = map<string, Json>

  /** One step down a spec: a field of an object or an element of a list. The spec itself is the empty path. */
  datatype Segment = Key(name: string) | Index(at: nat)
  type Path = seq<Segment>

  datatype Site = Site(path: Path, node: Fields, namespaces: seq<string>)

  ghost function SortedKeys(fields: Fields): (keys: seq<string>)
    ensures Ascending(keys, TextBefore) && forall k :: k in keys <==> k in fields
  {
    TextIsTotal();
    Listing(fields.Keys, TextBefore)
  }

  /** A marker only counts with a value of the shape that field has. */
  ghost predicate HasSelectorMarker(fields: Fields) {
    exists k :: k in fields && k in SELECTOR_MARKER_KEYS && (fields[k].Arr? || fields[k].Obj?)
  }

  ghost predicate IsSelector(key: string, fields: Fields) {
    key in SELECTOR_FIELD_NAMES || HasSelectorMarker(fields)
  }

  /** The namespaces a selector names: in its list, or as keys of its pods. */
  ghost function NamedNamespaces(fields: Fields): set<string> {
    (set v | "namespaces" in fields && fields["namespaces"].Arr? && v in fields["namespaces"].items
             && v.Str? && v.text != "" :: v.text)
    + (set ns | "pods" in fields && fields["pods"].Obj? && ns in fields["pods"].fields && ns != "" :: ns)
  }

  ghost function NamespacesIn(fields: Fields): (names: seq<string>)
    ensures Ascending(names, TextBefore) && forall ns :: ns in names <==> ns in NamedNamespaces(fields)
  {
    TextIsTotal();
    Listing(NamedNamespaces(fields), TextBefore)
  }

  ghost function OwnSite(fields: Fields, path: Path, key: string): seq<Site> {
    if IsSelector(key, fields) then [Site(path, fields, NamespacesIn(fields))] else []
  }

  /** Every selector of a tree: the node itself first, then its children in key or list order. */
  ghost function Walk(node: Json, path: Path, key: string): seq<Site>
    decreases node, 1, 0
  {
    match node
    case Obj(fields) => OwnSite(fields, path, key) + WalkFields(node, path, SortedKeys(fields))
    case Arr(items) => WalkItems(node, path, 0)
    case _ => []
  }

  ghost function WalkFields(node: Json, path: Path, keys: seq<string>): seq<Site>
    requires node.Obj? && forall k :: k in keys ==> k in node.fields
    decreases node, 0, |keys|
  {
    if keys == [] then []
    else
      (if keys[0] in OPAQUE_MAP_FIELDS then [] else Walk(node.fields[keys[0]], path + [Key(keys[0])], keys[0]))
      + WalkFields(node, path, keys[1..])
  }

  ghost function WalkItems(node: Json, path: Path, from: nat): seq<Site>
    requires node.Arr? && from <= |node.items|
    decreases node, 0, |node.items| - from
  {
    if from == |node.items| then []
    else Walk(node.items[from], path + [Index(from)], "") + WalkItems(node, path, from + 1)
  }

  // ----- The walk as the source runs it -----

  method SortKeys(fields: Fields) returns (keys: seq<string>)
    ensures keys == SortedKeys(fields)
  {
    keys := CollectSorted(fields.Keys);
    TextIsTotal();
    AscendingIsUnique(keys, SortedKeys(fields), TextBefore);
  }

  method FindMarker(fields: Fields) returns (found: bool)
    ensures found <==> HasSelectorMarker(fields)
  {
    var todo := fields.Keys;
    while todo != {}
      invariant todo <= fields.Keys
      invariant forall k :: k in fields && k !in todo && k in SELECTOR_MARKER_KEYS ==>
        !fields[k].Arr? && !fields[k].Obj?
      decreases |todo|
    {
      ghost var some := Pick(todo);
      var k :| k in todo;
      todo := todo - {k};
      if k !in SELECTOR_MARKER_KEYS { continue; }
      if fields[k].Arr? || fields[k].Obj? { return true; }
    }
    return false;
  }

  method CollectNamespaces(fields: Fields) returns (names: seq<string>)
    ensures names == NamespacesIn(fields)
  {
    var seen: set<string> := {};
    if "namespaces" in fields && fields["namespaces"].Arr? {
      var items := fields["namespaces"].items;
      for i := 0 to |items|
        invariant forall ns :: ns in seen <==> ns != "" && Str(ns) in items[..i]
      {
        assert items[..i + 1] == items[..i] + [items[i]];
        if items[i].Str? && items[i].text != "" { seen := seen + {items[i].text}; }
      }
      assert items[..|items|] == items;
    }
    if "pods" in fields && fields["pods"].Obj? {
      seen := seen + (set ns | ns in fields["pods"].fields && ns != "");
    }
    SameNames(fields, seen);
    names := CollectSorted(seen);
    TextIsTotal();
    AscendingIsUnique(names, NamespacesIn(fields), TextBefore);
  }

  lemma SameNames(fields: Fields, seen: set<string>)
    requires forall ns :: ns in seen <==>
      || ("namespaces" in fields && fields["namespaces"].Arr? && ns != "" && Str(ns) in fields["namespaces"].items)
      || ("pods" in fields && fields["pods"].Obj? && ns in fields["pods"].fields && ns != "")
    ensures seen == NamedNamespaces(fields)
  {
    forall ns ensures ns in seen <==> ns in NamedNamespaces(fields) {
      if "namespaces" in fields && fields["namespaces"].Arr? && ns != "" && Str(ns) in fields["namespaces"].items {
        assert Str(ns).text in NamedNamespaces(fields);
      }
    }
  }

  /** The recursive walk: appends what it finds to what was found before. */
  method WalkForSelectors(node: Json, path: Path, key: string, before: seq<Site>) returns (found: seq<Site>)
    ensures found == before + Walk(node, path, key)
    decreases node, 1, 0
  {
    match node
    case Obj(fields) =>
      var own := SelectorSite(fields, path, key);
      found := WalkObject(node, path, before + own);
      Regroup(before, own, WalkFields(node, path, SortedKeys(fields)));
    case Arr(items) =>
      found := WalkArray(node, path, before);
    case _ =>
      found := before;
  }

  lemma Regroup(a: seq<Site>, b: seq<Site>, c: seq<Site>)
    ensures (a + b) + c == a + (b + c)
  {
  }

  method SelectorSite(fields: Fields, path: Path, key: string) returns (own: seq<Site>)
    ensures own == OwnSite(fields, path, key)
  {
    var marked := FindMarker(fields);
    if key !in SELECTOR_FIELD_NAMES && !marked { return []; }
    var names := CollectNamespaces(fields);
    return [Site(path, fields, names)];
  }

  method WalkField(node: Json, path: Path, k: string, before: seq<Site>) returns (found: seq<Site>)
    requires node.Obj? && k in node.fields
    ensures found == before
      + if k in OPAQUE_MAP_FIELDS then [] else Walk(node.fields[k], path + [Key(k)], k)
    decreases node, 0, 0
  {
    if k in OPAQUE_MAP_FIELDS { return before; }
    found := WalkForSelectors(node.fields[k], path + [Key(k)], k, before);
  }

  method WalkObject(node: Json, path: Path, before: seq<Site>) returns (found: seq<Site>)
    requires node.Obj?
    ensures found == before + WalkFields(node, path, SortedKeys(node.fields))
    decreases node, 0, 1
  {
    found := before;
    var keys := SortKeys(node.fields);
    var i := 0;
    ghost var rest := WalkFields(node, path, keys);
    assert keys[0..] == keys;
    while i < |keys|
      invariant 0 <= i <= |keys|
      invariant rest == WalkFields(node, path, keys[i..])
      invariant found + rest == before + WalkFields(node, path, keys)
    {
      ghost var earlier := found;
      found := WalkField(node, path, keys[i], found);
      assert keys[i..][1..] == keys[i + 1..];
      rest := WalkFields(node, path, keys[i + 1..]);
      Regroup(earlier, found[|earlier|..], rest);
      i := i + 1;
    }
    assert keys[|keys|..] == [];
  }

  method WalkArray(node: Json, path: Path, before: seq<Site>) returns (found: seq<Site>)
    requires node.Arr?
    ensures found == before + WalkItems(node, path, 0)
    decreases node, 0, 0
  {
    found := before;
    for i := 0 to |node.items|
      invariant found + WalkItems(node, path, i) == before + WalkItems(node, path, 0)
    {
      found := WalkForSelectors(node.items[i], path + [Index(i)], "", found);
    }
  }

  method FindSelectorSites(spec: Fields) returns (sites: seq<Site>)
    ensures sites == Walk(Obj(spec), [], "")
  {
    sites := WalkForSelectors(Obj(spec), [], "", []);
  }
}
