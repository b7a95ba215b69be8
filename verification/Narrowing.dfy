/** Narrowing a spec's selectors: the in-place loop and the tree it leaves (pkg/executor/nsscope.go). */
module Narrowing {
  import opened Vocabulary
  import opened Ordering
  import opened Selectors

  /** A list of namespaces as the JSON value written into a selector. */
  function AsList(names: seq<string>): Json {
    Arr(seq(|names|, i requires 0 <= i < |names| => Str(names[i])))
  }

  // ----- The tree narrowing leaves -----

  ghost function NarrowedChildren(node: Json, target: seq<string>): Fields
    requires node.Obj?
    decreases node, 0
  {
    map k | k in node.fields ::
      if k in OPAQUE_MAP_FIELDS then node.fields[k] else Narrow(node.fields[k], k, target)
  }

  ghost predicate NamesNothing(fields: Fields, key: string) {
    IsSelector(key, fields) && NamespacesIn(fields) == []
  }

  /** Every selector that names no namespace gets the target namespaces; nothing else changes. */
  ghost function Narrow(node: Json, key: string, target: seq<string>): Json
    decreases node, 1
  {
    match node
    case Obj(fields) =>
      var children := NarrowedChildren(node, target);
      Obj(if NamesNothing(fields, key) then children["namespaces" := AsList(target)] else children)
    case Arr(items) => Arr(seq(|items|, i requires 0 <= i < |items| => Narrow(items[i], "", target)))
    case _ => node
  }

  // ----- The loop that writes into live nodes -----

  /** Writes the namespaces into the node a path leads to; a node no longer in the tree is written in vain. */
  function SetAt(node: Json, path: Path, target: seq<string>): Json
    decreases |path|
  {
    if path == [] then
      if node.Obj? then Obj(node.fields["namespaces" := AsList(target)]) else node
    else
      match (node, path[0])
      case (Obj(fields), Key(k)) =>
        if k in fields then Obj(fields[k := SetAt(fields[k], path[1..], target)]) else node
      case (Arr(items), Index(i)) =>
        if i < |items| then Arr(items[i := SetAt(items[i], path[1..], target)]) else node
      case _ => node
  }

  /** The loop over the sites found beforehand, for the part of the tree that starts `depth` segments down. */
  function WriteAll(node: Json, sites: seq<Site>, depth: nat, target: seq<string>): Json
    requires forall s :: s in sites ==> |s.path| >= depth
    decreases |sites|
  {
    if sites == [] then node
    else
      var s := sites[0];
      WriteAll(if s.namespaces == [] then SetAt(node, s.path[depth..], target) else node, sites[1..], depth, target)
  }

  ghost predicate Beneath(path: Path, sites: seq<Site>) {
    forall s :: s in sites ==> |s.path| >= |path| && s.path[..|path|] == path
  }

  lemma {:induction false} WalkIsBeneath(node: Json, path: Path, key: string)
    ensures Beneath(path, Walk(node, path, key))
    decreases node, 1, 0
  {
    match node
    case Obj(fields) => FieldsAreBeneath(node, path, SortedKeys(fields));
    case Arr(items) => ItemsAreBeneath(node, path, 0);
    case _ =>
  }

  lemma {:induction false} FieldsAreBeneath(node: Json, path: Path, keys: seq<string>)
    requires node.Obj? && forall k :: k in keys ==> k in node.fields
    ensures Beneath(path, WalkFields(node, path, keys))
    decreases node, 0, |keys|
  {
    if keys != [] {
      if keys[0] !in OPAQUE_MAP_FIELDS {
        WalkIsBeneath(node.fields[keys[0]], path + [Key(keys[0])], keys[0]);
        BeneathPrefix(path, Key(keys[0]), Walk(node.fields[keys[0]], path + [Key(keys[0])], keys[0]));
      }
      FieldsAreBeneath(node, path, keys[1..]);
    }
  }

  lemma {:induction false} ItemsAreBeneath(node: Json, path: Path, from: nat)
    requires node.Arr? && from <= |node.items|
    ensures Beneath(path, WalkItems(node, path, from))
    decreases node, 0, |node.items| - from
  {
    if from < |node.items| {
      WalkIsBeneath(node.items[from], path + [Index(from)], "");
      BeneathPrefix(path, Index(from), Walk(node.items[from], path + [Index(from)], ""));
      ItemsAreBeneath(node, path, from + 1);
    }
  }

  lemma BeneathPrefix(path: Path, seg: Segment, sites: seq<Site>)
    requires Beneath(path + [seg], sites)
    ensures Beneath(path, sites)
  {
    forall s | s in sites ensures |s.path| >= |path| && s.path[..|path|] == path {
      assert s.path[..|path|] == s.path[..|path + [seg]|][..|path|];
    }
  }

  lemma {:induction false} WriteAllSplits(node: Json, a: seq<Site>, b: seq<Site>, depth: nat, target: seq<string>)
    requires forall s :: s in a ==> |s.path| >= depth
    requires forall s :: s in b ==> |s.path| >= depth
    ensures forall s :: s in a + b ==> |s.path| >= depth
    ensures WriteAll(node, a + b, depth, target) == WriteAll(WriteAll(node, a, depth, target), b, depth, target)
    decreases |a|
  {
    if a == [] {
      assert a + b == b;
    } else {
      assert (a + b)[1..] == a[1..] + b;
      var next := if a[0].namespaces == [] then SetAt(node, a[0].path[depth..], target) else node;
      WriteAllSplits(next, a[1..], b, depth, target);
    }
  }

  /** Writing below one field touches that field alone. */
  lemma {:induction false} WriteBelowField(fields: Fields, k: string, sites: seq<Site>, path: Path, target: seq<string>)
    requires k in fields && Beneath(path + [Key(k)], sites) && Beneath(path, sites)
    ensures WriteAll(Obj(fields), sites, |path|, target)
         == Obj(fields[k := WriteAll(fields[k], sites, |path| + 1, target)])
    decreases |sites|
  {
    if sites == [] {
      assert fields[k := fields[k]] == fields;
    } else {
      var s := sites[0];
      var next := if s.namespaces == [] then SetAt(fields[k], s.path[|path| + 1..], target) else fields[k];
      assert s.path[..|path| + 1] == path + [Key(k)];
      assert s.path[|path|..][0] == Key(k) && s.path[|path|..][1..] == s.path[|path| + 1..];
      WriteBelowField(fields[k := next], k, sites[1..], path, target);
      assert fields[k := fields[k]] == fields;
    }
  }

  lemma {:induction false} WriteBelowItem(items: seq<Json>, i: nat, sites: seq<Site>, path: Path, target: seq<string>)
    requires i < |items| && Beneath(path + [Index(i)], sites) && Beneath(path, sites)
    ensures WriteAll(Arr(items), sites, |path|, target)
         == Arr(items[i := WriteAll(items[i], sites, |path| + 1, target)])
    decreases |sites|
  {
    if sites == [] {
      assert items[i := items[i]] == items;
    } else {
      var s := sites[0];
      var next := if s.namespaces == [] then SetAt(items[i], s.path[|path| + 1..], target) else items[i];
      assert s.path[..|path| + 1] == path + [Index(i)];
      assert s.path[|path|..][0] == Index(i) && s.path[|path|..][1..] == s.path[|path| + 1..];
      WriteBelowItem(items[i := next], i, sites[1..], path, target);
      assert items[i := items[i]] == items;
    }
  }

  /** Nodes that hung below a list replaced by namespaces are gone: writing to them changes nothing. */
  lemma {:induction false} WritingIntoAListIsVain(sites: seq<Site>, depth: nat, target: seq<string>)
    requires forall s :: s in sites ==> |s.path| >= depth
    ensures WriteAll(AsList(target), sites, depth, target) == AsList(target)
  {
    if sites != [] {
      SetInListIsVain(sites[0].path[depth..], target);
      WritingIntoAListIsVain(sites[1..], depth, target);
    }
  }

  lemma SetInListIsVain(path: Path, target: seq<string>)
    ensures SetAt(AsList(target), path, target) == AsList(target)
  {
    if path != [] && path[0].Index? && path[0].at < |target| {
      var items := AsList(target).items;
      assert SetAt(items[path[0].at], path[1..], target) == items[path[0].at];
      assert items[path[0].at := items[path[0].at]] == items;
    }
  }

  // ----- The loop computes the narrowed tree -----

  lemma {:induction false} LoopIsNarrow(node: Json, path: Path, key: string, target: seq<string>)
    ensures Beneath(path, Walk(node, path, key))
    ensures WriteAll(node, Walk(node, path, key), |path|, target) == Narrow(node, key, target)
    decreases node, 1, 0
  {
    WalkIsBeneath(node, path, key);
    match node
    case Obj(fields) => LoopIsNarrowForObject(node, path, key, target);
    case Arr(items) => LoopIsNarrowForItems(node, node, path, 0, target);
    case _ =>
  }

  lemma ListStaysAList(target: seq<string>)
    ensures Narrow(AsList(target), "namespaces", target) == AsList(target)
  {
    var narrowed := Narrow(AsList(target), "namespaces", target);
    forall i | 0 <= i < |target| ensures narrowed.items[i] == Str(target[i]) {
      assert AsList(target).items[i] == Str(target[i]);
      assert Narrow(Str(target[i]), "", target) == Str(target[i]);
    }
    assert narrowed.items == AsList(target).items;
  }

  /** The namespaces a selector without any is given, before its children are visited. */
  ghost function OwnWritten(fields: Fields, key: string, target: seq<string>): Fields {
    if NamesNothing(fields, key) then fields["namespaces" := AsList(target)] else fields
  }

  lemma WriteOwn(fields: Fields, path: Path, key: string, target: seq<string>)
    ensures Beneath(path, OwnSite(fields, path, key))
    ensures WriteAll(Obj(fields), OwnSite(fields, path, key), |path|, target) == Obj(OwnWritten(fields, key, target))
  {
    assert path[|path|..] == [];
    var own := OwnSite(fields, path, key);
    assert own != [] ==> own[1..] == [];
  }

  lemma {:induction false} LoopIsNarrowForObject(node: Json, path: Path, key: string, target: seq<string>)
    requires node.Obj? && Beneath(path, Walk(node, path, key))
    ensures WriteAll(node, Walk(node, path, key), |path|, target) == Narrow(node, key, target)
    decreases node, 0, |node.fields| + 1
  {
    var fields := node.fields;
    var keys := SortedKeys(fields);
    FieldsAreBeneath(node, path, keys);
    WriteOwn(fields, path, key, target);
    WriteAllSplits(node, OwnSite(fields, path, key), WalkFields(node, path, keys), |path|, target);
    AscendingIsDistinct(keys);
    SizeOfListing(keys, fields.Keys);
    var after := LoopIsNarrowForFields(node, OwnWritten(fields, key, target), path, keys, target);
    ListStaysAList(target);
    AfterIsNarrowed(node, after, key, target);
  }

  lemma AscendingIsDistinct(keys: seq<string>)
    requires Ascending(keys, TextBefore)
    ensures forall i, j :: 0 <= i < j < |keys| ==> keys[i] != keys[j]
  {
    TextIsTotal();
  }

  lemma {:induction false} SizeOfListing(keys: seq<string>, members: set<string>)
    requires forall i, j :: 0 <= i < j < |keys| ==> keys[i] != keys[j]
    requires forall k :: k in keys <==> k in members
    ensures |keys| == |members|
  {
    if keys != [] {
      var front, last := keys[..|keys| - 1], keys[|keys| - 1];
      assert forall k :: k in keys <==> k in front || k == last;
      SizeOfListing(front, members - {last});
    } else {
      assert members == {};
    }
  }

  lemma AfterIsNarrowed(node: Json, after: Fields, key: string, target: seq<string>)
    requires node.Obj? && after.Keys == OwnWritten(node.fields, key, target).Keys
    requires forall k :: k in after ==>
      after[k] == FieldAfter(node, OwnWritten(node.fields, key, target), k, true, target)
    requires Narrow(AsList(target), "namespaces", target) == AsList(target)
    ensures Obj(after) == Narrow(node, key, target)
  {
    var children := NarrowedChildren(node, target);
    var expected := if NamesNothing(node.fields, key) then children["namespaces" := AsList(target)] else children;
    forall k | k in after ensures after[k] == expected[k] {}
    assert after == expected;
  }

  /** What a field holds once its sites, if it has been visited, have been written. */
  ghost function FieldAfter(node: Json, cur: Fields, k: string, visited: bool, target: seq<string>): Json
    requires node.Obj? && k in cur
  {
    if visited && k in node.fields && k !in OPAQUE_MAP_FIELDS && cur[k] == node.fields[k]
    then Narrow(node.fields[k], k, target)
    else cur[k]
  }

  lemma {:induction false} WriteField(node: Json, cur: Fields, path: Path, k: string, target: seq<string>)
    requires node.Obj? && k in node.fields && k in cur && k !in OPAQUE_MAP_FIELDS
    requires cur[k] == node.fields[k] || cur[k] == AsList(target)
    ensures Beneath(path, Walk(node.fields[k], path + [Key(k)], k))
    ensures WriteAll(Obj(cur), Walk(node.fields[k], path + [Key(k)], k), |path|, target)
         == Obj(cur[k := FieldAfter(node, cur, k, true, target)])
    decreases node, 0, 0
  {
    var sites := Walk(node.fields[k], path + [Key(k)], k);
    LoopIsNarrow(node.fields[k], path + [Key(k)], k, target);
    BeneathPrefix(path, Key(k), sites);
    WriteBelowField(cur, k, sites, path, target);
    if cur[k] != node.fields[k] {
      WritingIntoAListIsVain(sites, |path| + 1, target);
    }
  }

  lemma {:induction false} LoopIsNarrowForFields(node: Json, cur: Fields, path: Path, keys: seq<string>,
      target: seq<string>)
    returns (after: Fields)
    requires node.Obj? && forall k :: k in keys ==> k in node.fields
    requires forall k :: k in keys ==> k in cur && (cur[k] == node.fields[k] || cur[k] == AsList(target))
    requires forall i, j :: 0 <= i < j < |keys| ==> keys[i] != keys[j]
    ensures Beneath(path, WalkFields(node, path, keys))
    ensures WriteAll(Obj(cur), WalkFields(node, path, keys), |path|, target) == Obj(after)
    ensures after.Keys == cur.Keys
    ensures forall k :: k in cur ==> after[k] == FieldAfter(node, cur, k, k in keys, target)
    decreases node, 0, |keys|
  {
    FieldsAreBeneath(node, path, keys);
    if keys == [] {
      after := cur;
    } else {
      var k, rest := keys[0], keys[1..];
      FieldsAreBeneath(node, path, rest);
      if k in OPAQUE_MAP_FIELDS {
        assert WalkFields(node, path, keys) == WalkFields(node, path, rest);
        after := LoopIsNarrowForFields(node, cur, path, rest, target);
      } else {
        WriteField(node, cur, path, k, target);
        WriteAllSplits(Obj(cur), Walk(node.fields[k], path + [Key(k)], k), WalkFields(node, path, rest), |path|,
          target);
        var next := cur[k := FieldAfter(node, cur, k, true, target)];
        after := LoopIsNarrowForFields(node, next, path, rest, target);
      }
      assert k !in rest;
      assert forall x :: x in keys <==> x == k || x in rest;
    }
  }

  lemma {:induction false} LoopIsNarrowForItems(node: Json, cur: Json, path: Path, from: nat, target: seq<string>)
    requires node.Arr? && cur.Arr? && |cur.items| == |node.items| && from <= |node.items|
    requires forall i :: 0 <= i < from ==> cur.items[i] == Narrow(node.items[i], "", target)
    requires forall i :: from <= i < |node.items| ==> cur.items[i] == node.items[i]
    ensures Beneath(path, WalkItems(node, path, from))
    ensures WriteAll(cur, WalkItems(node, path, from), |path|, target) == Narrow(node, "", target)
    decreases node, 0, |node.items| - from
  {
    ItemsAreBeneath(node, path, from);
    if from < |node.items| {
      var sites := Walk(node.items[from], path + [Index(from)], "");
      LoopIsNarrow(node.items[from], path + [Index(from)], "", target);
      BeneathPrefix(path, Index(from), sites);
      ItemsAreBeneath(node, path, from + 1);
      WriteAllSplits(cur, sites, WalkItems(node, path, from + 1), |path|, target);
      WriteBelowItem(cur.items, from, sites, path, target);
      var next := Arr(cur.items[from := Narrow(node.items[from], "", target)]);
      LoopIsNarrowForItems(node, next, path, from + 1, target);
    } else {
      assert cur.items == Narrow(node, "", target).items;
    }
  }
}
