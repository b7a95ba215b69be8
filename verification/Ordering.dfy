/** Orders and the stable sort the source takes from its standard library. */
module Ordering {

  /** A strict total order on keys. */
  ghost predicate StrictTotal<K(!new)>(lt: (K, K) -> bool) {
    && (forall a :: !lt(a, a))
    && (forall a, b, c :: lt(a, b) && lt(b, c) ==> lt(a, c))
    && (forall a, b :: a == b || lt(a, b) || lt(b, a))
  }

  /** Text in code-point order. */
  predicate TextBefore(a: string, b: string) {
    if b == "" then false
    else if a == "" then true
    else if a[0] == b[0] then TextBefore(a[1..], b[1..])
    else a[0] < b[0]
  }

  lemma {:induction false} TextIrreflexive(a: string)
    ensures !TextBefore(a, a)
  {
    if a != "" { TextIrreflexive(a[1..]); }
  }

  lemma {:induction false} TextTransitive(a: string, b: string, c: string)
    requires TextBefore(a, b) && TextBefore(b, c)
    ensures TextBefore(a, c)
  {
    if a != "" && a[0] == b[0] && b[0] == c[0] {
      TextTransitive(a[1..], b[1..], c[1..]);
    }
  }

  lemma {:induction false} TextTotal(a: string, b: string)
    ensures a == b || TextBefore(a, b) || TextBefore(b, a)
  {
    if a != "" && b != "" && a[0] == b[0] {
      TextTotal(a[1..], b[1..]);
      assert a == [a[0]] + a[1..] && b == [b[0]] + b[1..];
    }
  }

  lemma TextIsTotal()
    ensures StrictTotal(TextBefore)
  {
    forall a ensures !TextBefore(a, a) { TextIrreflexive(a); }
    forall a, b, c | TextBefore(a, b) && TextBefore(b, c) ensures TextBefore(a, c) { TextTransitive(a, b, c); }
    forall a, b ensures a == b || TextBefore(a, b) || TextBefore(b, a) { TextTotal(a, b); }
  }

  /** Where two texts part: the earlier one ends there, or has the smaller character. */
  ghost predicate PartsAt(a: string, b: string, i: nat) {
    && i <= |a| && i < |b| && a[..i] == b[..i] && (i == |a| || a[i] < b[i])
  }

  lemma SameStart(a: string, b: string, i: nat)
    requires PartsAt(a, b, i) && i > 0
    ensures a != "" && b != "" && a[0] == b[0]
  {
    assert a[..i][0] == b[..i][0];
  }

  lemma {:induction false} TextIsLexicographic(a: string, b: string)
    ensures TextBefore(a, b) <==> exists i: nat :: PartsAt(a, b, i)
  {
    if b != "" && a != "" && a[0] == b[0] {
      TextIsLexicographic(a[1..], b[1..]);
      if i: nat :| PartsAt(a[1..], b[1..], i) {
        assert a[..i + 1] == [a[0]] + a[1..][..i] && b[..i + 1] == [b[0]] + b[1..][..i];
        assert PartsAt(a, b, i + 1);
      }
      if i: nat :| PartsAt(a, b, i) {
        assert i > 0 && a[1..][..i - 1] == a[..i][1..] && b[1..][..i - 1] == b[..i][1..];
        assert PartsAt(a[1..], b[1..], i - 1);
      }
    } else {
      if b != "" && (a == "" || a[0] < b[0]) { assert PartsAt(a, b, 0); }
      if i: nat :| PartsAt(a, b, i) {
        if i > 0 { SameStart(a, b, i); }
      }
    }
  }

  predicate IntBefore(a: int, b: int) { a < b }

  predicate IntAfter(a: int, b: int) { a > b }

  lemma IntIsTotal()
    ensures StrictTotal(IntBefore) && StrictTotal(IntAfter)
  {
  }

  /** No element's key comes before the key of an earlier element. */
  ghost predicate Ordered<T, K>(xs: seq<T>, key: T -> K, lt: (K, K) -> bool) {
    forall i, j :: 0 <= i < j < |xs| ==> !lt(key(xs[j]), key(xs[i]))
  }

  /** The elements with one key, in their order. */
  ghost function WithKey<T, K>(xs: seq<T>, key: T -> K, k: K): seq<T> {
    if xs == [] then []
    else WithKey(xs[..|xs| - 1], key, k) + if key(xs[|xs| - 1]) == k then [xs[|xs| - 1]] else []
  }

  /** Placed after every element that does not come later. */
  function Insert<T, K>(xs: seq<T>, x: T, key: T -> K, lt: (K, K) -> bool): seq<T> {
    if xs == [] || !lt(key(x), key(xs[|xs| - 1])) then xs + [x]
    else Insert(xs[..|xs| - 1], x, key, lt) + [xs[|xs| - 1]]
  }

  function Sort<T, K>(xs: seq<T>, key: T -> K, lt: (K, K) -> bool): seq<T> {
    if xs == [] then [] else Insert(Sort(xs[..|xs| - 1], key, lt), xs[|xs| - 1], key, lt)
  }

  lemma {:induction false} InsertPermutes<T(!new), K>(xs: seq<T>, x: T, key: T -> K, lt: (K, K) -> bool)
    ensures multiset(Insert(xs, x, key, lt)) == multiset(xs) + multiset{x}
    ensures forall y :: y in Insert(xs, x, key, lt) <==> y == x || y in xs
  {
    if xs != [] && lt(key(x), key(xs[|xs| - 1])) {
      var front, last := xs[..|xs| - 1], xs[|xs| - 1];
      assert xs == front + [last];
      InsertPermutes(front, x, key, lt);
    }
  }

  lemma NeverBoth<K(!new)>(lt: (K, K) -> bool, a: K, b: K)
    requires StrictTotal(lt) && lt(a, b)
    ensures !lt(b, a)
  {
    assert lt(b, a) ==> lt(a, a);
  }

  lemma {:induction false} InsertOrders<T(!new), K(!new)>(xs: seq<T>, x: T, key: T -> K, lt: (K, K) -> bool)
    requires StrictTotal(lt) && Ordered(xs, key, lt)
    ensures Ordered(Insert(xs, x, key, lt), key, lt)
  {
    if xs != [] && lt(key(x), key(xs[|xs| - 1])) {
      var front, last := xs[..|xs| - 1], xs[|xs| - 1];
      InsertOrders(front, x, key, lt);
      InsertPermutes(front, x, key, lt);
      var placed := Insert(front, x, key, lt);
      forall i | 0 <= i < |placed| ensures !lt(key(last), key(placed[i])) {
        var y := placed[i];
        assert y in placed;
        assert y == x || y in front;
        if y == x {
          NeverBoth(lt, key(x), key(last));
        } else {
          var j :| 0 <= j < |front| && front[j] == y;
          assert xs[j] == y;
        }
      }
    }
  }

  lemma WithKeySnoc<T, K>(xs: seq<T>, x: T, key: T -> K, k: K)
    ensures WithKey(xs + [x], key, k) == WithKey(xs, key, k) + if key(x) == k then [x] else []
  {
    assert (xs + [x])[..|xs|] == xs;
  }

  lemma {:induction false} InsertIsStable<T(!new), K(!new)>(xs: seq<T>, x: T, key: T -> K, lt: (K, K) -> bool, k: K)
    requires forall a :: !lt(a, a)
    ensures WithKey(Insert(xs, x, key, lt), key, k) == WithKey(xs + [x], key, k)
  {
    if xs != [] && lt(key(x), key(xs[|xs| - 1])) {
      var front, last := xs[..|xs| - 1], xs[|xs| - 1];
      InsertIsStable(front, x, key, lt, k);
      WithKeySnoc(Insert(front, x, key, lt), last, key, k);
      assert front + [last] == xs;
      KeysPass(front, x, last, key, k);
    }
  }

  /** Elements with different keys may change places. */
  lemma KeysPass<T, K>(xs: seq<T>, x: T, y: T, key: T -> K, k: K)
    requires key(x) != key(y)
    ensures WithKey(xs + [x], key, k) + (if key(y) == k then [y] else []) == WithKey(xs + [y] + [x], key, k)
  {
    WithKeySnoc(xs, x, key, k);
    WithKeySnoc(xs, y, key, k);
    WithKeySnoc(xs + [y], x, key, k);
  }

  /** The sort orders, permutes, and keeps equal keys in their original order. */
  lemma {:induction false} SortIsStable<T(!new), K(!new)>(xs: seq<T>, key: T -> K, lt: (K, K) -> bool)
    requires StrictTotal(lt)
    ensures Ordered(Sort(xs, key, lt), key, lt)
    ensures multiset(Sort(xs, key, lt)) == multiset(xs)
    ensures forall k :: WithKey(Sort(xs, key, lt), key, k) == WithKey(xs, key, k)
  {
    if xs != [] {
      var front, last := xs[..|xs| - 1], xs[|xs| - 1];
      assert xs == front + [last];
      SortIsStable(front, key, lt);
      InsertOrders(Sort(front, key, lt), last, key, lt);
      InsertPermutes(Sort(front, key, lt), last, key, lt);
      forall k ensures WithKey(Sort(xs, key, lt), key, k) == WithKey(xs, key, k) {
        InsertIsStable(Sort(front, key, lt), last, key, lt, k);
        WithKeySnoc(Sort(front, key, lt), last, key, k);
      }
    }
  }

  lemma SortKeepsMembers<T(!new), K(!new)>(xs: seq<T>, key: T -> K, lt: (K, K) -> bool)
    requires StrictTotal(lt)
    ensures |Sort(xs, key, lt)| == |xs|
    ensures forall x :: x in Sort(xs, key, lt) <==> x in xs
  {
    SortIsStable(xs, key, lt);
    forall x ensures x in Sort(xs, key, lt) <==> x in xs {
      assert x in multiset(Sort(xs, key, lt)) <==> x in multiset(xs);
    }
    assert |multiset(Sort(xs, key, lt))| == |multiset(xs)|;
  }

  function Itself<K>(k: K): K { k }

  lemma Twice<K>(xs: seq<K>, i: nat, j: nat)
    requires i < j < |xs|
    ensures xs[i] == xs[j] ==> multiset(xs)[xs[i]] >= 2
  {
    if xs[i] == xs[j] {
      assert xs == xs[..j] + xs[j..];
      assert xs[..j][i] == xs[i] && xs[j..][0] == xs[i];
      assert multiset(xs) == multiset(xs[..j]) + multiset(xs[j..]);
    }
  }

  lemma {:induction false} OnceEach<K(!new)>(xs: seq<K>)
    requires forall i, j :: 0 <= i < j < |xs| ==> xs[i] != xs[j]
    ensures forall x :: multiset(xs)[x] <= 1
  {
    if xs != [] {
      OnceEach(xs[..|xs| - 1]);
      assert xs == xs[..|xs| - 1] + [xs[|xs| - 1]];
    }
  }

  /** Sorting distinct keys lists them in ascending order. */
  lemma SortOfDistinct<K(!new)>(xs: seq<K>, lt: (K, K) -> bool)
    requires StrictTotal(lt) && forall i, j :: 0 <= i < j < |xs| ==> xs[i] != xs[j]
    ensures Ascending(Sort(xs, Itself, lt), lt)
    ensures |Sort(xs, Itself, lt)| == |xs| && forall k :: k in Sort(xs, Itself, lt) <==> k in xs
  {
    var sorted := Sort(xs, Itself, lt);
    SortIsStable(xs, Itself, lt);
    SortKeepsMembers(xs, Itself, lt);
    OnceEach(xs);
    forall i, j | 0 <= i < j < |sorted| ensures lt(sorted[i], sorted[j]) {
      assert !lt(Itself(sorted[j]), Itself(sorted[i]));
      Twice(sorted, i, j);
    }
  }

  /** Every element comes strictly before the later ones: sorted and without repeats. */
  ghost predicate Ascending<K>(xs: seq<K>, lt: (K, K) -> bool) {
    forall i, j :: 0 <= i < j < |xs| ==> lt(xs[i], xs[j])
  }

  ghost predicate IsFirst<K>(members: set<K>, lt: (K, K) -> bool, k: K) {
    k in members && forall x :: x in members && x != k ==> lt(k, x)
  }

  lemma {:induction false} FirstExists<K(!new)>(members: set<K>, lt: (K, K) -> bool) returns (k: K)
    requires StrictTotal(lt) && members != {}
    ensures IsFirst(members, lt, k)
    decreases |members|
  {
    k :| k in members;
    if members != {k} {
      var first := FirstExists(members - {k}, lt);
      if lt(first, k) { k := first; }
    }
  }

  /** The members of a finite set in ascending order: a sorted walk over a map's keys. */
  ghost function Listing<K(!new)>(members: set<K>, lt: (K, K) -> bool): (xs: seq<K>)
    requires StrictTotal(lt)
    ensures Ascending(xs, lt) && (forall k :: k in xs <==> k in members)
    decreases |members|
  {
    if members == {} then []
    else
      assert exists k :: IsFirst(members, lt, k) by { var k := FirstExists(members, lt); }
      var k :| IsFirst(members, lt, k);
      [k] + Listing(members - {k}, lt)
  }

  lemma NonEmptyHasMember<K>(xs: seq<K>)
    ensures xs != [] ==> exists k :: k in xs
  {
    if xs != [] { assert xs[0] in xs; }
  }

  /** Two sets that agree but for one element differ in size by that element. */
  lemma OneMoves<K(!new)>(before: set<K>, after: set<K>, x: K)
    requires forall y :: y != x ==> (y in before <==> y in after)
    ensures |after| == |before| + (if x in after then 1 else 0) - (if x in before then 1 else 0)
  {
    var others := before - {x};
    assert before == if x in before then others + {x} else others;
    assert after == if x in after then others + {x} else others;
  }

  lemma SubsetIsNoLarger<K>(a: set<K>, b: set<K>)
    requires a <= b
    ensures |a| <= |b|
  {
    assert b == a + (b - a);
  }

  lemma Pick<K>(members: set<K>) returns (k: K)
    requires members != {}
    ensures k in members
  {
    k :| k in members;
  }

  /** There is only one ascending listing of a set. */
  lemma {:induction false} AscendingIsUnique<K(!new)>(xs: seq<K>, ys: seq<K>, lt: (K, K) -> bool)
    requires StrictTotal(lt) && Ascending(xs, lt) && Ascending(ys, lt)
    requires forall k :: k in xs <==> k in ys
    ensures xs == ys
  {
    NonEmptyHasMember(xs);
    NonEmptyHasMember(ys);
    if xs != [] {
      assert xs[0] in ys;
      assert ys[0] in xs;
      assert xs[0] == ys[0];
      forall k ensures k in xs[1..] <==> k in ys[1..] {
        assert k in xs[1..] <==> k in xs && k != xs[0];
        assert k in ys[1..] <==> k in ys && k != ys[0];
      }
      AscendingIsUnique(xs[1..], ys[1..], lt);
      assert xs == [xs[0]] + xs[1..] && ys == [ys[0]] + ys[1..];
    }
  }

  /** A set's members, collected in any order and sorted. */
  method CollectSorted(members: set<string>) returns (sorted: seq<string>)
    ensures Ascending(sorted, TextBefore) && forall k :: k in sorted <==> k in members
  {
    var collected := [];
    var todo := members;
    while todo != {}
      invariant todo <= members
      invariant forall k :: k in collected <==> k in members && k !in todo
      invariant forall i, j :: 0 <= i < j < |collected| ==> collected[i] != collected[j]
      decreases |todo|
    {
      ghost var some := Pick(todo);
      var k :| k in todo;
      collected := collected + [k];
      todo := todo - {k};
    }
    sorted := Sort(collected, Itself, TextBefore);
    TextIsTotal();
    SortOfDistinct(collected, TextBefore);
  }
}
