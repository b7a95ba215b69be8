/** Bounded histories: the newest part of a sequence, read newest first. */
module Rings {

  /** The last n elements, or all of them. */
  function Last<T>(xs: seq<T>, n: nat): (last: seq<T>)
    ensures |last| <= n && |last| <= |xs|
  {
    if |xs| <= n then xs else xs[|xs| - n..]
  }

  /** Dropping the oldest when the ring is full, and appending, keeps the last n of everything appended. */
  lemma LastSnoc<T>(xs: seq<T>, x: T, n: nat)
    requires n > 0
    ensures Last(xs + [x], n) == (if |Last(xs, n)| >= n then Last(xs, n)[1..] else Last(xs, n)) + [x]
  {
  }

  /** The elements to keep among the first so many, newest first. */
  ghost function NewestOf<T>(xs: seq<T>, keep: T -> bool, upto: nat): seq<T>
    requires upto <= |xs|
  {
    if upto == 0 then []
    else (if keep(xs[upto - 1]) then [xs[upto - 1]] else []) + NewestOf(xs, keep, upto - 1)
  }

  /** Newest first, as far as the limit; no limit unless it is positive. */
  ghost function Newest<T>(xs: seq<T>, keep: T -> bool, limit: int): seq<T> {
    var newest := NewestOf(xs, keep, |xs|);
    if 0 < limit < |newest| then newest[..limit] else newest
  }

  method NewestFirst<T>(xs: seq<T>, keep: T -> bool, limit: int) returns (out: seq<T>)
    ensures out == Newest(xs, keep, limit)
  {
    out := [];
    var i := |xs|;
    while i > 0
      invariant 0 <= i <= |xs|
      invariant out + NewestOf(xs, keep, i) == NewestOf(xs, keep, |xs|)
      invariant limit > 0 ==> |out| < limit
    {
      i := i - 1;
      if !keep(xs[i]) { continue; }
      ghost var rest := NewestOf(xs, keep, i);
      assert out + ([xs[i]] + rest) == (out + [xs[i]]) + rest;
      out := out + [xs[i]];
      if limit > 0 && |out| >= limit { return; }
    }
  }

  ghost function Kept<T>(xs: seq<T>, keep: T -> bool): seq<T> {
    if xs == [] then [] else Kept(xs[..|xs| - 1], keep) + if keep(xs[|xs| - 1]) then [xs[|xs| - 1]] else []
  }

  predicate Any<T>(x: T) { true }

  /** Reading newest first and keeping some is keeping them and reading newest first. */
  lemma {:induction false} NewestOfKept<T>(xs: seq<T>, keep: T -> bool, upto: nat)
    requires upto <= |xs|
    ensures NewestOf(xs, keep, upto) == NewestOf(Kept(xs[..upto], keep), Any, |Kept(xs[..upto], keep)|)
  {
    if upto > 0 {
      NewestOfKept(xs, keep, upto - 1);
      var own, x := Kept(xs[..upto - 1], keep), xs[upto - 1];
      assert xs[..upto][..upto - 1] == xs[..upto - 1];
      if keep(x) {
        SamePrefix(own, own + [x], |own|);
        assert Kept(xs[..upto], keep) == own + [x];
      } else {
        assert Kept(xs[..upto], keep) == own;
        assert NewestOf(xs, keep, upto) == NewestOf(xs, keep, upto - 1);
      }
    }
  }

  lemma {:induction false} SamePrefix<T>(xs: seq<T>, more: seq<T>, upto: nat)
    requires upto <= |xs| <= |more| && more[..upto] == xs[..upto]
    ensures NewestOf(more, Any, upto) == NewestOf(xs, Any, upto)
  {
    if upto > 0 {
      assert more[..upto][upto - 1] == xs[..upto][upto - 1];
      assert more[..upto - 1] == more[..upto][..upto - 1] && xs[..upto - 1] == xs[..upto][..upto - 1];
      SamePrefix(xs, more, upto - 1);
    }
  }
}
