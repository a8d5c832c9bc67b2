/**
 The table operations the dashboard is built from: a boolean-mask filter
 (`df[mask]`), a group-by that counts the rows of each group
 (`groupby(col).size()`) and the distinct values of a column in order of first
 appearance (`Series.unique()`). Each is given with an independent statement of
 what it computes: membership, multiplicities, order, sums of counts.
 */
module Frames {

  /* ---------------------------------------------------------------------------
     Filtering
     ------------------------------------------------------------------------- */

  /** `df[mask]`: the elements of xs that satisfy p, in their original order. */
  function Where<T>(xs: seq<T>, p: T -> bool): (r: seq<T>)
    ensures |r| <= |xs|
  {
    if xs == [] then []
    else Where(xs[..|xs| - 1], p) + (if p(xs[|xs| - 1]) then [xs[|xs| - 1]] else [])
  }

  /** idx lists, in increasing order, positions of ys that spell out xs. */
  ghost predicate Embedding<T>(xs: seq<T>, ys: seq<T>, idx: seq<nat>)
  {
    && |idx| == |xs|
    && (forall i :: 0 <= i < |idx| ==> idx[i] < |ys| && xs[i] == ys[idx[i]])
    && (forall i, j :: 0 <= i < j < |idx| ==> idx[i] < idx[j])
  }

  /** xs is obtained from ys by deleting elements, without reordering the rest. */
  ghost predicate IsSubsequence<T>(xs: seq<T>, ys: seq<T>)
  {
    exists idx :: Embedding(xs, ys, idx)
  }

  /** An element is kept exactly when it is in the input and satisfies p. */
  lemma {:induction false} WhereMembers<T>(xs: seq<T>, p: T -> bool, x: T)
    ensures x in Where(xs, p) <==> x in xs && p(x)
  {
    if xs != [] {
      var init := xs[..|xs| - 1];
      assert xs == init + [xs[|xs| - 1]];
      WhereMembers(init, p, x);
    }
  }

  /** Every copy of an element that satisfies p is kept, and no other copy. */
  lemma {:induction false} WhereMultiplicity<T>(xs: seq<T>, p: T -> bool, x: T)
    ensures multiset(Where(xs, p))[x] == if p(x) then multiset(xs)[x] else 0
  {
    if xs != [] {
      var init := xs[..|xs| - 1];
      assert xs == init + [xs[|xs| - 1]];
      WhereMultiplicity(init, p, x);
    }
  }

  /** The filter keeps the relative order of the elements it keeps. */
  lemma {:induction false} WhereKeepsOrder<T>(xs: seq<T>, p: T -> bool) returns (idx: seq<nat>)
    ensures Embedding(Where(xs, p), xs, idx)
  {
    if xs == [] {
      idx := [];
    } else {
      var init, last := xs[..|xs| - 1], xs[|xs| - 1];
      var idx' := WhereKeepsOrder(init, p);
      var w := Where(init, p);
      assert forall i :: 0 <= i < |idx'| ==> idx'[i] < |init| && w[i] == xs[idx'[i]];
      if p(last) {
        idx := idx' + [|xs| - 1];
        assert Where(xs, p) == w + [last];
      } else {
        idx := idx';
        assert Where(xs, p) == w;
      }
    }
  }

  /** A filter that every element passes gives back its input. */
  lemma {:induction false} WhereAll<T>(xs: seq<T>, p: T -> bool)
    requires forall x :: x in xs ==> p(x)
    ensures Where(xs, p) == xs
  {
    if xs != [] {
      var init := xs[..|xs| - 1];
      assert xs == init + [xs[|xs| - 1]];
      WhereAll(init, p);
    }
  }

  /** A filter that no element passes gives the empty sequence. */
  lemma WhereNone<T>(xs: seq<T>, p: T -> bool)
    requires forall x :: x in xs ==> !p(x)
    ensures Where(xs, p) == []
  {
    var r := Where(xs, p);
    if r != [] {
      WhereMembers(xs, p, r[0]);
      assert false;
    }
  }

  /* ---------------------------------------------------------------------------
     Counting and grouping
     ------------------------------------------------------------------------- */

  /** The number of elements of xs whose key is k. */
  ghost function Tally<T, K>(xs: seq<T>, key: T -> K, k: K): (n: nat)
    ensures n <= |xs|
    ensures n > 0 <==> exists x :: x in xs && key(x) == k
  {
    if xs == [] then 0
    else
      var init := xs[..|xs| - 1];
      assert xs == init + [xs[|xs| - 1]];
      Tally(init, key, k) + (if key(xs[|xs| - 1]) == k then 1 else 0)
  }

  /**
   `groupby(key).size()`: every key that occurs in xs, mapped to the number of
   elements that carry it. A map fixes no order of the groups.
   */
  function GroupSizes<T, K>(xs: seq<T>, key: T -> K): (m: map<K, nat>)
    ensures forall x :: x in xs ==> key(x) in m
    ensures forall k :: k in m ==> exists x :: x in xs && key(x) == k
    ensures forall k :: k in m ==> m[k] == Tally(xs, key, k)
  {
    if xs == [] then map[]
    else
      var init := xs[..|xs| - 1];
      assert xs == init + [xs[|xs| - 1]];
      Bump(GroupSizes(init, key), key(xs[|xs| - 1]))
  }

  /** One more element under key k. */
  function Bump<K>(m: map<K, nat>, k: K): (bumped: map<K, nat>)
  {
    m[k := if k in m then m[k] + 1 else 1]
  }

  /** The sum of the values of a map, in no particular order of its keys. */
  ghost function Total<K>(m: map<K, nat>): (sum: nat)
    decreases |m|
  {
    if m == map[] then 0
    else
      var k :| k in m;
      assert |m - {k}| < |m| by { assert m.Keys == (m - {k}).Keys + {k}; }
      m[k] + Total(m - {k})
  }

  /** The sum does not depend on which key is taken out first. */
  lemma {:induction false} TotalRemove<K>(m: map<K, nat>, k: K)
    requires k in m
    ensures Total(m) == m[k] + Total(m - {k})
    decreases |m|
  {
    var j :| j in m && Total(m) == m[j] + Total(m - {j});
    if j != k {
      assert m.Keys == (m - {j}).Keys + {j};
      assert m.Keys == (m - {k}).Keys + {k};
      TotalRemove(m - {j}, k);
      TotalRemove(m - {k}, j);
      assert m - {j} - {k} == m - {k} - {j};
    }
  }

  /** Setting the count of a key changes the sum by the difference. */
  lemma TotalUpdate<K>(m: map<K, nat>, k: K, v: nat)
    ensures Total(m[k := v]) == Total(m - {k}) + v
  {
    TotalRemove(m[k := v], k);
    assert m[k := v] - {k} == m - {k};
  }

  /** Counting one more element under a key adds one to the sum. */
  lemma TotalBump<K>(m: map<K, nat>, k: K)
    ensures Total(Bump(m, k)) == Total(m) + 1
  {
    if k in m {
      TotalRemove(m, k);
      TotalUpdate(m, k, m[k] + 1);
    } else {
      assert m - {k} == m;
      TotalUpdate(m, k, 1);
    }
  }

  /** The group sizes add up to the number of elements grouped. */
  lemma {:induction false} GroupSizesTotal<T, K>(xs: seq<T>, key: T -> K)
    ensures Total(GroupSizes(xs, key)) == |xs|
  {
    if xs != [] {
      var init := xs[..|xs| - 1];
      GroupSizesTotal(init, key);
      TotalBump(GroupSizes(init, key), key(xs[|xs| - 1]));
    }
  }

  /* ---------------------------------------------------------------------------
     Distinct values
     ------------------------------------------------------------------------- */

  /** The position of the first occurrence of x in xs. */
  function FirstIndex<T(==)>(xs: seq<T>, x: T): (i: nat)
    requires x in xs
    ensures i < |xs| && xs[i] == x && x !in xs[..i]
  {
    if xs[0] == x then 0 else 1 + FirstIndex(xs[1..], x)
  }

  /** A sequence in which no value occurs twice. */
  ghost predicate Distinct<T>(u: seq<T>)
  {
    forall i, j :: 0 <= i < j < |u| ==> u[i] != u[j]
  }

  /** `Series.unique()`: each value of xs once, in order of first appearance. */
  function Unique<T(==)>(xs: seq<T>): (u: seq<T>)
    ensures forall x :: x in u ==> x in xs
    ensures forall x :: x in xs ==> x in u
    ensures Distinct(u)
  {
    if xs == [] then []
    else
      var init := xs[..|xs| - 1];
      assert xs == init + [xs[|xs| - 1]];
      var u := Unique(init);
      if xs[|xs| - 1] in u then u else u + [xs[|xs| - 1]]
  }

  /** Appending a value leaves the first occurrences of earlier values where they were. */
  lemma {:induction false} FirstIndexAppend<T>(xs: seq<T>, z: T, y: T)
    requires y in xs
    ensures FirstIndex(xs + [z], y) == FirstIndex(xs, y)
  {
    if xs[0] != y {
      assert (xs + [z])[1..] == xs[1..] + [z];
      FirstIndexAppend(xs[1..], z, y);
    }
  }

  /** A value that is new to xs first occurs where it is appended. */
  lemma {:induction false} FirstIndexNew<T>(xs: seq<T>, z: T)
    requires z !in xs
    ensures FirstIndex(xs + [z], z) == |xs|
  {
    if xs != [] {
      assert (xs + [z])[1..] == xs[1..] + [z];
      FirstIndexNew(xs[1..], z);
    }
  }

  /** The distinct values come out in the order in which each first occurs in xs. */
  lemma {:induction false} UniqueFirstAppearance<T>(xs: seq<T>, i: nat, j: nat)
    requires i < j < |Unique(xs)|
    ensures FirstIndex(xs, Unique(xs)[i]) < FirstIndex(xs, Unique(xs)[j])
  {
    var init, z := xs[..|xs| - 1], xs[|xs| - 1];
    assert xs == init + [z];
    var u, u' := Unique(xs), Unique(init);
    if j < |u'| {
      assert u[i] == u'[i] && u[j] == u'[j];
      UniqueFirstAppearance(init, i, j);
      FirstIndexAppend(init, z, u[i]);
      FirstIndexAppend(init, z, u[j]);
    } else {
      assert u[j] == z && z !in init;
      assert u[i] == u'[i] && u[i] in init;
      FirstIndexAppend(init, z, u[i]);
      FirstIndexNew(init, z);
    }
  }

  /** A sequence without repeats has as many elements as the set of its values. */
  lemma {:induction false} DistinctSize<T>(u: seq<T>)
    requires Distinct(u)
    ensures |set x | x in u| == |u|
  {
    if u != [] {
      var init, z := u[..|u| - 1], u[|u| - 1];
      assert u == init + [z];
      DistinctSize(init);
      assert forall k :: 0 <= k < |init| ==> init[k] == u[k] != z;
      assert (set x | x in u) == (set x | x in init) + {z};
    }
  }

  /** There are exactly as many distinct values as values in the set of xs. */
  lemma UniqueSize<T>(xs: seq<T>)
    ensures |Unique(xs)| == |set x | x in xs|
  {
    var u := Unique(xs);
    DistinctSize(u);
    assert (set x | x in u) == (set x | x in xs);
  }
}
