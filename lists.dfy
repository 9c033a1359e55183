/** The array operations the inserter borrows from Ruby and ActiveSupport:
    `uniq!`, `in_groups_of(n, false)`, `flatten` and the difference `a - b`. */
module Lists {

  predicate NoDuplicates<T(==)>(s: seq<T>)
  {
    forall i, j :: 0 <= i < j < |s| ==> s[i] != s[j]
  }

  /** Position of the first occurrence of `x` in `s`. */
  function FirstIndex<T(==)>(s: seq<T>, x: T): (k: nat)
    requires x in s
    ensures k < |s| && s[k] == x && x !in s[..k]
  {
    if s[0] == x then 0
    else
      var k' := FirstIndex(s[1..], x);
      assert s[..k' + 1] == [s[0]] + s[1..][..k'];
      1 + k'
  }

  /** Ruby's `uniq`: scan left to right and keep an element only if it was not kept before. */
  function Uniq<T(==,!new)>(s: seq<T>): (r: seq<T>)
    ensures forall x :: x in r <==> x in s
    ensures NoDuplicates(r)
    decreases |s|
  {
    if |s| == 0 then []
    else
      var u := Uniq(s[..|s| - 1]);
      assert s == s[..|s| - 1] + [s[|s| - 1]];
      if s[|s| - 1] in u then u else u + [s[|s| - 1]]
  }

  /** Concatenation of a list of lists. */
  function Flatten<T>(groups: seq<seq<T>>): seq<T>
  {
    if |groups| == 0 then [] else groups[0] + Flatten(groups[1..])
  }

  /** ActiveSupport's `in_groups_of(n, false)`: contiguous chunks of `n`, the last one not padded. */
  function InGroupsOf<T>(s: seq<T>, n: nat): (groups: seq<seq<T>>)
    requires n >= 1
    ensures Flatten(groups) == s
    ensures forall i :: 0 <= i < |groups| ==> 1 <= |groups[i]| <= n
    ensures forall i :: 0 <= i < |groups| - 1 ==> |groups[i]| == n
    decreases |s|
  {
    if |s| == 0 then []
    else if |s| <= n then
      assert [s][1..] == [];
      [s]
    else
      var rest := InGroupsOf(s[n..], n);
      assert ([s[..n]] + rest)[1..] == rest;
      assert s[..n] + s[n..] == s;
      [s[..n]] + rest
  }

  /** The number of groups is the length divided by `n`, rounded up. */
  lemma {:induction false} InGroupsOfCount<T>(s: seq<T>, n: nat)
    requires n >= 1
    ensures (|InGroupsOf(s, n)| - 1) * n < |s| <= |InGroupsOf(s, n)| * n
    decreases |s|
  {
    if |s| > n {
      InGroupsOfCount(s[n..], n);
      CeilingStep(|s|, n, |InGroupsOf(s[n..], n)|, |InGroupsOf(s, n)|);
    }
  }

  lemma CeilingStep(m: int, n: int, g: int, h: int)
    requires h == g + 1 && (g - 1) * n < m - n <= g * n
    ensures (h - 1) * n < m <= h * n
  {
    assert (g - 1) * n + n == g * n;
    assert h * n == g * n + n;
  }

  /** Ruby's `a - b`: the elements of `a`, in order and with repetitions, that do not occur in `b`. */
  function Difference<T(==,!new)>(a: seq<T>, b: seq<T>): (r: seq<T>)
    ensures forall x :: x in r <==> x in a && x !in b
    ensures |r| <= |a|
  {
    if |a| == 0 then []
    else
      assert a == [a[0]] + a[1..];
      (if a[0] in b then [] else [a[0]]) + Difference(a[1..], b)
  }

  lemma {:induction false} FirstIndexIsUnique<T>(s: seq<T>, x: T, k: nat)
    requires k < |s| && s[k] == x && x !in s[..k]
    ensures FirstIndex(s, x) == k
  {
    var f := FirstIndex(s, x);
    assert forall i :: 0 <= i < k ==> s[..k][i] == s[i];
    assert forall i :: 0 <= i < f ==> s[..f][i] == s[i];
  }

  /** Extending a list at the end does not move the first occurrence of an element already present. */
  lemma FirstIndexOfPrefix<T>(p: seq<T>, q: seq<T>, x: T)
    requires x in p
    ensures FirstIndex(p + q, x) == FirstIndex(p, x)
  {
    var k := FirstIndex(p, x);
    assert (p + q)[..k] == p[..k];
    FirstIndexIsUnique(p + q, x, k);
  }

  /** `uniq` keeps the survivors in the order of their first occurrences in the input. */
  lemma {:induction false} UniqKeepsFirstOccurrenceOrder<T(!new)>(s: seq<T>, i: nat, j: nat)
    requires i < j < |Uniq(s)|
    ensures FirstIndex(s, Uniq(s)[i]) < FirstIndex(s, Uniq(s)[j])
    decreases |s|
  {
    var p, x := s[..|s| - 1], s[|s| - 1];
    assert s == p + [x];
    var u := Uniq(p);
    FirstIndexOfPrefix(p, [x], u[i]);
    if j < |u| {
      FirstIndexOfPrefix(p, [x], u[j]);
      UniqKeepsFirstOccurrenceOrder(p, i, j);
    } else {
      assert x !in p && Uniq(s)[j] == x;
      assert s[..|p|] == p;
      FirstIndexIsUnique(s, x, |p|);
    }
  }

  /** `uniq` changes nothing in a list that has no duplicates. */
  lemma {:induction false} UniqOfDistinct<T(!new)>(s: seq<T>)
    requires NoDuplicates(s)
    ensures Uniq(s) == s
    decreases |s|
  {
    if |s| > 0 {
      var p := s[..|s| - 1];
      UniqOfDistinct(p);
      assert s[|s| - 1] !in p;
      assert s == p + [s[|s| - 1]];
    }
  }

  lemma {:induction false} FlattenAppend<T>(groups: seq<seq<T>>, g: seq<T>)
    ensures Flatten(groups + [g]) == Flatten(groups) + g
  {
    if |groups| == 0 {
      assert [g][1..] == [];
    } else {
      assert (groups + [g])[1..] == groups[1..] + [g];
      FlattenAppend(groups[1..], g);
    }
  }

  /** Flattening the first n groups appends the n-th group to the first n - 1. */
  lemma FlattenTake<T>(groups: seq<seq<T>>, n: nat)
    requires 0 < n <= |groups|
    ensures Flatten(groups[..n]) == Flatten(groups[..n - 1]) + groups[n - 1]
  {
    assert groups[..n] == groups[..n - 1] + [groups[n - 1]];
    FlattenAppend(groups[..n - 1], groups[n - 1]);
  }

  lemma {:induction false} FlattenMembership<T>(groups: seq<seq<T>>, x: T)
    ensures x in Flatten(groups) <==> exists g :: g in groups && x in g
  {
    if |groups| > 0 {
      FlattenMembership(groups[1..], x);
      assert groups == [groups[0]] + groups[1..];
    }
  }

  /** The difference works element by element, so it keeps the order of `a`. */
  lemma {:induction false} DifferenceAppend<T(!new)>(a1: seq<T>, a2: seq<T>, b: seq<T>)
    ensures Difference(a1 + a2, b) == Difference(a1, b) + Difference(a2, b)
  {
    if |a1| > 0 {
      var head := if a1[0] in b then [] else [a1[0]];
      assert (a1 + a2)[0] == a1[0];
      assert (a1 + a2)[1..] == a1[1..] + a2;
      calc {
        Difference(a1 + a2, b);
        head + Difference(a1[1..] + a2, b);
        { DifferenceAppend(a1[1..], a2, b); }
        head + (Difference(a1[1..], b) + Difference(a2, b));
        (head + Difference(a1[1..], b)) + Difference(a2, b);
      }
    } else {
      assert a1 + a2 == a2;
    }
  }

  lemma {:induction false} NoDuplicatesSplit<T>(a: seq<T>, b: seq<T>, x: T)
    requires NoDuplicates(a + b)
    ensures NoDuplicates(a) && NoDuplicates(b)
    ensures x in b ==> x !in a
  {
    assert forall i :: 0 <= i < |a| ==> (a + b)[i] == a[i];
    assert forall j :: 0 <= j < |b| ==> (a + b)[|a| + j] == b[j];
    if x in b {
      var j :| 0 <= j < |b| && b[j] == x;
      forall i | 0 <= i < |a|
        ensures a[i] != x
      {
        assert (a + b)[i] != (a + b)[|a| + j];
      }
    }
  }
}
