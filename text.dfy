/** String and sequence vocabulary shared by the other modules: prefixes,
    Python's slicing past the end, Python's ordering of `str` values and
    the built-in `sorted()` over a list of strings. */
module Text {

  /** `s.startswith(p)`. */
  predicate IsPrefix(p: string, s: string) {
    |p| <= |s| && s[..|p|] == p
  }

  /** `s.endswith(x)`. */
  predicate EndsWith(s: string, x: string) {
    |x| <= |s| && s[|s| - |x|..] == x
  }

  /** Python's `s[n:]`: a slice that starts past the end is empty. */
  function DropPrefix(s: string, n: nat): (r: string)
    ensures n <= |s| ==> s == s[..n] + r
    ensures n >= |s| ==> r == ""
  {
    if n <= |s| then s[n..] else ""
  }

  lemma DropPrefixOf(p: string, s: string)
    requires IsPrefix(p, s)
    ensures p + DropPrefix(s, |p|) == s
  {
  }

  /** No element appears twice. */
  predicate Distinct<T(==)>(xs: seq<T>) {
    forall i, j :: 0 <= i < j < |xs| ==> xs[i] != xs[j]
  }

  /** `xs` is `ys` with some elements left out and the rest in order. */
  predicate IsSubsequence<T(==)>(xs: seq<T>, ys: seq<T>)
    decreases |ys|
  {
    if xs == [] then true
    else if ys == [] then false
    else if xs[0] == ys[0] then IsSubsequence(xs[1..], ys[1..])
    else IsSubsequence(xs, ys[1..])
  }

  /** Python's `a <= b` on `str`: code point by code point, a proper
      prefix before the longer string. */
  predicate LessEq(a: string, b: string)
    decreases |a|
  {
    a == [] || (b != [] && (a[0] < b[0] || (a[0] == b[0] && LessEq(a[1..], b[1..]))))
  }

  lemma {:induction false} LessEqTotal(a: string, b: string)
    ensures LessEq(a, b) || LessEq(b, a)
    decreases |a|
  {
    if a != [] && b != [] && a[0] == b[0] {
      LessEqTotal(a[1..], b[1..]);
    }
  }

  lemma {:induction false} LessEqAntisymmetric(a: string, b: string)
    requires LessEq(a, b) && LessEq(b, a)
    ensures a == b
    decreases |a|
  {
    if a != [] && b != [] {
      LessEqAntisymmetric(a[1..], b[1..]);
      assert a == [a[0]] + a[1..] && b == [b[0]] + b[1..];
    }
  }

  lemma {:induction false} LessEqTransitive(a: string, b: string, c: string)
    requires LessEq(a, b) && LessEq(b, c)
    ensures LessEq(a, c)
    decreases |a|
  {
    if a != [] && b != [] && c != [] && a[0] == b[0] == c[0] {
      LessEqTransitive(a[1..], b[1..], c[1..]);
    }
  }

  /** Neighbours are in order. */
  predicate Sorted(xs: seq<string>) {
    forall i :: 0 < i < |xs| ==> LessEq(xs[i - 1], xs[i])
  }

  /** Every pair is in order, not only neighbours. */
  lemma {:induction false} SortedAllPairs(xs: seq<string>, i: nat, j: nat)
    requires Sorted(xs) && i <= j < |xs|
    ensures LessEq(xs[i], xs[j])
    decreases j - i
  {
    if i == j {
      LessEqReflexive(xs[i]);
    } else {
      SortedAllPairs(xs, i, j - 1);
      LessEqTransitive(xs[i], xs[j - 1], xs[j]);
    }
  }

  lemma {:induction false} LessEqReflexive(a: string)
    ensures LessEq(a, a)
    decreases |a|
  {
    if a != [] {
      LessEqReflexive(a[1..]);
    }
  }

  /** One step of insertion sort: `x` placed into the sorted list `xs`. */
  function Insert(x: string, xs: seq<string>): (r: seq<string>)
    requires Sorted(xs)
    ensures Sorted(r)
    ensures multiset(r) == multiset(xs) + multiset{x}
    ensures |r| == |xs| + 1
    ensures r[0] == x || (xs != [] && r[0] == xs[0])
  {
    if xs == [] then [x]
    else if LessEq(x, xs[0]) then [x] + xs
    else
      LessEqTotal(x, xs[0]);
      var rest := Insert(x, xs[1..]);
      assert xs == [xs[0]] + xs[1..];
      [xs[0]] + rest
  }

  /** Python's `sorted(xs)` on a list of strings: an ordered permutation. */
  function Sort(xs: seq<string>): (r: seq<string>)
    ensures Sorted(r)
    ensures multiset(r) == multiset(xs)
  {
    if xs == [] then []
    else
      assert xs == [xs[0]] + xs[1..];
      Insert(xs[0], Sort(xs[1..]))
  }

  /** Two ordered permutations of the same list are the same list, so
      `Sort` is the one answer `sorted()` can give. */
  lemma {:induction false} SortedUnique(xs: seq<string>, ys: seq<string>)
    requires Sorted(xs) && Sorted(ys) && multiset(xs) == multiset(ys)
    ensures xs == ys
    decreases |xs|
  {
    assert |ys| == |xs| by { assert |multiset(xs)| == |multiset(ys)|; }
    if xs != [] {
      var x, y := xs[0], ys[0];
      assert x == y by {
        assert x in multiset(ys) && y in multiset(xs);
        var i :| 0 <= i < |ys| && ys[i] == x;
        var j :| 0 <= j < |xs| && xs[j] == y;
        SortedAllPairs(ys, 0, i);
        SortedAllPairs(xs, 0, j);
        LessEqAntisymmetric(x, y);
      }
      assert multiset(xs[1..]) == multiset(ys[1..]) by {
        MultisetOfTail(xs);
        MultisetOfTail(ys);
      }
      SortedTail(xs);
      SortedTail(ys);
      SortedUnique(xs[1..], ys[1..]);
      assert xs == [x] + xs[1..] && ys == [y] + ys[1..];
    }
  }

  lemma SortedTail(xs: seq<string>)
    requires xs != [] && Sorted(xs)
    ensures Sorted(xs[1..])
  {
    forall i | 0 < i < |xs[1..]|
      ensures LessEq(xs[1..][i - 1], xs[1..][i])
    {
      assert xs[1..][i - 1] == xs[i] && xs[1..][i] == xs[i + 1];
    }
  }

  lemma MultisetOfTail(xs: seq<string>)
    requires xs != []
    ensures multiset(xs[1..]) == multiset(xs) - multiset{xs[0]}
  {
    assert xs == [xs[0]] + xs[1..];
  }

  /** Lists the elements of a finite set, each once, in an order the
      caller cannot rely on (a service listing, a Python `set`). */
  method Enumerate<T>(s: set<T>) returns (xs: seq<T>)
    ensures forall x :: x in xs <==> x in s
    ensures Distinct(xs)
    ensures |xs| == |s|
  {
    xs := [];
    var rest := s;
    while rest != {}
      invariant rest <= s
      invariant forall x :: x in xs <==> x in s && x !in rest
      invariant Distinct(xs)
      invariant |xs| + |rest| == |s|
      decreases |rest|
    {
      var x :| x in rest;
      xs := xs + [x];
      rest := rest - {x};
    }
  }
}
