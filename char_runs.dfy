/** Python's `re.sub(pattern, repl, s, count)` for the one shape of pattern
    the publisher uses: `[...]+`, a run of characters from one class,
    replaced by a single character. The leftmost match is a maximal run
    (the `+` is greedy), scanning resumes after it, and `count == 0` means
    "replace every run", as in Python. */
module CharRuns {

  /** The two character classes of publish.py: `[-_.]` of PEP 503 name
      normalisation, and `[^\w\d.]` of wheel file-name escaping. */
  datatype CharClass = Separators | NonWheelChars

  predicate IsAsciiLetter(c: char) {
    ('a' <= c <= 'z') || ('A' <= c <= 'Z')
  }

  predicate IsDigit(c: char) {
    '0' <= c <= '9'
  }

  /** `\w`: letters, digits and the underscore (ASCII only, see README). */
  predicate IsWordChar(c: char) {
    IsAsciiLetter(c) || IsDigit(c) || c == '_'
  }

  predicate InClass(k: CharClass, c: char) {
    match k
    case Separators => c == '-' || c == '_' || c == '.'
    case NonWheelChars => !IsWordChar(c) && c != '.'
  }

  /** The string after the run of class characters at its start. */
  function SkipRun(k: CharClass, s: string): (r: string)
    ensures |r| <= |s|
    ensures r == [] || !InClass(k, r[0])
    ensures s != [] && InClass(k, s[0]) ==> |r| < |s|
    ensures s != [] && !InClass(k, s[0]) ==> r == s
  {
    if s != [] && InClass(k, s[0]) then SkipRun(k, s[1..]) else s
  }

  /** The run skipped is a prefix of class characters, and what is left
      is the rest of the string. */
  lemma {:induction false} SkipRunSuffix(k: CharClass, s: string)
    ensures SkipRun(k, s) == s[|s| - |SkipRun(k, s)|..]
    ensures forall i :: 0 <= i < |s| - |SkipRun(k, s)| ==> InClass(k, s[i])
    decreases |s|
  {
    if s != [] && InClass(k, s[0]) {
      SkipRunSuffix(k, s[1..]);
      forall i | 0 < i < |s| - |SkipRun(k, s)|
        ensures InClass(k, s[i])
      {
        assert s[i] == s[1..][i - 1];
      }
    }
  }

  /** Number of maximal runs of class characters in `s`. */
  function Runs(k: CharClass, s: string): nat
    decreases |s|
  {
    if s == [] then 0
    else if InClass(k, s[0]) then 1 + Runs(k, SkipRun(k, s))
    else Runs(k, s[1..])
  }

  /** Number of class characters in `s`. */
  function ClassCount(k: CharClass, s: string): nat {
    if s == [] then 0
    else (if InClass(k, s[0]) then 1 else 0) + ClassCount(k, s[1..])
  }

  /** `s` without its class characters and without `repl`: the part of a
      string that a substitution must leave alone. */
  function Kept(k: CharClass, repl: char, s: string): string {
    if s == [] then []
    else (if InClass(k, s[0]) || s[0] == repl then [] else [s[0]]) + Kept(k, repl, s[1..])
  }

  lemma {:induction false} KeptSkipRun(k: CharClass, repl: char, s: string)
    ensures Kept(k, repl, SkipRun(k, s)) == Kept(k, repl, s)
    decreases |s|
  {
    if s != [] && InClass(k, s[0]) {
      KeptSkipRun(k, repl, s[1..]);
    }
  }

  /** `re.sub(k + '+', repl, s)`: every maximal run becomes one `repl`. */
  function SubAll(k: CharClass, repl: char, s: string): (r: string)
    ensures |r| <= |s| && (r == [] <==> s == [])
    ensures s != [] && !InClass(k, s[0]) ==> r[0] == s[0]
    ensures s != [] && InClass(k, s[0]) ==> r[0] == repl
    decreases |s|
  {
    if s == [] then []
    else if InClass(k, s[0]) then
      [repl] + SubAll(k, repl, SkipRun(k, s))
    else
      [s[0]] + SubAll(k, repl, s[1..])
  }

  /** The form a substituted string has: every class character is `repl`
      and no two class characters are adjacent. */
  predicate Collapsed(k: CharClass, repl: char, r: string) {
    && (forall i :: 0 <= i < |r| && InClass(k, r[i]) ==> r[i] == repl)
    && (forall i :: 0 < i < |r| && InClass(k, r[i - 1]) ==> !InClass(k, r[i]))
  }

  /** Every substituted string has that form. */
  lemma {:induction false} SubAllShape(k: CharClass, repl: char, s: string)
    ensures Collapsed(k, repl, SubAll(k, repl, s))
    decreases |s|
  {
    if s != [] {
      var r := SubAll(k, repl, s);
      var rest := if InClass(k, s[0]) then SkipRun(k, s) else s[1..];
      var t := SubAll(k, repl, rest);
      SubAllShape(k, repl, rest);
      assert r == [r[0]] + t;
      assert InClass(k, r[0]) ==> r[0] == repl;
      assert InClass(k, r[0]) && t != [] ==> !InClass(k, t[0]) by {
        if InClass(k, r[0]) && t != [] {
          assert InClass(k, s[0]);
          assert rest != [] && !InClass(k, rest[0]);
          assert t[0] == rest[0];
        }
      }
      forall i | 0 <= i < |r| && InClass(k, r[i])
        ensures r[i] == repl
      {
        if i > 0 {
          assert r[i] == t[i - 1];
        }
      }
      forall i | 0 < i < |r| && InClass(k, r[i - 1])
        ensures !InClass(k, r[i])
      {
        assert r[i] == t[i - 1];
        if i > 1 {
          assert r[i - 1] == t[i - 2];
        }
      }
    }
  }

  /** Substitution touches only the runs: the other characters survive, in order. */
  lemma {:induction false} SubAllKeeps(k: CharClass, repl: char, s: string)
    ensures Kept(k, repl, SubAll(k, repl, s)) == Kept(k, repl, s)
    decreases |s|
  {
    if s != [] {
      var r := SubAll(k, repl, s);
      if InClass(k, s[0]) {
        KeptSkipRun(k, repl, s);
        SubAllKeeps(k, repl, SkipRun(k, s));
        assert r[1..] == SubAll(k, repl, SkipRun(k, s));
      } else {
        SubAllKeeps(k, repl, s[1..]);
        assert r[1..] == SubAll(k, repl, s[1..]);
      }
    }
  }

  /** `re.sub(k + '+', repl, s, n)` with `n > 0`: only the first `n` runs
      are replaced, the rest of the string is copied. */
  function SubFirst(k: CharClass, repl: char, s: string, n: nat): (r: string)
    ensures Kept(k, repl, r) == Kept(k, repl, s)
    decreases |s|
  {
    if n == 0 || s == [] then s
    else if InClass(k, s[0]) then
      KeptSkipRun(k, repl, s);
      [repl] + SubFirst(k, repl, SkipRun(k, s), n - 1)
    else
      [s[0]] + SubFirst(k, repl, s[1..], n)
  }

  /** Python's `re.sub` with its `count` argument: 0 means no limit, and
      a count at least the number of runs is no limit either; a smaller
      positive count leaves a class character behind. */
  function Sub(k: CharClass, repl: char, s: string, count: nat): (r: string)
    ensures count == 0 || Runs(k, s) <= count ==> r == SubAll(k, repl, s)
    ensures count > 0 && Runs(k, s) > count ==> exists i :: 0 <= i < |r| && InClass(k, r[i])
  {
    if count == 0 then SubAll(k, repl, s)
    else if Runs(k, s) <= count then
      SubFirstEnough(k, repl, s, count);
      SubFirst(k, repl, s, count)
    else
      SubFirstShort(k, repl, s, count);
      SubFirst(k, repl, s, count)
  }

  /** `re.sub` with a positive count replaces exactly the first `count`
      runs: cut after the run that makes `count`, the part before is fully
      substituted and the rest is copied unchanged. */
  lemma SubCountCut(k: CharClass, repl: char, a: string, b: string, count: nat)
    requires count > 0 && Runs(k, a) == count && RunBoundary(k, a, b)
    ensures Sub(k, repl, a + b, count) == SubAll(k, repl, a) + b
  {
    SubFirstAppend(k, repl, a, b, count);
  }

  /** A string whose class characters are single `repl`s is left as it is. */
  lemma {:induction false} SubAllFixpoint(k: CharClass, repl: char, s: string)
    requires Collapsed(k, repl, s)
    ensures SubAll(k, repl, s) == s
    decreases |s|
  {
    if s != [] {
      assert forall i :: 0 <= i < |s[1..]| ==> s[1..][i] == s[i + 1];
      SubAllFixpoint(k, repl, s[1..]);
      if InClass(k, s[0]) {
        assert SkipRun(k, s) == s[1..];
      }
      assert s == [s[0]] + s[1..];
    }
  }

  /** With enough budget, the limited substitution is the unlimited one. */
  lemma {:induction false} SubFirstEnough(k: CharClass, repl: char, s: string, n: nat)
    requires n > 0 && Runs(k, s) <= n
    ensures SubFirst(k, repl, s, n) == SubAll(k, repl, s)
    decreases |s|
  {
    if s != [] {
      if InClass(k, s[0]) {
        var rest := SkipRun(k, s);
        assert Runs(k, rest) <= n - 1;
        assert SubFirst(k, repl, s, n) == [repl] + SubFirst(k, repl, rest, n - 1);
        assert SubAll(k, repl, s) == [repl] + SubAll(k, repl, rest);
        if n == 1 {
          NoRunsUnchanged(k, repl, rest);
        } else {
          SubFirstEnough(k, repl, rest, n - 1);
        }
      } else {
        assert SubFirst(k, repl, s, n) == [s[0]] + SubFirst(k, repl, s[1..], n);
        assert SubAll(k, repl, s) == [s[0]] + SubAll(k, repl, s[1..]);
        SubFirstEnough(k, repl, s[1..], n);
      }
    }
  }

  lemma {:induction false} NoRunsUnchanged(k: CharClass, repl: char, s: string)
    requires Runs(k, s) == 0
    ensures SubAll(k, repl, s) == s
    ensures forall i :: 0 <= i < |s| ==> !InClass(k, s[i])
    decreases |s|
  {
    if s != [] {
      NoRunsUnchanged(k, repl, s[1..]);
      assert s == [s[0]] + s[1..];
    }
  }

  /** With too little budget, a run of class characters survives. */
  lemma {:induction false} SubFirstShort(k: CharClass, repl: char, s: string, n: nat)
    requires Runs(k, s) > n
    ensures exists i :: 0 <= i < |SubFirst(k, repl, s, n)| && InClass(k, SubFirst(k, repl, s, n)[i])
    decreases |s|
  {
    var r := SubFirst(k, repl, s, n);
    if n == 0 {
      SomeRunHasClassChar(k, s);
    } else if InClass(k, s[0]) {
      var rest := SkipRun(k, s);
      SubFirstShort(k, repl, rest, n - 1);
      var i :| 0 <= i < |SubFirst(k, repl, rest, n - 1)| && InClass(k, SubFirst(k, repl, rest, n - 1)[i]);
      assert r[i + 1] == SubFirst(k, repl, rest, n - 1)[i];
    } else {
      SubFirstShort(k, repl, s[1..], n);
      var i :| 0 <= i < |SubFirst(k, repl, s[1..], n)| && InClass(k, SubFirst(k, repl, s[1..], n)[i]);
      assert r[i + 1] == SubFirst(k, repl, s[1..], n)[i];
    }
  }

  lemma {:induction false} SomeRunHasClassChar(k: CharClass, s: string)
    requires Runs(k, s) > 0
    ensures exists i :: 0 <= i < |s| && InClass(k, s[i])
    decreases |s|
  {
    if !InClass(k, s[0]) {
      SomeRunHasClassChar(k, s[1..]);
      var i :| 0 <= i < |s[1..]| && InClass(k, s[1..][i]);
      assert s[i + 1] == s[1..][i];
    }
  }

  /** When `repl` is itself a class character, the substituted string has
      exactly one class character per maximal run of the input. */
  lemma {:induction false} SubAllOnePerRun(k: CharClass, repl: char, s: string)
    requires InClass(k, repl)
    ensures ClassCount(k, SubAll(k, repl, s)) == Runs(k, s)
    decreases |s|
  {
    if s != [] {
      if InClass(k, s[0]) {
        SubAllOnePerRun(k, repl, SkipRun(k, s));
        assert ([repl] + SubAll(k, repl, SkipRun(k, s)))[1..] == SubAll(k, repl, SkipRun(k, s));
      } else {
        SubAllOnePerRun(k, repl, s[1..]);
        assert ([s[0]] + SubAll(k, repl, s[1..]))[1..] == SubAll(k, repl, s[1..]);
      }
    }
  }

  /** Whether `a + b` may be cut between `a` and `b` without splitting a
      run: one of them is empty, or the characters on either side of the
      cut are not both class characters. */
  predicate RunBoundary(k: CharClass, a: string, b: string) {
    a == [] || b == [] || !InClass(k, a[|a| - 1]) || !InClass(k, b[0])
  }

  lemma {:induction false} SkipRunAppend(k: CharClass, a: string, b: string)
    requires a != [] && RunBoundary(k, a, b)
    ensures SkipRun(k, a + b) == SkipRun(k, a) + b
    decreases |a|
  {
    var ab := a + b;
    assert ab[0] == a[0];
    if InClass(k, a[0]) {
      assert ab[1..] == a[1..] + b;
      assert SkipRun(k, ab) == SkipRun(k, ab[1..]);
      assert SkipRun(k, a) == SkipRun(k, a[1..]);
      if |a| == 1 {
        assert a[1..] == [] && ab[1..] == b;
        assert b == [] || !InClass(k, b[0]);
      } else {
        assert a[1..][|a[1..]| - 1] == a[|a| - 1];
        SkipRunAppend(k, a[1..], b);
      }
    }
  }

  /** Substitution works run by run: cut between two runs, or beside a
      character outside the class, the parts are substituted on their own. */
  lemma {:induction false} SubAllAppend(k: CharClass, repl: char, a: string, b: string)
    requires RunBoundary(k, a, b)
    ensures SubAll(k, repl, a + b) == SubAll(k, repl, a) + SubAll(k, repl, b)
    decreases |a|, 1
  {
    if a == [] {
      assert a + b == b;
    } else if b == [] {
      assert a + b == a;
    } else if InClass(k, a[0]) {
      SubAllAppendRun(k, repl, a, b);
    } else {
      SubAllAppendOther(k, repl, a, b);
    }
  }

  lemma {:induction false} SubAllAppendRun(k: CharClass, repl: char, a: string, b: string)
    requires a != [] && b != [] && InClass(k, a[0]) && RunBoundary(k, a, b)
    ensures SubAll(k, repl, a + b) == SubAll(k, repl, a) + SubAll(k, repl, b)
    decreases |a|, 0
  {
    var rest := SkipRun(k, a);
    assert RunBoundary(k, rest, b) by {
      SkipRunSuffix(k, a);
      assert rest != [] ==> rest[|rest| - 1] == a[|a| - 1];
    }
    SubAllAppend(k, repl, rest, b);
    var x, y := SubAll(k, repl, rest), SubAll(k, repl, b);
    assert SubAll(k, repl, a + b) == [repl] + (x + y) by {
      SkipRunAppend(k, a, b);
      assert (a + b)[0] == a[0];
    }
    assert SubAll(k, repl, a) == [repl] + x;
    ConsAppend([repl], SubAll(k, repl, a + b), SubAll(k, repl, a), x, y);
  }

  lemma {:induction false} SubAllAppendOther(k: CharClass, repl: char, a: string, b: string)
    requires a != [] && b != [] && !InClass(k, a[0]) && RunBoundary(k, a, b)
    ensures SubAll(k, repl, a + b) == SubAll(k, repl, a) + SubAll(k, repl, b)
    decreases |a|, 0
  {
    var tail := a[1..];
    assert RunBoundary(k, tail, b) by {
      assert tail != [] ==> tail[|tail| - 1] == a[|a| - 1];
    }
    SubAllAppend(k, repl, tail, b);
    var x, y := SubAll(k, repl, tail), SubAll(k, repl, b);
    assert SubAll(k, repl, a + b) == [a[0]] + (x + y) by {
      assert (a + b)[0] == a[0];
      assert (a + b)[1..] == tail + b;
    }
    assert SubAll(k, repl, a) == [a[0]] + x;
    ConsAppend([a[0]], SubAll(k, repl, a + b), SubAll(k, repl, a), x, y);
  }

  lemma ConsAppend(h: string, ab: string, a: string, x: string, y: string)
    requires ab == h + (x + y) && a == h + x
    ensures ab == a + y
  {
    assert h + (x + y) == (h + x) + y;
  }

  /** With a positive count, exactly the first `n` runs are replaced: when
      `a` holds `n` runs and ends where a run ends, the limited substitution
      of `a + b` substitutes all of `a` and copies `b` unchanged. */
  lemma {:induction false} SubFirstAppend(k: CharClass, repl: char, a: string, b: string, n: nat)
    requires n > 0 && Runs(k, a) == n && RunBoundary(k, a, b)
    ensures SubFirst(k, repl, a + b, n) == SubAll(k, repl, a) + b
    decreases |a|, 1
  {
    assert a != [];
    if b == [] {
      assert a + b == a;
      SubFirstEnough(k, repl, a, n);
    } else if InClass(k, a[0]) {
      SubFirstAppendRun(k, repl, a, b, n);
    } else {
      SubFirstAppendOther(k, repl, a, b, n);
    }
  }

  lemma {:induction false} SubFirstAppendRun(k: CharClass, repl: char, a: string, b: string, n: nat)
    requires n > 0 && Runs(k, a) == n && RunBoundary(k, a, b)
    requires a != [] && b != [] && InClass(k, a[0])
    ensures SubFirst(k, repl, a + b, n) == SubAll(k, repl, a) + b
    decreases |a|, 0
  {
    var rest := SkipRun(k, a);
    assert Runs(k, rest) == n - 1;
    assert RunBoundary(k, rest, b) by {
      SkipRunSuffix(k, a);
      assert rest != [] ==> rest[|rest| - 1] == a[|a| - 1];
    }
    var x := SubAll(k, repl, rest);
    assert SubFirst(k, repl, a + b, n) == [repl] + SubFirst(k, repl, rest + b, n - 1) by {
      SkipRunAppend(k, a, b);
      assert (a + b)[0] == a[0];
    }
    if n == 1 {
      NoRunsUnchanged(k, repl, rest);
    } else {
      SubFirstAppend(k, repl, rest, b, n - 1);
    }
    assert SubAll(k, repl, a) == [repl] + x;
    ConsAppend([repl], SubFirst(k, repl, a + b, n), SubAll(k, repl, a), x, b);
  }

  lemma {:induction false} SubFirstAppendOther(k: CharClass, repl: char, a: string, b: string, n: nat)
    requires n > 0 && Runs(k, a) == n && RunBoundary(k, a, b)
    requires a != [] && b != [] && !InClass(k, a[0])
    ensures SubFirst(k, repl, a + b, n) == SubAll(k, repl, a) + b
    decreases |a|, 0
  {
    var tail := a[1..];
    assert RunBoundary(k, tail, b) by {
      assert tail != [] ==> tail[|tail| - 1] == a[|a| - 1];
    }
    var x := SubAll(k, repl, tail);
    assert SubFirst(k, repl, a + b, n) == [a[0]] + SubFirst(k, repl, tail + b, n) by {
      assert (a + b)[0] == a[0];
      assert (a + b)[1..] == tail + b;
    }
    SubFirstAppend(k, repl, tail, b, n);
    assert SubAll(k, repl, a) == [a[0]] + x;
    ConsAppend([a[0]], SubFirst(k, repl, a + b, n), SubAll(k, repl, a), x, b);
  }

  /** A whole maximal run becomes one `repl` ... */
  lemma SubAllRun(k: CharClass, repl: char, run: string)
    requires run != [] && forall i :: 0 <= i < |run| ==> InClass(k, run[i])
    ensures SubAll(k, repl, run) == [repl]
    ensures Runs(k, run) == 1
  {
    SkipRunSuffix(k, run);
    assert SkipRun(k, run) == [];
  }

  /** ... and a character outside the class stays where it is. */
  lemma SubAllOther(k: CharClass, repl: char, c: char)
    requires !InClass(k, c)
    ensures SubAll(k, repl, [c]) == [c]
    ensures Runs(k, [c]) == 0
  {
    assert [c][1..] == [];
  }

  /** Cut at a run boundary, the runs of the parts add up. */
  lemma {:induction false} RunsAppend(k: CharClass, a: string, b: string)
    requires RunBoundary(k, a, b)
    ensures Runs(k, a + b) == Runs(k, a) + Runs(k, b)
    decreases |a|
  {
    if a == [] {
      assert a + b == b;
    } else if b == [] {
      assert a + b == a;
    } else {
      var ab := a + b;
      assert ab[0] == a[0];
      if InClass(k, a[0]) {
        var rest := SkipRun(k, a);
        SkipRunAppend(k, a, b);
        SkipRunSuffix(k, a);
        assert Runs(k, ab) == 1 + Runs(k, rest + b);
        assert rest != [] ==> rest[|rest| - 1] == a[|a| - 1];
        RunsAppend(k, rest, b);
      } else {
        assert ab[1..] == a[1..] + b;
        assert Runs(k, ab) == Runs(k, a[1..] + b);
        assert a[1..] != [] ==> a[1..][|a[1..]| - 1] == a[|a| - 1];
        RunsAppend(k, a[1..], b);
      }
    }
  }
}
