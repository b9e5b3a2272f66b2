/** pypiprivate/publish.py: which built artifacts belong to a package
    version, the storage key of each, and the publish loop that uploads the
    missing ones and rebuilds the two index pages. The storage is the S3
    backend of module Storage, whose bucket is a map of keys. */
module Publish {
  import opened Wrappers
  import opened Text
  import opened CharRuns
  import opened Storage

  const IndexHtml: string := "index.html"

  /** The value of the flag `re.UNICODE`. It is passed where `re.sub`
      expects its `count`, so at most this many runs are escaped. */
  const ReUnicode: nat := 32

  /** The exception `publish_package` raises when the distribution
      directory holds no artifact of the version. */
  datatype PublishError = DistNotFound(distDir: string)

  /** One record of `find_pkg_dists`. */
  datatype Dist = Dist(pkg: string, normalizedName: string, artifact: string, path: string)

  /** The `index_type` of `build_index`. */
  datatype IndexKind = RootIndex | PkgIndex

  /** A rendered index page, kept as the values it is rendered from. */
  datatype Page = IndexPage(title: string, items: seq<string>, kind: IndexKind)

  // ---------------------------------------------------------------------
  // Names

  /** `str.lower()` on one character (ASCII letters only, see README). */
  function LowerChar(c: char): (r: char)
    ensures ('A' <= c <= 'Z') ==> 'a' <= r <= 'z' && r as int == c as int + ('a' as int - 'A' as int)
    ensures !('A' <= c <= 'Z') ==> r == c
  {
    if 'A' <= c <= 'Z' then (c as int + 32) as char else c
  }

  function Lower(s: string): (r: string)
    ensures |r| == |s|
    ensures forall i :: 0 <= i < |s| ==> r[i] == LowerChar(s[i])
  {
    if s == [] then [] else [LowerChar(s[0])] + Lower(s[1..])
  }

  /** `normalized_name`: the name of PEP 503, in which every run of `-`,
      `_` and `.` is one `-` and letters are lower case. */
  function NormalizedName(name: string): (r: string)
    ensures |r| <= |name| && (r == "" <==> name == "")
    ensures forall i :: 0 <= i < |r| ==> r[i] != '_' && r[i] != '.' && !('A' <= r[i] <= 'Z')
    ensures forall i :: 0 < i < |r| ==> !(r[i - 1] == '-' && r[i] == '-')
  {
    var collapsed := SubAll(Separators, '-', name);
    SubAllShape(Separators, '-', name);
    assert forall i :: 0 <= i < |collapsed| ==> (InClass(Separators, collapsed[i]) <==> InClass(Separators, LowerChar(collapsed[i])));
    Lower(collapsed)
  }

  /** Normalising a normalised name changes nothing. */
  lemma NormalizedNameIdempotent(name: string)
    ensures NormalizedName(NormalizedName(name)) == NormalizedName(name)
  {
    NormalizedFixed(NormalizedName(name));
  }

  /** A lower-case name whose only separators are single `-`s is its own
      normalised form. */
  lemma NormalizedFixed(n: string)
    requires forall i :: 0 <= i < |n| ==> n[i] != '_' && n[i] != '.' && !('A' <= n[i] <= 'Z')
    requires forall i :: 0 < i < |n| ==> !(n[i - 1] == '-' && n[i] == '-')
    ensures NormalizedName(n) == n
  {
    assert Collapsed(Separators, '-', n);
    SubAllFixpoint(Separators, '-', n);
    LowerUnchanged(n);
  }

  lemma {:induction false} LowerUnchanged(s: string)
    requires forall i :: 0 <= i < |s| ==> !('A' <= s[i] <= 'Z')
    ensures Lower(s) == s
  {
    if s != [] {
      LowerUnchanged(s[1..]);
      assert s == [s[0]] + s[1..];
    }
  }

  /** The separators of a normalised name are exactly one `-` per maximal
      run of `-`, `_` and `.` in the name ... */
  lemma NormalizedNameOneDashPerRun(name: string)
    ensures ClassCount(Separators, NormalizedName(name)) == Runs(Separators, name)
  {
    SubAllOnePerRun(Separators, '-', name);
    LowerKeepsClassCount(SubAll(Separators, '-', name));
  }

  /** ... and everything else is the name's other characters, in order,
      lower-cased. */
  lemma NormalizedNameKeepsOtherChars(name: string)
    ensures Kept(Separators, '-', NormalizedName(name)) == Lower(Kept(Separators, '-', name))
  {
    var collapsed := SubAll(Separators, '-', name);
    SubAllKeeps(Separators, '-', name);
    LowerCommutesWithKept(collapsed);
  }

  lemma {:induction false} LowerKeepsClassCount(s: string)
    ensures ClassCount(Separators, Lower(s)) == ClassCount(Separators, s)
  {
    if s != [] {
      LowerKeepsClassCount(s[1..]);
      assert Lower(s)[1..] == Lower(s[1..]);
    }
  }

  lemma {:induction false} LowerCommutesWithKept(s: string)
    ensures Kept(Separators, '-', Lower(s)) == Lower(Kept(Separators, '-', s))
  {
    if s != [] {
      LowerCommutesWithKept(s[1..]);
      assert Lower(s)[1..] == Lower(s[1..]);
      var head := if InClass(Separators, s[0]) then [] else [s[0]];
      assert Lower(head + Kept(Separators, '-', s[1..])) == Lower(head) + Lower(Kept(Separators, '-', s[1..])) by {
        LowerAppend(head, Kept(Separators, '-', s[1..]));
      }
    }
  }

  lemma {:induction false} LowerAppend(a: string, b: string)
    ensures Lower(a + b) == Lower(a) + Lower(b)
  {
    assert |Lower(a + b)| == |Lower(a) + Lower(b)|;
    forall i | 0 <= i < |a + b|
      ensures Lower(a + b)[i] == (Lower(a) + Lower(b))[i]
    {
    }
  }

  /** Normalisation works run by run: cut where no run is split, the two
      parts are normalised on their own ... */
  lemma NormalizedNameAppend(a: string, b: string)
    requires RunBoundary(Separators, a, b)
    ensures NormalizedName(a + b) == NormalizedName(a) + NormalizedName(b)
  {
    SubAllAppend(Separators, '-', a, b);
    LowerAppend(SubAll(Separators, '-', a), SubAll(Separators, '-', b));
  }

  /** ... a whole run of separators becomes one `-` ... */
  lemma NormalizedNameRun(run: string)
    requires run != [] && forall i :: 0 <= i < |run| ==> InClass(Separators, run[i])
    ensures NormalizedName(run) == "-"
  {
    SubAllRun(Separators, '-', run);
  }

  /** ... and any other character is only lower-cased. */
  lemma NormalizedNameChar(c: char)
    requires !InClass(Separators, c)
    ensures NormalizedName([c]) == [LowerChar(c)]
  {
    SubAllOther(Separators, '-', c);
  }

  /** The name as a wheel file name spells it (PEP 491, "Escaping and
      Unicode"): each run of characters other than letters, digits, `_`
      and `.` becomes one `_` — as written, only the first 32 runs. */
  function WheelName(name: string): (r: string)
    ensures Kept(NonWheelChars, '_', r) == Kept(NonWheelChars, '_', name)
    ensures Runs(NonWheelChars, name) <= ReUnicode ==>
      forall i :: 0 <= i < |r| ==> IsWordChar(r[i]) || r[i] == '.'
  {
    if Runs(NonWheelChars, name) <= ReUnicode then
      SubAllShape(NonWheelChars, '_', name);
      Sub(NonWheelChars, '_', name, ReUnicode)
    else
      Sub(NonWheelChars, '_', name, ReUnicode)
  }

  /** A name with more than 32 such runs keeps a character that a wheel
      file name cannot contain. */
  lemma WheelNameCapped(name: string)
    requires Runs(NonWheelChars, name) > ReUnicode
    ensures exists i :: 0 <= i < |WheelName(name)| && !IsWordChar(WheelName(name)[i]) && WheelName(name)[i] != '.'
  {
    assert WheelName(name) == SubFirst(NonWheelChars, '_', name, ReUnicode);
    SubFirstShort(NonWheelChars, '_', name, ReUnicode);
  }

  /** Past the 32nd run nothing is escaped: when `a` holds exactly 32 such
      runs and ends where a run ends, `a` is escaped and `b` is kept as it
      is. */
  lemma WheelNameFirstRuns(a: string, b: string)
    requires Runs(NonWheelChars, a) == ReUnicode && RunBoundary(NonWheelChars, a, b)
    ensures WheelName(a + b) == SubAll(NonWheelChars, '_', a) + b
  {
    SubCountCut(NonWheelChars, '_', a, b, ReUnicode);
  }

  /** Up to 32 runs, escaping works run by run like normalisation ... */
  lemma WheelNameAppend(a: string, b: string)
    requires RunBoundary(NonWheelChars, a, b) && Runs(NonWheelChars, a + b) <= ReUnicode
    ensures WheelName(a + b) == WheelName(a) + WheelName(b)
  {
    RunsAppend(NonWheelChars, a, b);
    SubFirstEnough(NonWheelChars, '_', a + b, ReUnicode);
    SubFirstEnough(NonWheelChars, '_', a, ReUnicode);
    SubFirstEnough(NonWheelChars, '_', b, ReUnicode);
    SubAllAppend(NonWheelChars, '_', a, b);
  }

  /** ... a whole run of other characters becomes one `_` ... */
  lemma WheelNameRun(run: string)
    requires run != [] && forall i :: 0 <= i < |run| ==> InClass(NonWheelChars, run[i])
    ensures WheelName(run) == "_"
  {
    SubAllRun(NonWheelChars, '_', run);
    SubFirstEnough(NonWheelChars, '_', run, ReUnicode);
  }

  /** ... and a letter, digit, `_` or `.` stays as it is. */
  lemma WheelNameChar(c: char)
    requires IsWordChar(c) || c == '.'
    ensures WheelName([c]) == [c]
  {
    SubAllOther(NonWheelChars, '_', c);
    SubFirstEnough(NonWheelChars, '_', [c], ReUnicode);
  }

  // ---------------------------------------------------------------------
  // Selecting the artifacts of one version

  /** The regular expression `({candidate})-{version}[.-]`, matched at the
      start of the file name, for one literal candidate name. */
  predicate MatchesCandidate(filename: string, candidate: string, version: string): (b: bool)
    ensures b ==> IsPrefix(candidate + "-" + version, filename) && |candidate| + 1 + |version| < |filename|
  {
    IsPrefix(candidate + "-" + version + ".", filename) || IsPrefix(candidate + "-" + version + "-", filename)
  }

  /** Position by position: the candidate, a `-`, the version, then `.`
      or `-`, and whatever follows. */
  lemma MatchesCandidateAt(filename: string, candidate: string, version: string)
    ensures var n := |candidate| + 1 + |version|;
      MatchesCandidate(filename, candidate, version)
      <==> && n < |filename|
           && filename[..|candidate|] == candidate && filename[|candidate|] == '-'
           && filename[|candidate| + 1..n] == version
           && (filename[n] == '.' || filename[n] == '-')
  {
    var n := |candidate| + 1 + |version|;
    if n < |filename| {
      var head := filename[..n + 1];
      assert head == filename[..|candidate|] + [filename[|candidate|]] + filename[|candidate| + 1..n] + [filename[n]];
      CandidateParts(head, candidate, version, '.');
      CandidateParts(head, candidate, version, '-');
    }
  }

  lemma CandidateParts(head: string, candidate: string, version: string, sep: char)
    requires |head| == |candidate| + |version| + 2
    ensures head == candidate + "-" + version + [sep] <==>
      && head[..|candidate|] == candidate && head[|candidate|] == '-'
      && head[|candidate| + 1..|head| - 1] == version && head[|head| - 1] == sep
  {
    var want := candidate + "-" + version + [sep];
    assert want[..|candidate|] == candidate && want[|candidate|] == '-';
    assert want[|candidate| + 1..|head| - 1] == version && want[|head| - 1] == sep;
    if && head[..|candidate|] == candidate && head[|candidate|] == '-'
       && head[|candidate| + 1..|head| - 1] == version && head[|head| - 1] == sep {
      assert head == head[..|candidate|] + [head[|candidate|]] + head[|candidate| + 1..|head| - 1] + [head[|head| - 1]];
    }
  }

  /** A file name is an artifact of the version when it starts with the
      project name or its wheel spelling, a `-`, the exact version, and then
      `.` or `-`. */
  predicate IsPkgDist(filename: string, pkgName: string, version: string): (b: bool)
    ensures Runs(NonWheelChars, pkgName) == 0 ==> (b <==> MatchesCandidate(filename, pkgName, version))
  {
    var wheel := WheelName(pkgName);
    assert Runs(NonWheelChars, pkgName) == 0 ==> wheel == pkgName by {
      if Runs(NonWheelChars, pkgName) == 0 {
        NoRunsUnchanged(NonWheelChars, '_', pkgName);
      }
    }
    MatchesCandidate(filename, pkgName, version) || MatchesCandidate(filename, wheel, version)
  }

  /** `_filter_pkg_dists`: the artifacts of the version among `dists`, in
      their order. */
  function FilterPkgDists(dists: seq<string>, pkgName: string, version: string): (r: seq<string>)
    ensures IsSubsequence(r, dists)
    ensures forall f :: f in r <==> f in dists && IsPkgDist(f, pkgName, version)
  {
    if dists == [] then []
    else
      var rest := FilterPkgDists(dists[1..], pkgName, version);
      assert rest != [] ==> rest[0] in dists[1..];
      if IsPkgDist(dists[0], pkgName, version) then [dists[0]] + rest else rest
  }

  /** `os.path.join(a, b)` on POSIX. */
  function PathJoin(a: string, b: string): (r: string)
    ensures EndsWith(r, b)
  {
    if IsPrefix("/", b) then b
    else if a == "" || EndsWith(a, "/") then a + b
    else a + "/" + b
  }

  function Artifacts(dists: seq<Dist>): (r: seq<string>)
    ensures |r| == |dists|
    ensures forall i :: 0 <= i < |dists| ==> r[i] == dists[i].artifact
  {
    if dists == [] then [] else [dists[0].artifact] + Artifacts(dists[1..])
  }

  /** `find_pkg_dists` over `listing`, the names `os.listdir` returns for
      the distribution directory: one record per artifact of the version,
      in listing order, each with the project name, its normalised form, the
      file name and the file's path. */
  function FindPkgDists(projectPath: string, distDir: string, listing: seq<string>,
                        pkgName: string, version: string): (r: seq<Dist>)
    ensures IsSubsequence(Artifacts(r), listing)
    ensures forall f :: f in Artifacts(r) <==> f in listing && IsPkgDist(f, pkgName, version)
    ensures forall i :: 0 <= i < |r| ==>
      && r[i].pkg == pkgName
      && r[i].normalizedName == NormalizedName(pkgName)
      && r[i].path == PathJoin(PathJoin(projectPath, distDir), r[i].artifact)
  {
    var dir := PathJoin(projectPath, distDir);
    var files := FilterPkgDists(listing, pkgName, version);
    var r := seq(|files|, i requires 0 <= i < |files| => Dist(pkgName, NormalizedName(pkgName), files[i], PathJoin(dir, files[i])));
    assert Artifacts(r) == files;
    r
  }

  /** A name of letters only is its own wheel spelling. */
  lemma WheelNameAbc()
    ensures WheelName("abc") == "abc"
  {
    assert SubFirst(NonWheelChars, '_', "c", ReUnicode) == "c";
    assert SubFirst(NonWheelChars, '_', "bc", ReUnicode) == "bc";
    assert SubFirst(NonWheelChars, '_', "abc", ReUnicode) == "abc";
  }

  /** The artifacts picked among four files of `abc` for version 0.1.0:
      the wheel and the source archive of that version, in listing order. */
  lemma FilterPkgDistsRelease(d1: string, d2: string, d3: string, d4: string, name: string, v: string)
    requires d1 == "abc-0.1.0-py2-none-any.whl" && d2 == "abc-0.1.0.tar.gz"
    requires d3 == "abc-0.0.1.tar.gz" && d4 == "abc-0.1.0b1.tar.gz"
    requires name == "abc" && v == "0.1.0"
    ensures FilterPkgDists([d1, d2, d3, d4], name, v) == [d1, d2]
  {
    AbcMatches(d1, d2, d3, d4, name, v);
    FilterPkgDistsCons(d4, [], name, v);
    FilterPkgDistsCons(d3, [d4], name, v);
    assert FilterPkgDists([d3, d4], name, v) == [];
    FilterPkgDistsCons(d2, [d3, d4], name, v);
    assert FilterPkgDists([d2, d3, d4], name, v) == [d2];
    FilterPkgDistsCons(d1, [d2, d3, d4], name, v);
  }

  /** Among the same files, version 0.1.0b1 takes only its own archive. */
  lemma FilterPkgDistsBeta(d1: string, d2: string, d3: string, d4: string, name: string, beta: string)
    requires d1 == "abc-0.1.0-py2-none-any.whl" && d2 == "abc-0.1.0.tar.gz"
    requires d3 == "abc-0.0.1.tar.gz" && d4 == "abc-0.1.0b1.tar.gz"
    requires name == "abc" && beta == "0.1.0b1"
    ensures FilterPkgDists([d1, d2, d3, d4], name, beta) == [d4]
  {
    AbcMatches(d1, d2, d3, d4, name, beta);
    FilterPkgDistsCons(d4, [], name, beta);
    FilterPkgDistsCons(d3, [d4], name, beta);
    FilterPkgDistsCons(d2, [d3, d4], name, beta);
    FilterPkgDistsCons(d1, [d2, d3, d4], name, beta);
  }

  lemma AbcMatches(d1: string, d2: string, d3: string, d4: string, name: string, version: string)
    requires d1 == "abc-0.1.0-py2-none-any.whl" && d2 == "abc-0.1.0.tar.gz"
    requires d3 == "abc-0.0.1.tar.gz" && d4 == "abc-0.1.0b1.tar.gz"
    requires name == "abc" && (version == "0.1.0" || version == "0.1.0b1")
    ensures IsPkgDist(d1, name, version) <==> version == "0.1.0"
    ensures IsPkgDist(d2, name, version) <==> version == "0.1.0"
    ensures !IsPkgDist(d3, name, version)
    ensures IsPkgDist(d4, name, version) <==> version == "0.1.0b1"
  {
    WheelNameAbc();
    AbcReleaseFile(d1, name, version);
    AbcReleaseFile(d2, name, version);
    AbcOlderFile(d3, name, version);
    AbcBetaFile(d4, name, version);
  }

  /** A file named `abc-0.1.0` and then `.` or `-` (the wheel and the
      archive of 0.1.0) belongs to 0.1.0 and not to 0.1.0b1 ... */
  lemma AbcReleaseFile(f: string, name: string, version: string)
    requires |f| > 9 && f[..9] == "abc-0.1.0" && (f[9] == '.' || f[9] == '-')
    requires name == "abc" && WheelName(name) == name
    requires version == "0.1.0" || version == "0.1.0b1"
    ensures IsPkgDist(f, name, version) <==> version == "0.1.0"
  {
    if version == "0.1.0" {
      AbcMatchesOne(f, name, version, f[..10]);
    } else {
      AbcMatchesNone(f, name, version, 9);
    }
  }

  /** ... the archive of 0.0.1 belongs to neither ... */
  lemma AbcOlderFile(f: string, name: string, version: string)
    requires f == "abc-0.0.1.tar.gz"
    requires name == "abc" && WheelName(name) == name
    requires version == "0.1.0" || version == "0.1.0b1"
    ensures !IsPkgDist(f, name, version)
  {
    AbcMatchesNone(f, name, version, 6);
  }

  /** ... and the archive of 0.1.0b1 only to 0.1.0b1, though 0.1.0 is a
      prefix of its version. */
  lemma AbcBetaFile(f: string, name: string, version: string)
    requires f == "abc-0.1.0b1.tar.gz"
    requires name == "abc" && WheelName(name) == name
    requires version == "0.1.0" || version == "0.1.0b1"
    ensures IsPkgDist(f, name, version) <==> version == "0.1.0b1"
  {
    if version == "0.1.0" {
      AbcMatchesNone(f, name, version, 9);
    } else {
      AbcMatchesOne(f, name, version, "abc-0.1.0b1.");
    }
  }

  lemma AbcMatchesOne(f: string, name: string, version: string, head: string)
    requires WheelName(name) == name
    requires head == name + "-" + version + "." || head == name + "-" + version + "-"
    requires IsPrefix(head, f)
    ensures IsPkgDist(f, name, version)
  {
  }

  lemma AbcMatchesNone(f: string, name: string, version: string, i: nat)
    requires WheelName(name) == name
    requires |name| + 1 <= i < |f| && i <= |name| + 1 + |version|
    requires f[..i] == (name + "-" + version)[..i]
    requires i < |name| + 1 + |version| ==> f[i] != version[i - |name| - 1]
    requires i == |name| + 1 + |version| ==> f[i] != '.' && f[i] != '-'
    ensures !IsPkgDist(f, name, version)
  {
  }

  lemma FilterPkgDistsCons(x: string, xs: seq<string>, pkgName: string, version: string)
    ensures FilterPkgDists([x] + xs, pkgName, version)
      == (if IsPkgDist(x, pkgName, version) then [x] else []) + FilterPkgDists(xs, pkgName, version)
  {
    assert ([x] + xs)[1..] == xs;
  }

  /** The version is followed only by `.` or `-`, so the files of a longer
      version that extends it are picked too: version 0.1 of `abc` takes the
      archive of 0.1.0. */
  lemma VersionPrefixMatches()
    ensures IsPkgDist("abc-0.1.0.tar.gz", "abc", "0.1")
  {
    assert MatchesCandidate("abc-0.1.0.tar.gz", "abc", "0.1");
  }

  /** A mixed-case name without separators is only lower-cased. */
  lemma NormalizedNameFooBar()
    ensures NormalizedName("FooBar") == "foobar"
  {
    SubAllFixpoint(Separators, '-', "FooBar");
    assert Lower("FooBar") == "foobar";
  }

  /** A sub-list of a list without repetitions has none either. */
  lemma {:induction false} SubsequenceDistinct<T>(xs: seq<T>, ys: seq<T>)
    requires IsSubsequence(xs, ys) && Distinct(ys)
    ensures Distinct(xs)
    decreases |ys|
  {
    if xs != [] && ys != [] {
      assert Distinct(ys[1..]) by {
        forall i, j | 0 <= i < j < |ys[1..]|
          ensures ys[1..][i] != ys[1..][j]
        {
          assert ys[1..][i] == ys[i + 1] && ys[1..][j] == ys[j + 1];
        }
      }
      if xs[0] == ys[0] {
        SubsequenceDistinct(xs[1..], ys[1..]);
        SubsequenceMembers(xs[1..], ys[1..]);
        forall j | 0 < j < |xs|
          ensures xs[0] != xs[j]
        {
          assert xs[j] == xs[1..][j - 1];
          assert xs[j] in ys[1..];
          var k :| 0 <= k < |ys[1..]| && ys[1..][k] == xs[j];
          assert ys[k + 1] == xs[j];
        }
        forall i, j | 0 < i < j < |xs|
          ensures xs[i] != xs[j]
        {
          assert xs[i] == xs[1..][i - 1] && xs[j] == xs[1..][j - 1];
        }
      } else {
        SubsequenceDistinct(xs, ys[1..]);
      }
    }
  }

  lemma {:induction false} SubsequenceMembers<T>(xs: seq<T>, ys: seq<T>)
    requires IsSubsequence(xs, ys)
    ensures forall x :: x in xs ==> x in ys
    decreases |ys|
  {
    if xs != [] && ys != [] {
      assert ys == [ys[0]] + ys[1..];
      if xs[0] == ys[0] {
        SubsequenceMembers(xs[1..], ys[1..]);
        assert xs == [xs[0]] + xs[1..];
      } else {
        SubsequenceMembers(xs, ys[1..]);
      }
    }
  }

  // ---------------------------------------------------------------------
  // Storage keys and index pages

  /** The key of an artifact relative to the storage prefix:
      `join_path(normalized_name, artifact)`. */
  function DistKey(dist: Dist): (r: string)
    ensures IsPrefix(dist.normalizedName + "/", r)
    ensures r[|dist.normalizedName| + 1..] == dist.artifact
  {
    JoinPath([dist.normalizedName, dist.artifact])
  }

  /** The key an artifact is checked for and uploaded under. */
  function UploadKey(prefix: Option<string>, dist: Dist): string {
    PrefixedPath(prefix, DistKey(dist))
  }

  /** The upload key is the artifact key placed under the storage prefix
      directory when there is a prefix, and the artifact key itself
      otherwise. */
  lemma UploadKeyUnderPrefix(prefix: Option<string>, dist: Dist)
    ensures var r := UploadKey(prefix, dist);
      && (HasPrefix(prefix) ==> IsPrefix(prefix.value + "/", r) && r[|prefix.value| + 1..] == DistKey(dist))
      && (!HasPrefix(prefix) ==> r == DistKey(dist))
  {
    DistKeyNotRoot(dist);
    if HasPrefix(prefix) {
      var p := prefix.value + "/";
      var r := p + DistKey(dist);
      assert r[..|p|] == p && r[|p|..] == DistKey(dist);
    }
  }

  /** Either way the upload key ends in `/` and the artifact's file name. */
  lemma UploadKeyEndsWithArtifact(prefix: Option<string>, dist: Dist)
    ensures EndsWith(UploadKey(prefix, dist), "/" + dist.artifact)
  {
    var t := "/" + dist.artifact;
    var k := DistKey(dist);
    assert k == dist.normalizedName + t;
    assert k[|k| - |t|..] == t;
    DistKeyNotRoot(dist);
    if HasPrefix(prefix) {
      var r := prefix.value + "/" + k;
      assert r == (prefix.value + "/" + dist.normalizedName) + t;
      assert r[|r| - |t|..] == t;
    }
  }

  /** The object `put_file` stores for an artifact. */
  function Upload(acl: string, dist: Dist): S3Object<Page> {
    S3Object(FileBody(dist.path), acl)
  }

  /** An artifact key is never the root path `.`. */
  lemma DistKeyNotRoot(dist: Dist)
    ensures DistKey(dist) != "."
  {
    var k := DistKey(dist);
    assert k[|dist.normalizedName|] == '/';
  }

  /** Records of one package have one key per artifact, whatever the
      storage prefix. */
  lemma UploadKeyInjective(prefix: Option<string>, d1: Dist, d2: Dist)
    requires d1.normalizedName == d2.normalizedName
    ensures UploadKey(prefix, d1) == UploadKey(prefix, d2) <==> d1.artifact == d2.artifact
  {
    DistKeyNotRoot(d1);
    DistKeyNotRoot(d2);
    if UploadKey(prefix, d1) == UploadKey(prefix, d2) {
      PrefixedPathInjective(prefix, DistKey(d1), DistKey(d2));
      var n := |d1.normalizedName| + 1;
      assert d1.artifact == DistKey(d1)[n..];
      assert d2.artifact == DistKey(d2)[n..];
    }
  }

  /** `is_dist_published`: whether the artifact's key is in the bucket. */
  method IsDistPublished(storage: AWSS3Storage<Page>, dist: Dist) returns (published: bool)
    ensures published <==> UploadKey(storage.prefix, dist) in storage.objects
  {
    published := storage.PathExists(DistKey(dist));
  }

  /** `upload_dist`: writes the file under the key `is_dist_published`
      checks, so the artifact counts as published afterwards. */
  method UploadDist(storage: AWSS3Storage<Page>, dist: Dist)
    modifies storage
    ensures storage.objects == old(storage.objects)[UploadKey(storage.prefix, dist) := Upload(storage.acl, dist)]
    ensures storage.puts == old(storage.puts) + [(UploadKey(storage.prefix, dist), Upload(storage.acl, dist))]
    ensures storage.PathExists(DistKey(dist))
  {
    storage.PutFile(dist.path, DistKey(dist));
  }

  /** `[d for d in listing if d != INDEX_HTML]`: the entries of the
      package page, in listing order. */
  function PkgIndexItems(listing: seq<string>): (r: seq<string>)
    ensures IsSubsequence(r, listing)
    ensures forall e :: e in r <==> e in listing && e != IndexHtml
  {
    if listing == [] then []
    else
      var rest := PkgIndexItems(listing[1..]);
      assert rest != [] ==> rest[0] in listing[1..];
      if listing[0] != IndexHtml then [listing[0]] + rest else rest
  }

  /** `sorted([p for p in listing if p != INDEX_HTML])`: the entries of
      the root page, each listed entry once as often as it is listed. */
  function RootIndexItems(listing: seq<string>): (r: seq<string>)
    ensures Sorted(r)
    ensures multiset(r) == multiset(PkgIndexItems(listing))
    ensures forall e :: e in r <==> e in listing && e != IndexHtml
  {
    var items := PkgIndexItems(listing);
    var r := Sort(items);
    assert forall e :: e in r <==> e in multiset(r);
    assert forall e :: e in items <==> e in multiset(items);
    r
  }

  /** The page `update_pkg_index` renders, given the listed entries. */
  ghost predicate IsPkgPage(page: Page, pkgName: string, listed: set<string>) {
    && page.title == "Links for " + pkgName
    && page.kind == PkgIndex
    && forall e :: e in page.items <==> e in listed && e != IndexHtml
  }

  /** The page `update_root_index` renders, given the listed entries. */
  ghost predicate IsRootPage(page: Page, listed: set<string>) {
    && page.title == "Private Index"
    && page.kind == RootIndex
    && Sorted(page.items)
    && forall e :: e in page.items <==> e in listed && e != IndexHtml
  }

  /** The bucket and write log before and after one write of a rendered
      page at `key`, whose page satisfies `isPage`. */
  ghost predicate PageWritten(key: string, acl: string,
                              objs0: map<string, S3Object<Page>>, puts0: seq<(string, S3Object<Page>)>,
                              objs1: map<string, S3Object<Page>>, puts1: seq<(string, S3Object<Page>)>) {
    && |puts1| == |puts0| + 1
    && puts1[..|puts0|] == puts0
    && puts1[|puts0|].0 == key
    && puts1[|puts0|].1.acl == acl
    && puts1[|puts0|].1.body.TextBody?
    && objs1 == objs0[key := puts1[|puts0|].1]
  }

  /** The effect of a successful `update_pkg_index`: the page listing
      `objs0` under the package is written to `<pkg_name>/index.html`. */
  ghost predicate PkgIndexUpdated(prefix: Option<string>, acl: string, pkgName: string,
                                  objs0: map<string, S3Object<Page>>, puts0: seq<(string, S3Object<Page>)>,
                                  objs1: map<string, S3Object<Page>>, puts1: seq<(string, S3Object<Page>)>) {
    && PageWritten(PrefixedPath(prefix, JoinPath([pkgName, IndexHtml])), acl, objs0, puts0, objs1, puts1)
    && IsPkgPage(puts1[|puts0|].1.body.text, pkgName, ListingOf(objs0.Keys, ListPrefix(PrefixedPath(prefix, pkgName))))
  }

  /** The effect of a successful `update_root_index`: the page listing
      `objs0` at the root is written to `index.html`. */
  ghost predicate RootIndexUpdated(prefix: Option<string>, acl: string,
                                   objs0: map<string, S3Object<Page>>, puts0: seq<(string, S3Object<Page>)>,
                                   objs1: map<string, S3Object<Page>>, puts1: seq<(string, S3Object<Page>)>) {
    && PageWritten(PrefixedPath(prefix, JoinPath([IndexHtml])), acl, objs0, puts0, objs1, puts1)
    && IsRootPage(puts1[|puts0|].1.body.text, ListingOf(objs0.Keys, ListPrefix(PrefixedPath(prefix, "."))))
  }

  /** `update_pkg_index`: lists the package's directory and writes its
      page; `PathNotFound`, with nothing written, when nothing is stored
      under the package. */
  method UpdatePkgIndex(storage: AWSS3Storage<Page>, pkgName: string) returns (r: Result<(), StorageError>)
    modifies storage
    ensures var lp := ListPrefix(PrefixedPath(storage.prefix, pkgName));
      && (r.Err? <==> forall k :: k in old(storage.objects) ==> !IsPrefix(lp, k))
      && (r.Err? ==> r.error == PathNotFound(lp) && storage.objects == old(storage.objects) && storage.puts == old(storage.puts))
    ensures r.Ok? ==> PkgIndexUpdated(storage.prefix, storage.acl, pkgName,
                                      old(storage.objects), old(storage.puts), storage.objects, storage.puts)
  {
    var listing := storage.Listdir(pkgName);
    if listing.Err? {
      return Err(listing.error);
    }
    var dists := PkgIndexItems(listing.value);
    var index := IndexPage("Links for " + pkgName, dists, PkgIndex);
    storage.PutContents(index, JoinPath([pkgName, IndexHtml]));
    return Ok(());
  }

  /** `update_root_index`: lists the root and writes the sorted root
      page; `PathNotFound`, with nothing written, when the bucket holds
      nothing under the prefix. */
  method UpdateRootIndex(storage: AWSS3Storage<Page>) returns (r: Result<(), StorageError>)
    modifies storage
    ensures var lp := ListPrefix(PrefixedPath(storage.prefix, "."));
      && (r.Err? <==> forall k :: k in old(storage.objects) ==> !IsPrefix(lp, k))
      && (r.Err? ==> r.error == PathNotFound(lp) && storage.objects == old(storage.objects) && storage.puts == old(storage.puts))
    ensures r.Ok? ==> RootIndexUpdated(storage.prefix, storage.acl,
                                       old(storage.objects), old(storage.puts), storage.objects, storage.puts)
  {
    var listing := storage.Listdir(".");
    if listing.Err? {
      return Err(listing.error);
    }
    var pkgs := RootIndexItems(listing.value);
    var index := IndexPage("Private Index", pkgs, RootIndex);
    storage.PutContents(index, JoinPath([IndexHtml]));
    return Ok(());
  }

  // ---------------------------------------------------------------------
  // The publish loop

  /** The keys of a list of uploads. */
  ghost function UploadedKeys(prefix: Option<string>, ups: seq<Dist>): set<string> {
    if ups == [] then {} else UploadedKeys(prefix, ups[..|ups| - 1]) + {UploadKey(prefix, ups[|ups| - 1])}
  }

  /** The dists the loop of `publish_package` uploads, in order, when the
      bucket starts with `keys`: a dist is skipped when its key is there,
      including keys written by the loop itself. */
  ghost function Pending(prefix: Option<string>, keys: set<string>, dists: seq<Dist>): (r: seq<Dist>)
    ensures IsSubsequence(r, dists)
    decreases |dists|
  {
    if dists == [] then []
    else
      var before := Pending(prefix, keys, dists[..|dists| - 1]);
      var last := dists[|dists| - 1];
      PendingStep(before, dists);
      if UploadKey(prefix, last) in keys + UploadedKeys(prefix, before) then before else before + [last]
  }

  lemma PendingStep(before: seq<Dist>, dists: seq<Dist>)
    requires dists != [] && IsSubsequence(before, dists[..|dists| - 1])
    ensures IsSubsequence(before, dists)
    ensures IsSubsequence(before + [dists[|dists| - 1]], dists)
  {
    SubsequenceExtend(before, dists[..|dists| - 1], dists[|dists| - 1]);
    assert dists[..|dists| - 1] + [dists[|dists| - 1]] == dists;
  }

  lemma {:induction false} SubsequenceExtend<T>(xs: seq<T>, ys: seq<T>, y: T)
    requires IsSubsequence(xs, ys)
    ensures IsSubsequence(xs, ys + [y])
    ensures IsSubsequence(xs + [y], ys + [y])
    decreases |ys|
  {
    if ys == [] {
      assert xs == [];
      assert ([y])[1..] == [];
    } else if xs == [] {
      SubsequenceExtend(xs, ys[1..], y);
      assert (ys + [y])[1..] == ys[1..] + [y];
    } else {
      assert (ys + [y])[1..] == ys[1..] + [y];
      assert (xs + [y])[1..] == xs[1..] + [y];
      if xs[0] == ys[0] {
        SubsequenceExtend(xs[1..], ys[1..], y);
      } else {
        SubsequenceExtend(xs, ys[1..], y);
      }
    }
  }

  /** The dists whose key is not in the bucket at the start, in order: an
      independent statement of what the loop should upload. */
  ghost function Unpublished(prefix: Option<string>, keys: set<string>, dists: seq<Dist>): seq<Dist> {
    if dists == [] then []
    else
      var before := Unpublished(prefix, keys, dists[..|dists| - 1]);
      var last := dists[|dists| - 1];
      if UploadKey(prefix, last) in keys then before else before + [last]
  }

  /** When the dists have distinct keys (as those of one `os.listdir` do),
      the loop uploads exactly the dists unpublished at the start. */
  lemma {:induction false} PendingIsUnpublished(prefix: Option<string>, keys: set<string>, dists: seq<Dist>)
    requires forall i, j :: 0 <= i < j < |dists| ==> UploadKey(prefix, dists[i]) != UploadKey(prefix, dists[j])
    ensures Pending(prefix, keys, dists) == Unpublished(prefix, keys, dists)
    decreases |dists|
  {
    if dists != [] {
      var init := dists[..|dists| - 1];
      var last := dists[|dists| - 1];
      PendingIsUnpublished(prefix, keys, init);
      var before := Pending(prefix, keys, init);
      SubsequenceMembers(before, init);
      forall d | d in before
        ensures UploadKey(prefix, d) != UploadKey(prefix, last)
      {
        var j :| 0 <= j < |init| && init[j] == d;
        assert dists[j] == d;
      }
      UploadedKeysOf(prefix, before, UploadKey(prefix, last));
    }
  }

  /** A key is uploaded exactly when one of the uploads has it. */
  lemma {:induction false} UploadedKeysOf(prefix: Option<string>, ups: seq<Dist>, k: string)
    ensures k in UploadedKeys(prefix, ups) <==> exists d :: d in ups && UploadKey(prefix, d) == k
    decreases |ups|
  {
    if ups != [] {
      var init := ups[..|ups| - 1];
      UploadedKeysOf(prefix, init, k);
      assert ups == init + [ups[|ups| - 1]];
    }
  }

  /** The artifacts of one listing have distinct keys. */
  lemma FindPkgDistsDistinctKeys(projectPath: string, distDir: string, listing: seq<string>,
                                 pkgName: string, version: string, prefix: Option<string>)
    requires Distinct(listing)
    ensures var dists := FindPkgDists(projectPath, distDir, listing, pkgName, version);
      forall i, j :: 0 <= i < j < |dists| ==> UploadKey(prefix, dists[i]) != UploadKey(prefix, dists[j])
  {
    var dists := FindPkgDists(projectPath, distDir, listing, pkgName, version);
    var artifacts := Artifacts(dists);
    SubsequenceDistinct(artifacts, listing);
    forall i, j | 0 <= i < j < |dists|
      ensures UploadKey(prefix, dists[i]) != UploadKey(prefix, dists[j])
    {
      assert artifacts[i] != artifacts[j];
      UploadKeyInjective(prefix, dists[i], dists[j]);
    }
  }

  /** The bucket after a list of uploads, applied in order. */
  ghost function AfterUploads(prefix: Option<string>, acl: string, objects: map<string, S3Object<Page>>, ups: seq<Dist>)
    : (r: map<string, S3Object<Page>>)
    ensures r.Keys == objects.Keys + UploadedKeys(prefix, ups)
  {
    if ups == [] then objects
    else
      var init := ups[..|ups| - 1];
      var last := ups[|ups| - 1];
      AfterUploads(prefix, acl, objects, init)[UploadKey(prefix, last) := Upload(acl, last)]
  }

  /** The `put_object` calls of a list of uploads. */
  ghost function UploadPuts(prefix: Option<string>, acl: string, ups: seq<Dist>): seq<(string, S3Object<Page>)> {
    if ups == [] then []
    else
      var init := ups[..|ups| - 1];
      var last := ups[|ups| - 1];
      UploadPuts(prefix, acl, init) + [(UploadKey(prefix, last), Upload(acl, last))]
  }

  /** One more dist in the loop: it is uploaded unless its key is in the
      bucket. */
  lemma PendingNext(prefix: Option<string>, keys: set<string>, dists: seq<Dist>, i: nat)
    requires i < |dists|
    ensures var before := Pending(prefix, keys, dists[..i]);
      Pending(prefix, keys, dists[..i + 1])
        == if UploadKey(prefix, dists[i]) in keys + UploadedKeys(prefix, before) then before else before + [dists[i]]
  {
    assert dists[..i + 1][..i] == dists[..i];
  }

  /** One more upload: the bucket and the write log each take one step. */
  lemma UploadsNext(prefix: Option<string>, acl: string, objects: map<string, S3Object<Page>>, ups: seq<Dist>, dist: Dist)
    ensures AfterUploads(prefix, acl, objects, ups + [dist])
      == AfterUploads(prefix, acl, objects, ups)[UploadKey(prefix, dist) := Upload(acl, dist)]
    ensures UploadPuts(prefix, acl, ups + [dist])
      == UploadPuts(prefix, acl, ups) + [(UploadKey(prefix, dist), Upload(acl, dist))]
  {
    assert (ups + [dist])[..|ups|] == ups;
  }

  /** The body of the loop of `publish_package`: an artifact whose key is
      not in the bucket is uploaded (one new object, one write); otherwise
      nothing changes. */
  method PublishIfMissing(storage: AWSS3Storage<Page>, dist: Dist) returns (isNew: bool)
    modifies storage
    ensures isNew <==> UploadKey(storage.prefix, dist) !in old(storage.objects)
    ensures isNew ==> storage.objects == old(storage.objects)[UploadKey(storage.prefix, dist) := Upload(storage.acl, dist)]
    ensures isNew ==> storage.puts == old(storage.puts) + [(UploadKey(storage.prefix, dist), Upload(storage.acl, dist))]
    ensures !isNew ==> storage.objects == old(storage.objects) && storage.puts == old(storage.puts)
  {
    var published := IsDistPublished(storage, dist);
    if !published {
      UploadDist(storage, dist);
    }
    isNew := !published;
  }

  /** What holds after the first `i` dists of the loop: the uploads so far
      are those of `Pending`, and the bucket and the write log are those
      uploads applied to the starting ones. */
  ghost predicate LoopState(prefix: Option<string>, acl: string, objs0: map<string, S3Object<Page>>,
                            puts0: seq<(string, S3Object<Page>)>, dists: seq<Dist>, i: nat, uploaded: seq<Dist>,
                            objs: map<string, S3Object<Page>>, puts: seq<(string, S3Object<Page>)>) {
    && i <= |dists|
    && uploaded == Pending(prefix, objs0.Keys, dists[..i])
    && objs == AfterUploads(prefix, acl, objs0, uploaded)
    && puts == puts0 + UploadPuts(prefix, acl, uploaded)
  }

  /** One turn of the loop keeps `LoopState`: the dist is uploaded exactly
      when its key is not in the bucket as the earlier turns left it. */
  lemma LoopStep(prefix: Option<string>, acl: string, objs0: map<string, S3Object<Page>>,
                 puts0: seq<(string, S3Object<Page>)>, dists: seq<Dist>, i: nat, uploaded: seq<Dist>,
                 objs: map<string, S3Object<Page>>, puts: seq<(string, S3Object<Page>)>,
                 isNew: bool, objs': map<string, S3Object<Page>>, puts': seq<(string, S3Object<Page>)>)
    requires i < |dists| && LoopState(prefix, acl, objs0, puts0, dists, i, uploaded, objs, puts)
    requires isNew <==> UploadKey(prefix, dists[i]) !in objs
    requires isNew ==> objs' == objs[UploadKey(prefix, dists[i]) := Upload(acl, dists[i])]
    requires isNew ==> puts' == puts + [(UploadKey(prefix, dists[i]), Upload(acl, dists[i]))]
    requires !isNew ==> objs' == objs && puts' == puts
    ensures LoopState(prefix, acl, objs0, puts0, dists, i + 1,
                      if isNew then uploaded + [dists[i]] else uploaded, objs', puts')
  {
    PendingNext(prefix, objs0.Keys, dists, i);
    UploadsNext(prefix, acl, objs0, uploaded, dists[i]);
    assert objs.Keys == objs0.Keys + UploadedKeys(prefix, uploaded);
  }

  /** The `for dist in dists` loop of `publish_package`: uploads the dists
      of `Pending` in order and reports whether it uploaded any. */
  method UploadMissing(storage: AWSS3Storage<Page>, dists: seq<Dist>) returns (rebuildIndex: bool)
    modifies storage
    ensures var up := Pending(storage.prefix, old(storage.objects).Keys, dists);
      && (rebuildIndex <==> up != [])
      && storage.objects == AfterUploads(storage.prefix, storage.acl, old(storage.objects), up)
      && storage.puts == old(storage.puts) + UploadPuts(storage.prefix, storage.acl, up)
  {
    rebuildIndex := false;
    ghost var objs0, puts0 := storage.objects, storage.puts;
    ghost var uploaded: seq<Dist> := [];
    assert dists[..0] == [];
    for i := 0 to |dists|
      invariant LoopState(storage.prefix, storage.acl, objs0, puts0, dists, i, uploaded, storage.objects, storage.puts)
      invariant rebuildIndex <==> uploaded != []
    {
      ghost var objs, puts := storage.objects, storage.puts;
      var isNew := PublishIfMissing(storage, dists[i]);
      LoopStep(storage.prefix, storage.acl, objs0, puts0, dists, i, uploaded, objs, puts,
               isNew, storage.objects, storage.puts);
      if isNew {
        rebuildIndex := true;
        uploaded := uploaded + [dists[i]];
      }
    }
    assert dists[..|dists|] == dists;
  }

  /** Both index pages rewritten after the uploads: first the package page
      from a listing of `objs0`, then the root page from a listing of the
      bucket as the first write left it. */
  ghost predicate IndexesUpdated(prefix: Option<string>, acl: string, norm: string,
                                 objs0: map<string, S3Object<Page>>, puts0: seq<(string, S3Object<Page>)>,
                                 objs1: map<string, S3Object<Page>>, puts1: seq<(string, S3Object<Page>)>) {
    var pkgKey := PrefixedPath(prefix, JoinPath([norm, IndexHtml]));
    var n := |puts0|;
    && |puts1| == n + 2
    && PkgIndexUpdated(prefix, acl, norm, objs0, puts0, objs0[pkgKey := puts1[n].1], puts1[..n + 1])
    && RootIndexUpdated(prefix, acl, objs0[pkgKey := puts1[n].1], puts1[..n + 1], objs1, puts1)
  }

  /** What `publish_package` leaves behind when it uploads the dists `up`
      of package `norm`: nothing else when `up` is empty, both index pages
      rewritten otherwise. */
  ghost predicate Published(prefix: Option<string>, acl: string, norm: string, up: seq<Dist>,
                            objs0: map<string, S3Object<Page>>, puts0: seq<(string, S3Object<Page>)>,
                            objs1: map<string, S3Object<Page>>, puts1: seq<(string, S3Object<Page>)>) {
    var mid := AfterUploads(prefix, acl, objs0, up);
    var midPuts := puts0 + UploadPuts(prefix, acl, up);
    && (up == [] ==> objs1 == mid && puts1 == midPuts)
    && (up != [] ==> IndexesUpdated(prefix, acl, norm, mid, midPuts, objs1, puts1))
  }

  /** `publish_package` for the artifacts `listing` names: `DistNotFound`,
      before touching storage, when there are none; otherwise the dists of
      `Pending` are uploaded in order and, if there was at least one, the
      package page (under the normalised name) and then the root page are
      rewritten from fresh listings, which cannot come back empty. */
  method PublishPackage(name: string, version: string, storage: AWSS3Storage<Page>,
                        projectPath: string, distDir: string, listing: seq<string>)
    returns (r: Result<(), PublishError>)
    modifies storage
    ensures var dists := FindPkgDists(projectPath, distDir, listing, name, version);
      dists == [] ==>
        r == Err(DistNotFound(distDir)) && storage.objects == old(storage.objects) && storage.puts == old(storage.puts)
    ensures var dists := FindPkgDists(projectPath, distDir, listing, name, version);
      dists != [] ==>
        && r == Ok(())
        && Published(storage.prefix, storage.acl, NormalizedName(name), Pending(storage.prefix, old(storage.objects).Keys, dists),
                     old(storage.objects), old(storage.puts), storage.objects, storage.puts)
  {
    var dists := FindPkgDists(projectPath, distDir, listing, name, version);
    if |dists| == 0 {
      return Err(DistNotFound(distDir));
    }
    ghost var up := Pending(storage.prefix, storage.objects.Keys, dists);
    var rebuildIndex := UploadMissing(storage, dists);
    if rebuildIndex {
      ghost var last := up[|up| - 1];
      var norm := dists[|dists| - 1].normalizedName;
      assert last in up;
      SubsequenceMembers(up, dists);
      UpdateIndexes(storage, norm, last);
    }
    return Ok(());
  }

  /** The `if rebuild_index:` branch of `publish_package`: once an artifact
      of the package is stored, both listings find it, so neither update
      raises and both pages are written, the package page first. */
  method UpdateIndexes(storage: AWSS3Storage<Page>, norm: string, ghost uploaded: Dist)
    requires uploaded.normalizedName == norm
    requires forall i :: 0 <= i < |norm| ==> norm[i] != '.'
    requires UploadKey(storage.prefix, uploaded) in storage.objects
    modifies storage
    ensures IndexesUpdated(storage.prefix, storage.acl, norm, old(storage.objects), old(storage.puts),
                           storage.objects, storage.puts)
  {
    ghost var key := UploadKey(storage.prefix, uploaded);
    UploadUnderPackage(storage.prefix, uploaded, norm);
    UploadUnderRoot(storage.prefix, uploaded);
    var pkg := UpdatePkgIndex(storage, norm);
    assert pkg.Ok?;
    ghost var puts1 := storage.puts;
    assert key in storage.objects;
    var root := UpdateRootIndex(storage);
    assert root.Ok?;
    assert storage.puts[..|puts1|] == puts1;
  }

  /** An uploaded artifact lies under the listing prefix of its package. */
  lemma UploadUnderPackage(prefix: Option<string>, dist: Dist, norm: string)
    requires dist.normalizedName == norm
    requires forall i :: 0 <= i < |norm| ==> norm[i] != '.'
    ensures IsPrefix(ListPrefix(PrefixedPath(prefix, norm)), UploadKey(prefix, dist))
  {
    DistKeyNotRoot(dist);
  }

  /** An uploaded artifact lies under the listing prefix of the root. */
  lemma UploadUnderRoot(prefix: Option<string>, dist: Dist)
    ensures IsPrefix(ListPrefix(PrefixedPath(prefix, ".")), UploadKey(prefix, dist))
  {
    DistKeyNotRoot(dist);
  }
}
