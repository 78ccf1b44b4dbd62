/** Path strings: Go's `filepath.Ext` and `filepath.Join` on a `/`-separated
    system, and the disambiguated names `getFileName` tries in turn
    (cmd/skicka.go). */
module Paths {
  import opened Decimal

  /** No `/` at or after position `k`: position `k` lies in the final element. */
  predicate InFinalElement(path: string, k: nat) {
    forall m :: k <= m < |path| ==> path[m] != '/'
  }

  /** `filepath.Ext`: the suffix that starts at the last `.` of the final
      `/`-separated element, or empty when that element has no `.`. */
  function Ext(path: string): (ext: string)
    ensures |ext| <= |path| && ext == path[|path| - |ext|..]
    ensures ext != [] ==> ext[0] == '.'
    ensures forall m :: 0 <= m < |ext| ==> ext[m] != '/'
    ensures forall m :: 1 <= m < |ext| ==> ext[m] != '.'
  {
    if path == [] || path[|path| - 1] == '/' then []
    else if path[|path| - 1] == '.' then ['.']
    else
      var e := Ext(path[..|path| - 1]);
      if e == [] then [] else e + [path[|path| - 1]]
  }

  /** An empty extension means the final element holds no `.` at all. */
  lemma {:induction false} ExtEmptyNoDot(path: string)
    requires Ext(path) == []
    ensures forall k: nat :: k < |path| && InFinalElement(path, k) ==> path[k] != '.'
  {
    if path != [] && path[|path| - 1] != '/' {
      var prefix := path[..|path| - 1];
      ExtEmptyNoDot(prefix);
      forall k: nat | k < |prefix| && InFinalElement(path, k)
        ensures InFinalElement(prefix, k)
      {
      }
    }
  }

  /** The extension is the only suffix with its description: an independent
      characterisation that pins `Ext` down. */
  lemma {:induction false} ExtUnique(path: string, e: string)
    requires |e| <= |path| && e == path[|path| - |e|..]
    requires e != [] ==> e[0] == '.'
    requires forall m :: 0 <= m < |e| ==> e[m] != '/'
    requires forall m :: 1 <= m < |e| ==> e[m] != '.'
    requires e == [] ==>
      forall k: nat :: k < |path| && InFinalElement(path, k) ==> path[k] != '.'
    ensures e == Ext(path)
    decreases |path|
  {
    if path != [] && path[|path| - 1] != '/' && path[|path| - 1] != '.' {
      var prefix := path[..|path| - 1];
      if e == [] {
        forall k: nat | k < |prefix| && InFinalElement(prefix, k)
          ensures InFinalElement(path, k)
        {
        }
        ExtUnique(prefix, []);
      } else {
        var shorter := e[..|e| - 1];
        assert e[|e| - 1] == path[|path| - 1];
        assert shorter == prefix[|prefix| - |shorter|..];
        ExtUnique(prefix, shorter);
        assert e == shorter + [path[|path| - 1]];
      }
    } else if path != [] && path[|path| - 1] == '.' {
      assert InFinalElement(path, |path| - 1);
      assert e[|e| - 1] == '.';
      assert |e| == 1;
    }
  }

  /** The path without its extension (`fp[:len(fp)-len(extension)]`). */
  function Stem(path: string): (stem: string)
  {
    path[..|path| - |Ext(path)|]
  }

  /** The stem and the extension split the path; a path without an extension
      is its own stem. */
  lemma StemAndExt(path: string)
    ensures Stem(path) + Ext(path) == path
    ensures Ext(path) == [] ==> Stem(path) == path
  {
  }

  /** `filepath.Join(dir, name)` for two elements, without the cleaning of
      `.`, `..` and repeated separators. */
  function Join(dir: string, name: string): (p: string)
    ensures name != [] ==> |p| >= |name| && p[|p| - |name|..] == name
    ensures dir != [] ==> |p| >= |dir| && p[..|dir|] == dir
    ensures |p| >= |dir| + |name|
  {
    if dir == [] then name
    else if name == [] then dir
    else if dir[|dir| - 1] == '/' then dir + name
    else dir + "/" + name
  }

  /** The path tried in round `i` of the resolver: the disambiguator `(i)`
      inserted between the original path's stem and its extension
      (cmd/skicka.go:58-61). It is always built from the original path. */
  function Candidate(path: string, i: nat): (candidate: string)
  {
    Stem(path) + Tag(i) + Ext(path)
  }

  /** A candidate keeps the original extension, and its stem is the original
      stem followed by exactly one disambiguator. */
  lemma CandidateParts(path: string, i: nat)
    ensures Ext(Candidate(path, i)) == Ext(path)
    ensures Stem(Candidate(path, i)) == Stem(path) + Tag(i)
  {
    var c := Candidate(path, i);
    var stem := Stem(path) + Tag(i);
    CandidateExt(path, i);
    assert c == stem + Ext(path);
    assert c[..|c| - |Ext(path)|] == stem;
  }

  lemma CandidateExt(path: string, i: nat)
    ensures Ext(Candidate(path, i)) == Ext(path)
  {
    var ext := Ext(path);
    var stem := Stem(path) + Tag(i);
    if ext == [] {
      assert Candidate(path, i) == path + Tag(i);
      ExtOfPlainSuffix(path, Tag(i));
    } else {
      ExtOfConcat(stem, ext);
    }
  }

  /** The disambiguator of round `i`: `(`, the digits of `i`, `)`. */
  function Tag(i: nat): (tag: string)
    ensures |tag| == |Dec(i)| + 2 && tag[0] == '(' && tag[|tag| - 1] == ')'
    ensures tag[1..|tag| - 1] == Dec(i)
    ensures forall m :: 0 <= m < |tag| ==> tag[m] != '.' && tag[m] != '/'
  {
    var tag := "(" + Dec(i) + ")";
    assert forall m :: 1 <= m < |tag| - 1 ==> tag[m] == Dec(i)[m - 1];
    assert tag[1..|tag| - 1] == Dec(i);
    tag
  }

  /** Different rounds have different disambiguators. */
  lemma TagInjective(i: nat, j: nat)
    requires Tag(i) == Tag(j)
    ensures i == j
  {
    DecInjective(i, j);
  }

  /** Two disambiguators in a row never read as one. */
  lemma TagsDoNotJoin(i: nat, j: nat, k: nat)
    ensures Tag(i) + Tag(j) != Tag(k)
  {
    var joined := Tag(i) + Tag(j);
    var p := |Tag(i)| - 1;
    if |joined| == |Tag(k)| {
      assert joined[p] == ')';
      assert Tag(k)[p] == Dec(k)[p - 1];
    }
  }

  /** A common prefix and suffix cancel. */
  lemma MiddleCancel(a: string, t1: string, t2: string, e: string)
    requires a + t1 + e == a + t2 + e
    ensures t1 == t2
  {
    assert t1 == (a + t1 + e)[|a|..|a| + |t1|];
  }

  /** Appending characters that are neither `.` nor `/` to a path without an
      extension leaves it without one. */
  lemma {:induction false} ExtOfPlainSuffix(path: string, tail: string)
    requires Ext(path) == []
    requires forall m :: 0 <= m < |tail| ==> tail[m] != '.' && tail[m] != '/'
    ensures Ext(path + tail) == []
    decreases |tail|
  {
    if tail == [] {
      assert path + tail == path;
    } else {
      var shorter := tail[..|tail| - 1];
      assert (path + tail)[..|path + tail| - 1] == path + shorter;
      ExtOfPlainSuffix(path, shorter);
    }
  }

  /** Appending a non-empty extension (a `.` followed by neither `.` nor `/`)
      to any path yields exactly that extension. */
  lemma ExtOfConcat(stem: string, ext: string)
    requires ext != [] && ext[0] == '.'
    requires forall m :: 0 <= m < |ext| ==> ext[m] != '/'
    requires forall m :: 1 <= m < |ext| ==> ext[m] != '.'
    ensures Ext(stem + ext) == ext
  {
    var p := stem + ext;
    assert ext == p[|p| - |ext|..];
    ExtUnique(p, ext);
  }

  /** Distinct rounds try distinct paths. */
  lemma CandidateInjective(path: string, i: nat, j: nat)
    requires Candidate(path, i) == Candidate(path, j)
    ensures i == j
  {
    MiddleCancel(Stem(path), Tag(i), Tag(j), Ext(path));
    TagInjective(i, j);
  }

  lemma CandidatesDiffer(path: string, i: nat, j: nat)
    requires i != j
    ensures Candidate(path, i) != Candidate(path, j)
  {
    if Candidate(path, i) == Candidate(path, j) {
      CandidateInjective(path, i, j);
    }
  }

  /** No candidate is the original path itself. */
  lemma CandidateNotOriginal(path: string, i: nat)
    ensures Candidate(path, i) != path
  {
    assert |Candidate(path, i)| == |path| + |Tag(i)|;
  }

  /** Candidates never nest: no candidate of the original path looks like a
      candidate of a candidate, such as `a(0)(1).txt` for `a.txt`. */
  lemma CandidatesDoNotNest(path: string, i: nat, j: nat, k: nat)
    ensures Candidate(Candidate(path, i), j) != Candidate(path, k)
  {
    var c := Candidate(path, i);
    CandidateParts(path, i);
    var nested := Stem(path) + (Tag(i) + Tag(j)) + Ext(path);
    assert Candidate(c, j) == nested;
    if nested == Candidate(path, k) {
      MiddleCancel(Stem(path), Tag(i) + Tag(j), Tag(k), Ext(path));
      TagsDoNotJoin(i, j, k);
    }
  }

  /** The finitely many paths `taken` rule out only finitely many rounds: if
      rounds `0 .. count-1` all hit a taken path, `count <= |taken|`, and
      `count < |taken|` when the original path is taken as well. */
  lemma TakenCandidatesBounded(taken: set<string>, path: string, count: nat)
    requires forall j: nat :: j < count ==> Candidate(path, j) in taken
    ensures count <= |taken|
    ensures path in taken ==> count < |taken|
  {
    TriedWithin(taken, path, count);
    TriedSize(path, count);
    SubsetSize(Tried(path, count), taken);
    if path in taken {
      OriginalNotTried(path, count);
      SubsetSize(Tried(path, count) + {path}, taken);
    }
  }

  /** The paths of rounds `0 .. count-1`. */
  function Tried(path: string, count: nat): (tried: set<string>) {
    if count == 0 then {} else Tried(path, count - 1) + {Candidate(path, count - 1)}
  }

  lemma {:induction false} TriedWithin(taken: set<string>, path: string, count: nat)
    requires forall j: nat :: j < count ==> Candidate(path, j) in taken
    ensures Tried(path, count) <= taken
  {
    if count > 0 {
      TriedWithin(taken, path, count - 1);
    }
  }

  lemma {:induction false} NotYetTried(path: string, count: nat, k: nat)
    requires count <= k
    ensures Candidate(path, k) !in Tried(path, count)
  {
    if count > 0 {
      NotYetTried(path, count - 1, k);
      CandidatesDiffer(path, k, count - 1);
    }
  }

  lemma {:induction false} OriginalNotTried(path: string, count: nat)
    ensures path !in Tried(path, count)
  {
    if count > 0 {
      OriginalNotTried(path, count - 1);
      CandidateNotOriginal(path, count - 1);
    }
  }

  lemma {:induction false} TriedSize(path: string, count: nat)
    ensures |Tried(path, count)| == count
  {
    if count > 0 {
      TriedSize(path, count - 1);
      NotYetTried(path, count - 1, count - 1);
    }
  }

  lemma {:induction false} SubsetSize(small: set<string>, big: set<string>)
    requires small <= big
    ensures |small| <= |big|
    decreases |small|
  {
    if small != {} {
      var x :| x in small;
      SubsetSize(small - {x}, big - {x});
    }
  }

  /** `r` is what the resolver must return for `path` when `taken` is the set of
      paths whose existence check succeeds: `path` itself if it is free,
      otherwise the candidate of the least round whose path is free. */
  ghost predicate IsFirstFree(taken: set<string>, path: string, r: string) {
    if path !in taken then r == path
    else exists i: nat :: FirstFreeRound(taken, path, i) && r == Candidate(path, i)
  }

  /** Round `i` is the first whose candidate is free. */
  predicate FirstFreeRound(taken: set<string>, path: string, i: nat) {
    Candidate(path, i) !in taken &&
    forall j: nat :: j < i ==> Candidate(path, j) in taken
  }

  /** The first free round comes within `|taken| + 1` rounds; when the
      original path is taken it comes within `|taken|`, so the original and
      rounds `0 .. i` make at most `|taken| + 1` existence checks. */
  lemma FirstFreeRoundBounded(taken: set<string>, path: string, i: nat)
    requires FirstFreeRound(taken, path, i)
    ensures i <= |taken|
    ensures path in taken ==> i + 2 <= |taken| + 1
  {
    TakenCandidatesBounded(taken, path, i);
  }

  /** At most one path meets the description. */
  lemma FirstFreeUnique(taken: set<string>, path: string, r1: string, r2: string)
    requires IsFirstFree(taken, path, r1) && IsFirstFree(taken, path, r2)
    ensures r1 == r2
  {
    if path in taken {
      var i1: nat :| FirstFreeRound(taken, path, i1) && r1 == Candidate(path, i1);
      var i2: nat :| FirstFreeRound(taken, path, i2) && r2 == Candidate(path, i2);
      assert !(i1 < i2) && !(i2 < i1);
    }
  }

  /** Some path always meets the description, within `|taken| + 1` rounds. */
  lemma FirstFreeExists(taken: set<string>, path: string)
    ensures exists r :: IsFirstFree(taken, path, r)
  {
    if path in taken {
      var i := FreeRoundFrom(taken, path, 0);
      assert FirstFreeRound(taken, path, i);
      assert IsFirstFree(taken, path, Candidate(path, i));
    } else {
      assert IsFirstFree(taken, path, path);
    }
  }

  lemma {:induction false} FreeRoundFrom(taken: set<string>, path: string, i: nat) returns (k: nat)
    requires forall j: nat :: j < i ==> Candidate(path, j) in taken
    ensures i <= k <= |taken| && Candidate(path, k) !in taken
    ensures forall j: nat :: j < k ==> Candidate(path, j) in taken
    decreases |taken| - i
  {
    TakenCandidatesBounded(taken, path, i);
    if Candidate(path, i) !in taken {
      k := i;
    } else {
      assert forall j: nat :: j < i + 1 ==> Candidate(path, j) in taken;
      TakenCandidatesBounded(taken, path, i + 1);
      k := FreeRoundFrom(taken, path, i + 1);
    }
  }

  /** The path the resolver returns, as a specification. */
  ghost function Resolve(taken: set<string>, path: string): (r: string)
    ensures IsFirstFree(taken, path, r)
    ensures r !in taken
  {
    FirstFreeExists(taken, path);
    var r :| IsFirstFree(taken, path, r);
    r
  }

  /** A free path is kept; a taken path whose round-0 candidate is free moves
      to that candidate, whatever else is taken. */
  lemma ResolveFirstRound(taken: set<string>, path: string)
    requires Candidate(path, 0) !in taken
    ensures path !in taken ==> Resolve(taken, path) == path
    ensures Resolve(taken + {path}, path) == Candidate(path, 0)
  {
    if path !in taken {
      FirstFreeUnique(taken, path, Resolve(taken, path), path);
    }
    CandidateNotOriginal(path, 0);
    assert FirstFreeRound(taken + {path}, path, 0);
    FirstFreeUnique(taken + {path}, path, Resolve(taken + {path}, path), Candidate(path, 0));
  }

  /** Worked examples: only the last extension moves behind the
      disambiguator, an extensionless name gets no trailing dot, and a dot in
      a directory name is not an extension. */
  lemma TxtExample()
    ensures Candidate("a.txt", 0) == "a(0).txt"
  {
    assert "a" + ".txt" == "a.txt";
    ExtOfConcat("a", ".txt");
    assert Stem("a.txt") == "a";
  }

  lemma TarGzExample()
    ensures Candidate("a.tar.gz", 0) == "a.tar(0).gz"
  {
    assert "a.tar" + ".gz" == "a.tar.gz";
    ExtOfConcat("a.tar", ".gz");
    assert Stem("a.tar.gz") == "a.tar";
  }

  lemma ReadmeExample()
    ensures Candidate("readme", 1) == "readme(1)"
  {
    assert [] + "readme" == "readme";
    ExtOfPlainSuffix([], "readme");
    assert Stem("readme") == "readme";
  }

  lemma DottedDirectoryExample()
    ensures Candidate("d.x/n", 12) == "d.x/n(12)"
  {
    assert Ext("d.x/n"[..4]) == [];
    assert Stem("d.x/n") == "d.x/n";
    assert Dec(12) == Dec(1) + [DigitChar(2)];
  }
}
