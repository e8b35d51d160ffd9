/** `Path.resolve(strict=True)` on a tree without symbolic links. The segments of the path string are taken in
    turn as `posixpath.normpath` takes them: empty and "." segments vanish and ".." drops the last segment
    without a lookup. Every named segment appended is looked up with `lstat`, and a failed lookup raises: with
    `NotADirectoryError` when the walk has gone through a regular file, with `FileNotFoundError` otherwise. */
module Resolve {
  import opened Paths
  import opened Trees

  /** How a strict resolution ends: at a path, with `FileNotFoundError`, or with `NotADirectoryError`. */
  datatype Walked = Reached(path: Path) | Missing | NotADir

  /** The walk from `acc` over the remaining segments. Looking up a missing name below `acc` gives
      NotADirectoryError when a prefix of `acc`, `acc` included, is a regular file; in a well-formed tree the
      first prefix that is not a directory is then that file, which is what the lookup stops at. */
  function StrictNormalize(fs: Tree, acc: Path, segs: seq<string>): (r: Walked)
    ensures r.Reached? ==> r.path == Normalize(acc, segs)
    ensures r.Reached? && Valid(fs) && acc in fs ==> r.path in fs
    decreases |segs|
  {
    if segs == [] then Reached(acc)
    else
      var s := segs[0];
      if s == "" || s == "." then StrictNormalize(fs, acc, segs[1..])
      else if s == ".." then StrictNormalize(fs, if acc == [] then [] else acc[..|acc| - 1], segs[1..])
      else if acc + [s] in fs then StrictNormalize(fs, acc + [s], segs[1..])
      else if Obstructed(fs, acc) then NotADir
      else Missing
  }

  /** `Path(s).resolve(strict=True)`: an absolute string is walked from the root, a relative one from the
      working directory, which `os.getcwd()` reports missing with `FileNotFoundError` when it is not there. */
  function StrictResolve(fs: Tree, cwd: Path, s: string): (r: Walked)
    ensures r.Reached? ==> r.path == Canonical(cwd, s)
    ensures r.Reached? && Valid(fs) ==> r.path in fs
  {
    var start := if StartsWith(s, "/") then [] else cwd;
    if !IsDir(fs, start) then Missing else StrictNormalize(fs, start, SplitOn(s, "/"))
  }

  /** The walk carried on over further segments, when it has not raised yet. */
  function Continue(fs: Tree, w: Walked, segs: seq<string>): Walked
  {
    if w.Reached? then StrictNormalize(fs, w.path, segs) else w
  }

  /** A walk over two lists of segments is the walk over the first, carried on over the second. */
  lemma {:induction false} StrictAppend(fs: Tree, acc: Path, xs: seq<string>, ys: seq<string>)
    ensures StrictNormalize(fs, acc, xs + ys) == Continue(fs, StrictNormalize(fs, acc, xs), ys)
    decreases |xs|
  {
    if xs == [] {
      assert xs + ys == ys;
    } else {
      assert (xs + ys)[0] == xs[0];
      assert (xs + ys)[1..] == xs[1..] + ys;
      var s := xs[0];
      var next := if s == "" || s == "." then acc else if s == ".." then (if acc == [] then [] else acc[..|acc| - 1])
                  else acc + [s];
      StrictAppend(fs, next, xs[1..], ys);
    }
  }

  lemma ContinueAppend(fs: Tree, w: Walked, xs: seq<string>, ys: seq<string>)
    ensures Continue(fs, Continue(fs, w, xs), ys) == Continue(fs, w, xs + ys)
  {
    if w.Reached? {
      StrictAppend(fs, w.path, xs, ys);
    }
  }

  /** `os.path.join(a, n)` with a plain name resolves as `a` followed by one more lookup. */
  lemma StrictJoinName(fs: Tree, cwd: Path, a: string, n: string)
    requires IsName(n)
    ensures StrictResolve(fs, cwd, Join(a, n)) == Continue(fs, StrictResolve(fs, cwd, a), [n])
  {
    assert !StartsWith(n, "/") by { assert n[0] != '/'; }
    SplitWithoutSep(n, '/');
    if a == "" {
      assert Join("", n) == n;
      assert SplitOn("", "/") == [""];
      assert !StartsWith("", "/");
      if IsDir(fs, cwd) {
        assert StrictNormalize(fs, cwd, [""]) == StrictNormalize(fs, cwd, []);
      }
    } else if EndsWith(a, "/") {
      StrictJoinSlash(fs, cwd, a, n);
    } else {
      StrictJoinPlain(fs, cwd, a, n);
    }
  }

  lemma StrictJoinSlash(fs: Tree, cwd: Path, a: string, n: string)
    requires IsName(n) && !StartsWith(n, "/") && SplitOn(n, "/") == [n]
    requires a != "" && EndsWith(a, "/")
    ensures StrictResolve(fs, cwd, Join(a, n)) == Continue(fs, StrictResolve(fs, cwd, a), [n])
  {
    var xs := SlashSplits(a, n);
    var start := if StartsWith(a, "/") then [] else cwd;
    if IsDir(fs, start) {
      StrictAppend(fs, start, xs, [n]);
      StrictAppend(fs, start, xs, [""]);
      var w := StrictNormalize(fs, start, xs);
      if w.Reached? {
        assert StrictNormalize(fs, w.path, [""]) == StrictNormalize(fs, w.path, []);
      }
    }
  }

  /** How `a` ending in '/' and `a + n` split: the same leading segments, then "" or `n`. */
  lemma SlashSplits(a: string, n: string) returns (xs: seq<string>)
    requires SplitOn(n, "/") == [n] && a != "" && EndsWith(a, "/")
    ensures Join(a, n) == a + n && StartsWith(a + n, "/") == StartsWith(a, "/")
    ensures SplitOn(a + n, "/") == xs + [n] && SplitOn(a, "/") == xs + [""]
  {
    var a' := a[..|a| - 1];
    assert a == a' + "/" + "";
    assert a + n == a' + "/" + n;
    SplitAround(a', '/', n);
    SplitAround(a', '/', "");
    assert "/" == ['/'];
    assert SplitOn("", "/") == [""];
    xs := SplitOn(a', "/");
  }

  lemma StrictJoinPlain(fs: Tree, cwd: Path, a: string, n: string)
    requires IsName(n) && !StartsWith(n, "/") && SplitOn(n, "/") == [n]
    requires a != "" && !EndsWith(a, "/")
    ensures StrictResolve(fs, cwd, Join(a, n)) == Continue(fs, StrictResolve(fs, cwd, a), [n])
  {
    assert Join(a, n) == a + "/" + n;
    SplitAround(a, '/', n);
    assert StartsWith(a + "/" + n, "/") == StartsWith(a, "/");
    var start := if StartsWith(a, "/") then [] else cwd;
    if IsDir(fs, start) {
      StrictAppend(fs, start, SplitOn(a, "/"), [n]);
    }
  }

  /** `os.path.join(a, *names)` with plain names resolves as `a` followed by a lookup of each name in turn. */
  lemma {:induction false} StrictJoinAll(fs: Tree, cwd: Path, a: string, rel: seq<string>)
    requires IsCanonical(rel)
    ensures StrictResolve(fs, cwd, JoinAll(a, rel)) == Continue(fs, StrictResolve(fs, cwd, a), rel)
    decreases |rel|
  {
    if rel == [] {
      var w := StrictResolve(fs, cwd, a);
      if w.Reached? {
        assert StrictNormalize(fs, w.path, []) == w;
      }
    } else {
      var a1 := Join(a, rel[0]);
      StrictJoinName(fs, cwd, a, rel[0]);
      StrictJoinAll(fs, cwd, a1, rel[1..]);
      ContinueAppend(fs, StrictResolve(fs, cwd, a), [rel[0]], rel[1..]);
      assert [rel[0]] + rel[1..] == rel;
    }
  }

  /** Some name of `rel`, looked up below `dir`, would have to be found inside a regular file. */
  predicate ThroughFile(fs: Tree, dir: Path, rel: seq<string>)
  {
    exists k :: 0 <= k < |rel| && FileAmong(fs, dir, rel, k)
  }

  /** Nothing of a well-formed tree lies below a regular file. */
  lemma ThroughFileAbsent(fs: Tree, dir: Path, rel: seq<string>)
    requires Valid(fs) && ThroughFile(fs, dir, rel)
    ensures dir + rel !in fs
  {
    var k :| 0 <= k < |rel| && FileAmong(fs, dir, rel, k);
    assert (dir + rel)[..|dir + rel[..k]|] == dir + rel[..k];
    AbsentBelow(fs, dir + rel[..k], dir + rel);
  }

  /** The first `k` names of `rel` below `dir` lead to a regular file, and a further name follows. */
  predicate FileAmong(fs: Tree, dir: Path, rel: seq<string>, k: int)
  {
    0 <= k < |rel| && IsFile(fs, dir + rel[..k])
  }

  /** Plain names walked from a directory of a well-formed tree reach the path they name when it exists; a
      name looked up inside a regular file raises NotADirectoryError, and any other missing name
      FileNotFoundError. */
  lemma {:induction false} StrictNames(fs: Tree, dir: Path, rel: seq<string>)
    requires Valid(fs) && IsDir(fs, dir) && IsCanonical(rel)
    ensures StrictNormalize(fs, dir, rel) ==
      if dir + rel in fs then Reached(dir + rel) else if ThroughFile(fs, dir, rel) then NotADir else Missing
    decreases |rel|
  {
    if rel == [] {
      assert dir + rel == dir;
    } else {
      var q := dir + [rel[0]];
      assert IsName(rel[0]);
      if IsDir(fs, q) {
        assert StrictNormalize(fs, dir, rel) == StrictNormalize(fs, q, rel[1..]);
        assert IsCanonical(rel[1..]) by { assert forall i :: 0 <= i < |rel[1..]| ==> rel[1..][i] == rel[i + 1]; }
        StrictNames(fs, q, rel[1..]);
        NamesShift(fs, dir, rel);
      } else if q in fs {
        StrictBelowFile(fs, dir, rel);
      } else {
        StrictBelowMissing(fs, dir, rel);
      }
    }
  }

  /** The outcome after the first name, a directory, is the outcome from the start. */
  lemma NamesShift(fs: Tree, dir: Path, rel: seq<string>)
    requires Valid(fs) && IsDir(fs, dir) && rel != [] && IsDir(fs, dir + [rel[0]])
    ensures dir + [rel[0]] + rel[1..] == dir + rel
    ensures ThroughFile(fs, dir + [rel[0]], rel[1..]) <==> ThroughFile(fs, dir, rel)
  {
    var q := dir + [rel[0]];
    assert q + rel[1..] == dir + rel;
    if ThroughFile(fs, q, rel[1..]) {
      var k :| FileAmong(fs, q, rel[1..], k);
      ShiftOut(fs, dir, rel, k);
    }
    if ThroughFile(fs, dir, rel) {
      var k :| FileAmong(fs, dir, rel, k);
      ShiftIn(fs, dir, rel, k);
    }
  }

  lemma ShiftOut(fs: Tree, dir: Path, rel: seq<string>, k: int)
    requires rel != [] && FileAmong(fs, dir + [rel[0]], rel[1..], k)
    ensures FileAmong(fs, dir, rel, k + 1)
  {
    ShiftPrefix(dir, rel, k);
  }

  lemma ShiftIn(fs: Tree, dir: Path, rel: seq<string>, k: int)
    requires rel != [] && IsDir(fs, dir) && FileAmong(fs, dir, rel, k)
    ensures FileAmong(fs, dir + [rel[0]], rel[1..], k - 1)
  {
    assert k != 0 by { assert dir + rel[..0] == dir; }
    ShiftPrefix(dir, rel, k - 1);
  }

  lemma ShiftPrefix(dir: Path, rel: seq<string>, k: nat)
    requires k < |rel|
    ensures dir + [rel[0]] + rel[1..][..k] == dir + rel[..k + 1]
  {
    assert rel[..k + 1] == [rel[0]] + rel[1..][..k];
  }

  /** In a well-formed tree nothing lies below a missing entry or a regular file. */
  lemma AbsentBelow(fs: Tree, q: Path, p: Path)
    requires Valid(fs) && (q !in fs || (IsFile(fs, q) && |q| < |p|)) && |q| <= |p| && p[..|q|] == q
    ensures p !in fs
  {
    if |q| == |p| {
      assert p == p[..|q|];
    } else if p in fs {
      ValidPrefix(fs, p, |q|);
    }
  }

  /** A directory of a well-formed tree has no regular file among its prefixes. */
  lemma DirClear(fs: Tree, dir: Path)
    requires Valid(fs) && IsDir(fs, dir)
    ensures !Obstructed(fs, dir)
  {
    forall k | 0 <= k <= |dir| ensures !IsFile(fs, dir[..k]) {
      ValidPrefix(fs, dir, k);
      if k == |dir| {
        assert dir[..k] == dir;
      }
    }
  }

  /** The first name is a regular file: the walk ends there, or raises NotADirectoryError at the next name. */
  lemma StrictBelowFile(fs: Tree, dir: Path, rel: seq<string>)
    requires Valid(fs) && IsDir(fs, dir) && IsCanonical(rel) && rel != [] && IsFile(fs, dir + [rel[0]])
    ensures StrictNormalize(fs, dir, rel) ==
      if dir + rel in fs then Reached(dir + rel) else if ThroughFile(fs, dir, rel) then NotADir else Missing
  {
    var q := dir + [rel[0]];
    assert IsName(rel[0]);
    assert dir + rel[..1] == q;
    if |rel| == 1 {
      assert dir + rel == q;
      assert StrictNormalize(fs, q, rel[1..]) == Reached(q);
    } else {
      assert IsName(rel[1]);
      AbsentBelow(fs, q, q + [rel[1]]);
      assert q[..|q|] == q;
      assert Obstructed(fs, q);
      assert FileAmong(fs, dir, rel, 1);
      AbsentBelow(fs, q, dir + rel);
    }
  }

  /** The first name is missing: the walk raises FileNotFoundError, as nothing below it exists. */
  lemma StrictBelowMissing(fs: Tree, dir: Path, rel: seq<string>)
    requires Valid(fs) && IsDir(fs, dir) && IsCanonical(rel) && rel != [] && dir + [rel[0]] !in fs
    ensures StrictNormalize(fs, dir, rel) ==
      if dir + rel in fs then Reached(dir + rel) else if ThroughFile(fs, dir, rel) then NotADir else Missing
  {
    var q := dir + [rel[0]];
    assert IsName(rel[0]);
    DirClear(fs, dir);
    AbsentBelow(fs, q, dir + rel);
    forall k | 0 <= k < |rel| ensures !FileAmong(fs, dir, rel, k) {
      if k == 0 {
        assert dir + rel[..k] == dir;
      } else {
        AbsentBelow(fs, q, dir + rel[..k]);
      }
    }
  }
}
