/** Path strings as the Python standard library handles them: `str.split`, `str.join`, `os.path.join`,
    `os.path.abspath`, and a lexical stand-in for `Path.resolve` (no symbolic links). */
module Paths {

  /** A path as its list of segments; a canonical path is absolute, so "/srv/a" is ["srv", "a"] and "/" is []. */
  type Path = seq<string>

  predicate StartsWith(s: string, prefix: string)
  {
    |prefix| <= |s| && s[..|prefix|] == prefix
  }

  predicate EndsWith(s: string, suffix: string)
  {
    |suffix| <= |s| && s[|s| - |suffix|..] == suffix
  }

  /** Whether `sep` occurs somewhere in `s`. */
  predicate Occurs(s: string, sep: string)
  {
    exists i :: 0 <= i <= |s| && StartsWith(s[i..], sep)
  }

  /** `s.split(sep)`: the pieces between the non-overlapping occurrences of `sep`, scanning left to right. */
  function SplitOn(s: string, sep: string): (r: seq<string>)
    requires sep != ""
    ensures |r| >= 1
    decreases |s|
  {
    if |s| < |sep| then [s]
    else if s[..|sep|] == sep then [""] + SplitOn(s[|sep|..], sep)
    else
      var rest := SplitOn(s[1..], sep);
      [[s[0]] + rest[0]] + rest[1..]
  }

  /** No piece of a split on a one-character separator contains that character. */
  lemma {:induction false} SplitPiecesLackSep(s: string, c: char)
    ensures forall i :: 0 <= i < |SplitOn(s, [c])| ==> c !in SplitOn(s, [c])[i]
    decreases |s|
  {
    if |s| >= 1 {
      SplitPiecesLackSep(s[1..], c);
      if s[..1] != [c] {
        var rest := SplitOn(s[1..], [c]);
        assert s[0] != c by {
          assert s[..1] == [s[0]];
        }
        assert c !in [s[0]] + rest[0];
      }
    }
  }

  /** `sep.join(parts)`. */
  function JoinOn(parts: seq<string>, sep: string): string
  {
    if |parts| == 0 then ""
    else if |parts| == 1 then parts[0]
    else parts[0] + sep + JoinOn(parts[1..], sep)
  }

  lemma JoinOnCons(a: string, rest: seq<string>, sep: string)
    requires |rest| >= 1
    ensures JoinOn([a] + rest, sep) == a + sep + JoinOn(rest, sep)
  {
    assert ([a] + rest)[1..] == rest;
  }

  /** Joining the pieces of a split with the same separator gives the string back. */
  lemma {:induction false} JoinOfSplit(s: string, sep: string)
    requires sep != ""
    ensures JoinOn(SplitOn(s, sep), sep) == s
    decreases |s|
  {
    if |s| < |sep| {
    } else if s[..|sep|] == sep {
      JoinOfSplit(s[|sep|..], sep);
      JoinAtSep(s, sep, SplitOn(s[|sep|..], sep));
    } else {
      JoinOfSplit(s[1..], sep);
      JoinAtChar(s, sep, SplitOn(s[1..], sep));
    }
  }

  lemma JoinAtSep(s: string, sep: string, rest: seq<string>)
    requires sep != "" && |sep| <= |s| && s[..|sep|] == sep
    requires rest == SplitOn(s[|sep|..], sep) && JoinOn(rest, sep) == s[|sep|..]
    ensures JoinOn(SplitOn(s, sep), sep) == s
  {
    calc {
      JoinOn(SplitOn(s, sep), sep);
      == { SplitAtSep(s, sep); }
      JoinOn([""] + rest, sep);
      == { JoinAfterEmpty(rest, sep); }
      sep + s[|sep|..];
      == { assert s == s[..|sep|] + s[|sep|..]; }
      s;
    }
  }

  lemma SplitAtSep(s: string, sep: string)
    requires sep != "" && |sep| <= |s| && s[..|sep|] == sep
    ensures SplitOn(s, sep) == [""] + SplitOn(s[|sep|..], sep)
  {
  }

  lemma JoinAfterEmpty(rest: seq<string>, sep: string)
    requires |rest| >= 1
    ensures JoinOn([""] + rest, sep) == sep + JoinOn(rest, sep)
  {
    JoinOnCons("", rest, sep);
  }

  lemma JoinAtChar(s: string, sep: string, rest: seq<string>)
    requires sep != "" && |sep| <= |s| && s[..|sep|] != sep
    requires rest == SplitOn(s[1..], sep) && JoinOn(rest, sep) == s[1..]
    ensures JoinOn(SplitOn(s, sep), sep) == s
  {
    calc {
      JoinOn(SplitOn(s, sep), sep);
      == { assert SplitOn(s, sep) == [[s[0]] + rest[0]] + rest[1..]; }
      JoinOn([[s[0]] + rest[0]] + rest[1..], sep);
      == { JoinPrepend(s[0], rest, sep); }
      [s[0]] + s[1..];
      == { assert [s[0]] + s[1..] == s; }
      s;
    }
  }

  /** Prepending a character to the first part prepends it to the join. */
  lemma JoinPrepend(c: char, parts: seq<string>, sep: string)
    requires |parts| >= 1
    ensures JoinOn([[c] + parts[0]] + parts[1..], sep) == [c] + JoinOn(parts, sep)
  {
    var r := [[c] + parts[0]] + parts[1..];
    if |parts| >= 2 {
      JoinOnCons(parts[0], parts[1..], sep);
      assert parts == [parts[0]] + parts[1..];
      JoinOnCons([c] + parts[0], parts[1..], sep);
    }
  }

  /** A string without the (one-character) separator splits into itself alone. */
  lemma {:induction false} SplitWithoutSep(s: string, c: char)
    requires c !in s
    ensures SplitOn(s, [c]) == [s]
    decreases |s|
  {
    if |s| >= 1 {
      assert s[..1] == [s[0]];
      SplitWithoutSep(s[1..], c);
      assert [s[0]] + s[1..] == s;
    }
  }

  /** One step of a split on a one-character separator, when the string starts with it. */
  lemma SplitSepFirst(s: string, c: char)
    requires |s| >= 1 && s[0] == c
    ensures SplitOn(s, [c]) == [""] + SplitOn(s[1..], [c])
  {
    assert s[..1] == [c];
  }

  /** One step of a split on a one-character separator, when the string starts with another character. */
  lemma SplitOtherFirst(s: string, c: char, rest: seq<string>)
    requires |s| >= 1 && s[0] != c && rest == SplitOn(s[1..], [c])
    ensures SplitOn(s, [c]) == [[s[0]] + rest[0]] + rest[1..]
  {
    assert s[..1] != [c] by { assert s[..1][0] != c; }
  }

  /** Splitting on a one-character separator distributes over an occurrence of it. */
  lemma {:induction false} SplitAround(a: string, c: char, b: string)
    ensures SplitOn(a + [c] + b, [c]) == SplitOn(a, [c]) + SplitOn(b, [c])
    decreases |a|
  {
    var s := a + [c] + b;
    if a == [] {
      assert s[0] == c && s[1..] == b;
      SplitSepFirst(s, c);
    } else {
      var s1 := a[1..] + [c] + b;
      assert s[0] == a[0] && s[1..] == s1;
      SplitAround(a[1..], c, b);
      SplitAroundStep(a, c, b, s1, SplitOn(a[1..], [c]), SplitOn(b, [c]));
    }
  }

  lemma SplitAroundStep(a: string, c: char, b: string, s1: string, ra: seq<string>, rb: seq<string>)
    requires |a| >= 1 && s1 == (a + [c] + b)[1..] && ra == SplitOn(a[1..], [c])
    requires SplitOn(s1, [c]) == ra + rb
    ensures SplitOn(a + [c] + b, [c]) == SplitOn(a, [c]) + rb
  {
    var s := a + [c] + b;
    assert s[0] == a[0];
    if a[0] == c {
      SplitSepFirst(s, c);
      SplitSepFirst(a, c);
    } else {
      SplitOtherFirst(s, c, ra + rb);
      SplitOtherFirst(a, c, ra);
      assert (ra + rb)[0] == ra[0];
      assert (ra + rb)[1..] == ra[1..] + rb;
    }
  }

  /** A string in which the separator's first character never occurs splits into itself alone. */
  lemma {:induction false} SplitAbsent(s: string, sep: string)
    requires sep != "" && sep[0] !in s
    ensures SplitOn(s, sep) == [s]
    decreases |s|
  {
    if |s| >= |sep| {
      assert s[..|sep|] != sep by { assert s[0] != sep[0]; }
      SplitAbsent(s[1..], sep);
      assert [s[0]] + s[1..] == s;
    }
  }

  /** Splitting at the first occurrence of the separator, when nothing before it holds the separator's first
      character. */
  lemma {:induction false} SplitAtFirst(a: string, sep: string, b: string)
    requires sep != "" && sep[0] !in a
    ensures SplitOn(a + sep + b, sep) == [a] + SplitOn(b, sep)
    decreases |a|
  {
    var s := a + sep + b;
    if a == [] {
      assert s[..|sep|] == sep;
      assert s[|sep|..] == b;
    } else {
      assert s[..|sep|] != sep by { assert s[0] == a[0] != sep[0]; }
      assert s[1..] == a[1..] + sep + b;
      SplitAtFirst(a[1..], sep, b);
      assert [a[0]] + a[1..] == a;
    }
  }

  /** Splitting a join on a one-character separator that no part contains gives the parts back. */
  lemma {:induction false} SplitOfJoin(parts: seq<string>, c: char)
    requires |parts| >= 1
    requires forall i :: 0 <= i < |parts| ==> c !in parts[i]
    ensures SplitOn(JoinOn(parts, [c]), [c]) == parts
    decreases |parts|
  {
    if |parts| == 1 {
      SplitWithoutSep(parts[0], c);
    } else {
      SplitOfJoin(parts[1..], c);
      SplitWithoutSep(parts[0], c);
      SplitAround(parts[0], c, JoinOn(parts[1..], [c]));
      assert parts == [parts[0]] + parts[1..];
    }
  }

  /** A character that is in no part and is not the separator is not in their join. */
  lemma {:induction false} NotInJoin(parts: seq<string>, c: char, d: char)
    requires c != d && forall i :: 0 <= i < |parts| ==> c !in parts[i]
    ensures c !in JoinOn(parts, [d])
    decreases |parts|
  {
    if |parts| > 1 {
      NotInJoin(parts[1..], c, d);
    }
  }

  /** `os.path.join(a, b)` on POSIX: an absolute `b` discards `a`; otherwise one '/' separates them. */
  function Join(a: string, b: string): string
  {
    if StartsWith(b, "/") then b
    else if a == "" || EndsWith(a, "/") then a + b
    else a + "/" + b
  }

  /** `os.path.join(a, *parts)`. */
  function JoinAll(a: string, parts: seq<string>): string
    decreases |parts|
  {
    if parts == [] then a else JoinAll(Join(a, parts[0]), parts[1..])
  }

  /** A segment of a canonical path. */
  predicate IsName(n: string)
  {
    n != "" && n != "." && n != ".." && '/' !in n
  }

  predicate IsCanonical(p: Path)
  {
    forall i :: 0 <= i < |p| ==> IsName(p[i])
  }

  /** `posixpath.normpath` applied segment by segment to `acc`: empty and "." segments vanish, ".." drops the
      last segment and never climbs above the root. */
  function Normalize(acc: Path, segs: seq<string>): (r: Path)
    ensures IsCanonical(acc) && (forall i :: 0 <= i < |segs| ==> '/' !in segs[i]) ==> IsCanonical(r)
    decreases |segs|
  {
    if segs == [] then acc
    else
      var s := segs[0];
      var next := if s == "" || s == "." then acc
                  else if s == ".." then (if acc == [] then [] else acc[..|acc| - 1])
                  else acc + [s];
      Normalize(next, segs[1..])
  }

  /** The path `os.path.abspath(s)` names, and `Path(s).resolve()` without symbolic links: a relative `s` starts
      from `cwd`. */
  function Canonical(cwd: Path, s: string): (r: Path)
    ensures IsCanonical(cwd) ==> IsCanonical(r)
  {
    SplitPiecesLackSep(s, '/');
    assert "/" == ['/'];
    Normalize(if StartsWith(s, "/") then [] else cwd, SplitOn(s, "/"))
  }

  /** `str(path)` of a canonical path: "/" for the root, "/a/b" otherwise. */
  function Render(p: Path): string
  {
    "/" + JoinOn(p, "/")
  }

  /** Whether `posixpath.normpath` keeps two slashes at the root of `s`: it starts with exactly two. */
  predicate DoubleRoot(s: string)
  {
    |s| >= 2 && s[0] == '/' && s[1] == '/' && (|s| == 2 || s[2] != '/')
  }

  /** What `normpath` writes before the rendered path: one more '/' for a two-slash root. */
  function Lead(double: bool): string
  {
    if double then "/" else ""
  }

  /** `os.path.abspath(s)` as a string: the canonical path rendered, behind the second slash POSIX keeps for a
      string starting with exactly two (three or more collapse to one). The kernel reads "//" as "/", so the
      string names the canonical path of `s`, and it keeps `s`'s kind of root. */
  function AbsPath(cwd: Path, s: string): (r: string)
    ensures IsCanonical(cwd) ==> Canonical(cwd, r) == Canonical(cwd, s)
    ensures IsCanonical(cwd) ==> (DoubleRoot(r) <==> DoubleRoot(s))
  {
    var c := Canonical(cwd, s);
    if IsCanonical(cwd) then
      LeadRoot(c);
      if DoubleRoot(s) then ExtraSlash(cwd, Render(c)); CanonicalOfRender(cwd, c); Lead(true) + Render(c)
      else CanonicalOfRender(cwd, c); assert Lead(false) + Render(c) == Render(c); Lead(false) + Render(c)
    else Lead(DoubleRoot(s)) + Render(c)
  }

  /** A rendered canonical path has a one-slash root, and one more '/' makes it a two-slash root. */
  lemma LeadRoot(c: Path)
    requires IsCanonical(c)
    ensures DoubleRoot(Lead(true) + Render(c)) && !DoubleRoot(Lead(false) + Render(c))
  {
    var r := Render(c);
    assert r[0] == '/';
    if c != [] {
      JoinOnHead(c);
      assert IsName(c[0]);
      assert r[1] == c[0][0];
      assert ("/" + r)[2] == c[0][0];
    }
  }

  /** One more '/' before an absolute path string names the same path. */
  lemma ExtraSlash(cwd: Path, t: string)
    requires StartsWith(t, "/")
    ensures Canonical(cwd, "/" + t) == Canonical(cwd, t)
  {
    var u := "/" + t;
    assert "/" == ['/'];
    SplitSepFirst(u, '/');
    assert u[1..] == t;
    assert StartsWith(u, "/") by { assert u[..1] == "/"; }
    var xs := SplitOn(t, "/");
    assert ([""] + xs)[0] == "" && ([""] + xs)[1..] == xs;
  }

  /** Joining onto a two-slash root names what joining onto the one-slash root names. */
  lemma JoinExtraSlash(cwd: Path, r: string, n: string)
    requires StartsWith(r, "/")
    ensures Canonical(cwd, Join("/" + r, n)) == Canonical(cwd, Join(r, n))
  {
    if !StartsWith(n, "/") {
      var rr := "/" + r;
      SlashEnd(r);
      SlashEnd(rr);
      assert rr[|rr| - 1] == r[|r| - 1];
      assert rr + n == "/" + (r + n);
      assert rr + "/" + n == "/" + (r + "/" + n);
      assert Join(rr, n) == "/" + Join(r, n);
      assert Join(r, n)[..1] == r[..1];
      ExtraSlash(cwd, Join(r, n));
    }
  }

  /** Joining a relative name onto an absolute path string keeps its kind of root. */
  lemma JoinKeepsRoot(r: string, n: string)
    requires StartsWith(r, "/") && n != "" && n[0] != '/'
    ensures DoubleRoot(Join(r, n)) <==> DoubleRoot(r)
  {
    var j := Join(r, n);
    NotAbsolute(n);
    SlashEnd(r);
    var mid := if r[|r| - 1] == '/' then "" else "/";
    assert j == r + mid + n;
    assert j[0] == r[0];
    if |r| >= 3 {
      assert j[1] == r[1] && j[2] == r[2];
    } else if |r| == 2 {
      assert j[1] == r[1];
      if r[1] == '/' {
        assert j[2] == n[0];
      }
    } else {
      assert j[1] == n[0];
    }
  }

  /** The string-prefix test between two `abspath` strings: below a path other than the root, it needs the
      same kind of root on both sides, and then it is the test between the rendered paths. */
  lemma LeadPrefix(f: Path, root: Path, a: bool, b: bool)
    requires IsCanonical(f) && IsCanonical(root) && root != []
    ensures StartsWith(Lead(a) + Render(f), Lead(b) + Render(root)) <==> a == b && StartsWith(Render(f), Render(root))
  {
    var x, y := Lead(a) + Render(f), Lead(b) + Render(root);
    JoinOnHead(root);
    assert IsName(root[0]);
    assert y[1] == '/' <==> b;
    if StartsWith(x, y) {
      assert x[1] == y[1];
      assert x[1] == '/' <==> a by {
        if !a {
          assert f != [];
          JoinOnHead(f);
          assert IsName(f[0]);
        }
      }
    }
    if a == b {
      StartsWithBoth(Lead(a), Render(f), Render(root));
    }
  }

  lemma {:induction false} NormalizeNames(acc: Path, segs: seq<string>)
    requires IsCanonical(segs)
    ensures Normalize(acc, segs) == acc + segs
    decreases |segs|
  {
    if segs != [] {
      NormalizeNames(acc + [segs[0]], segs[1..]);
      assert acc + [segs[0]] + segs[1..] == acc + segs;
    }
  }

  lemma {:induction false} NormalizeAppend(acc: Path, xs: seq<string>, ys: seq<string>)
    ensures Normalize(acc, xs + ys) == Normalize(Normalize(acc, xs), ys)
    decreases |xs|
  {
    if xs != [] {
      assert (xs + ys)[0] == xs[0];
      assert (xs + ys)[1..] == xs[1..] + ys;
      var s := xs[0];
      var next := if s == "" || s == "." then acc
                  else if s == ".." then (if acc == [] then [] else acc[..|acc| - 1])
                  else acc + [s];
      NormalizeAppend(next, xs[1..], ys);
    } else {
      assert xs + ys == ys;
    }
  }

  /** Rendering and canonicalising are inverse: the string of a canonical path canonicalises to that path. */
  lemma CanonicalOfRender(cwd: Path, p: Path)
    requires IsCanonical(p)
    ensures Canonical(cwd, Render(p)) == p
  {
    var s := Render(p);
    assert s[..1] == "/";
    assert s[1..] == JoinOn(p, "/");
    assert SplitOn(s, "/") == [""] + SplitOn(JoinOn(p, "/"), "/");
    if p == [] {
      assert SplitOn("", "/") == [""];
      assert SplitOn(s, "/") == ["", ""];
      assert Normalize([], ["", ""]) == Normalize([], [""]) == Normalize([], []);
    } else {
      SplitOfJoin(p, '/');
      NormalizeNames([], p);
    }
  }

  /** Joining a plain name onto a path string appends exactly that segment to its canonical form. */
  lemma JoinName(cwd: Path, a: string, n: string)
    requires IsName(n)
    ensures Canonical(cwd, Join(a, n)) == Canonical(cwd, a) + [n]
  {
    assert !StartsWith(n, "/") by { assert n[0] != '/'; }
    SplitWithoutSep(n, '/');
    if a == "" {
      JoinNameEmpty(cwd, n);
    } else if EndsWith(a, "/") {
      JoinNameSlash(cwd, a, n);
    } else {
      JoinNamePlain(cwd, a, n);
    }
  }

  lemma JoinNameEmpty(cwd: Path, n: string)
    requires IsName(n) && !StartsWith(n, "/") && SplitOn(n, "/") == [n]
    ensures Canonical(cwd, Join("", n)) == Canonical(cwd, "") + [n]
  {
    assert Join("", n) == n;
    assert SplitOn("", "/") == [""];
    assert Canonical(cwd, "") == Normalize(cwd, [""]) == Normalize(cwd, []) == cwd;
    NormalizeNames(cwd, [n]);
  }

  lemma JoinNameSlash(cwd: Path, a: string, n: string)
    requires IsName(n) && !StartsWith(n, "/") && SplitOn(n, "/") == [n]
    requires a != "" && EndsWith(a, "/")
    ensures Canonical(cwd, Join(a, n)) == Canonical(cwd, a) + [n]
  {
    var a' := a[..|a| - 1];
    assert a == a' + "/" + "";
    assert Join(a, n) == a' + "/" + n;
    SplitAround(a', '/', n);
    SplitAround(a', '/', "");
    assert StartsWith(a + n, "/") == StartsWith(a, "/");
    var base := if StartsWith(a, "/") then [] else cwd;
    NormalizeAppend(base, SplitOn(a', "/"), [n]);
    NormalizeAppend(base, SplitOn(a', "/"), [""]);
    var m := Normalize(base, SplitOn(a', "/"));
    assert Normalize(m, [""]) == m;
    NormalizeNames(m, [n]);
  }

  lemma JoinNamePlain(cwd: Path, a: string, n: string)
    requires IsName(n) && !StartsWith(n, "/") && SplitOn(n, "/") == [n]
    requires a != "" && !EndsWith(a, "/")
    ensures Canonical(cwd, Join(a, n)) == Canonical(cwd, a) + [n]
  {
    assert Join(a, n) == a + "/" + n;
    SplitAround(a, '/', n);
    assert StartsWith(a + "/" + n, "/") == StartsWith(a, "/");
    var base := if StartsWith(a, "/") then [] else cwd;
    NormalizeAppend(base, SplitOn(a, "/"), [n]);
    NormalizeNames(Normalize(base, SplitOn(a, "/")), [n]);
  }

  /** Joining plain names one by one appends exactly those segments to the canonical form. */
  lemma {:induction false} JoinAllNames(cwd: Path, a: string, rel: seq<string>)
    requires IsCanonical(rel)
    ensures Canonical(cwd, JoinAll(a, rel)) == Canonical(cwd, a) + rel
    decreases |rel|
  {
    if rel != [] {
      var a1 := Join(a, rel[0]);
      JoinName(cwd, a, rel[0]);
      JoinAllNames(cwd, a1, rel[1..]);
      AppendCons(Canonical(cwd, a), rel, Canonical(cwd, a1), Canonical(cwd, JoinAll(a1, rel[1..])));
    }
  }

  lemma AppendCons(c: Path, rel: seq<string>, c1: Path, r: Path)
    requires rel != [] && c1 == c + [rel[0]] && r == c1 + rel[1..]
    ensures r == c + rel
  {
    assert c + [rel[0]] + rel[1..] == c + rel;
  }

  /** For canonical paths with `b` not the root, `str(p).startswith(str(b))` holds exactly when `p` agrees with
      `b` on all but `b`'s last segment and `p`'s segment at that position merely begins with `b`'s last one.
      This is the string-prefix containment test, which accepts siblings such as "/srv/data2" for "/srv/data". */
  lemma RenderPrefix(p: Path, b: Path)
    requires IsCanonical(p) && IsCanonical(b) && b != []
    ensures StartsWith(Render(p), Render(b)) <==>
      |b| <= |p| && p[..|b| - 1] == b[..|b| - 1] && StartsWith(p[|b| - 1], b[|b| - 1])
  {
    var x, y := JoinOn(p, "/"), JoinOn(b, "/");
    StartsWithBoth("/", x, y);
    if p == [] {
      JoinOnHead(b);
      assert IsName(b[0]);
    } else {
      JoinPrefix(p, b);
    }
  }

  /** A common prefix can be dropped from both sides of a prefix test. */
  lemma StartsWithBoth(a: string, x: string, y: string)
    ensures StartsWith(a + x, a + y) <==> StartsWith(x, y)
  {
    if StartsWith(x, y) {
      assert (a + x)[..|a| + |y|] == a + x[..|y|];
    }
    if StartsWith(a + x, a + y) {
      assert x[..|y|] == (a + x)[|a|..|a| + |y|];
    }
  }

  /** Two strings each made of a segment followed by nothing or by '/' and more: when one begins with the other,
      the first segment begins with the other's, and when the other goes on past its segment, the segments are
      equal and the remainders begin with one another. */
  lemma HeadAlign(p0: string, tx: string, b0: string, ty: string)
    requires '/' !in p0 && '/' !in b0
    requires tx == "" || tx[0] == '/'
    requires ty == "" || ty[0] == '/'
    requires StartsWith(p0 + tx, b0 + ty)
    ensures StartsWith(p0, b0)
    ensures ty != "" ==> p0 == b0 && tx != "" && StartsWith(tx, ty)
  {
    var x, y := p0 + tx, b0 + ty;
    assert x[..|y|] == y;
    if tx == "" {
      assert x == p0;
    } else {
      forall i | 0 <= i < |b0| ensures x[i] != '/' {
        assert x[i] == y[i] == b0[i];
        assert b0[i] in b0;
      }
      assert x[|p0|] == '/';
    }
    assert |b0| <= |p0|;
    assert b0 == y[..|b0|] == x[..|b0|] == p0[..|b0|];
    if ty != "" {
      assert y[|b0|] == '/';
      assert x[|b0|] == '/';
      forall i | 0 <= i < |p0| ensures x[i] != '/' {
        assert x[i] == p0[i];
        assert p0[i] in p0;
      }
      assert |b0| == |p0|;
      assert tx[..|ty|] == x[|p0|..|y|] == y[|b0|..] == ty;
    }
  }

  lemma JoinOnHead(p: seq<string>)
    requires |p| >= 1
    ensures JoinOn(p, "/") == p[0] + (if |p| == 1 then "" else "/" + JoinOn(p[1..], "/"))
  {
  }

  lemma JoinPrefix(p: Path, b: Path)
    requires IsCanonical(p) && IsCanonical(b) && b != [] && p != []
    ensures StartsWith(JoinOn(p, "/"), JoinOn(b, "/")) <==>
      |b| <= |p| && p[..|b| - 1] == b[..|b| - 1] && StartsWith(p[|b| - 1], b[|b| - 1])
  {
    if StartsWith(JoinOn(p, "/"), JoinOn(b, "/")) {
      JoinPrefixOnly(p, b);
    }
    if |b| <= |p| && p[..|b| - 1] == b[..|b| - 1] && StartsWith(p[|b| - 1], b[|b| - 1]) {
      JoinPrefixIf(p, b);
    }
  }

  lemma {:induction false} JoinPrefixOnly(p: Path, b: Path)
    requires IsCanonical(p) && IsCanonical(b) && b != [] && p != []
    requires StartsWith(JoinOn(p, "/"), JoinOn(b, "/"))
    ensures |b| <= |p| && p[..|b| - 1] == b[..|b| - 1] && StartsWith(p[|b| - 1], b[|b| - 1])
    decreases |b|
  {
    JoinHeadAlign(p, b);
    if |b| >= 2 {
      JoinPrefixOnly(p[1..], b[1..]);
      PrefixCons(p, b);
    }
  }

  /** The first names of two joined canonical paths line up when one string starts with the other. */
  lemma JoinHeadAlign(p: Path, b: Path)
    requires IsCanonical(p) && IsCanonical(b) && b != [] && p != []
    requires StartsWith(JoinOn(p, "/"), JoinOn(b, "/"))
    ensures StartsWith(p[0], b[0])
    ensures |b| >= 2 ==> |p| >= 2 && p[0] == b[0] && StartsWith(JoinOn(p[1..], "/"), JoinOn(b[1..], "/"))
  {
    var p0, b0 := p[0], b[0];
    assert IsName(p0) && IsName(b0);
    var tx := if |p| == 1 then "" else "/" + JoinOn(p[1..], "/");
    var ty := if |b| == 1 then "" else "/" + JoinOn(b[1..], "/");
    JoinOnHead(p);
    JoinOnHead(b);
    HeadAlign(p0, tx, b0, ty);
    if |b| >= 2 {
      StartsWithBoth("/", JoinOn(p[1..], "/"), JoinOn(b[1..], "/"));
    }
  }

  lemma PrefixCons(p: Path, b: Path)
    requires |b| >= 2 && p != [] && p[0] == b[0] && |b| - 1 <= |p| - 1
    requires p[1..][..|b| - 2] == b[1..][..|b| - 2] && StartsWith(p[1..][|b| - 2], b[1..][|b| - 2])
    ensures |b| <= |p| && p[..|b| - 1] == b[..|b| - 1] && StartsWith(p[|b| - 1], b[|b| - 1])
  {
    assert p[..|b| - 1] == [p[0]] + p[1..][..|b| - 2];
    assert b[..|b| - 1] == [b[0]] + b[1..][..|b| - 2];
  }

  lemma PrefixTail(p: Path, b: Path)
    requires |b| >= 2 && |b| <= |p| && p[..|b| - 1] == b[..|b| - 1] && StartsWith(p[|b| - 1], b[|b| - 1])
    ensures p[0] == b[0] && |b[1..]| <= |p[1..]|
    ensures p[1..][..|b| - 2] == b[1..][..|b| - 2] && StartsWith(p[1..][|b| - 2], b[1..][|b| - 2])
  {
    assert p[0] == p[..|b| - 1][0];
    assert p[1..][..|b| - 2] == p[..|b| - 1][1..];
    assert b[1..][..|b| - 2] == b[..|b| - 1][1..];
  }

  lemma {:induction false} JoinPrefixIf(p: Path, b: Path)
    requires IsCanonical(p) && IsCanonical(b) && b != [] && p != []
    requires |b| <= |p| && p[..|b| - 1] == b[..|b| - 1] && StartsWith(p[|b| - 1], b[|b| - 1])
    ensures StartsWith(JoinOn(p, "/"), JoinOn(b, "/"))
    decreases |b|
  {
    var p0, b0 := p[0], b[0];
    var tx := if |p| == 1 then "" else "/" + JoinOn(p[1..], "/");
    var ty := if |b| == 1 then "" else "/" + JoinOn(b[1..], "/");
    JoinOnHead(p);
    JoinOnHead(b);
    if |b| == 1 {
      assert (p0 + tx)[..|b0|] == p0[..|b0|];
    } else {
      PrefixTail(p, b);
      JoinPrefixIf(p[1..], b[1..]);
      StartsWithBoth("/", JoinOn(p[1..], "/"), JoinOn(b[1..], "/"));
      StartsWithBoth(b0, tx, ty);
    }
  }

  /** Joining two non-empty lists puts one separator between their joins. */
  lemma {:induction false} JoinOnAppend(a: seq<string>, b: seq<string>, sep: string)
    requires a != [] && b != []
    ensures JoinOn(a + b, sep) == JoinOn(a, sep) + sep + JoinOn(b, sep)
    decreases |a|
  {
    if |a| == 1 {
      assert a + b == [a[0]] + b;
      JoinOnCons(a[0], b, sep);
    } else {
      JoinOnAppend(a[1..], b, sep);
      assert a + b == [a[0]] + (a[1..] + b);
      JoinOnCons(a[0], a[1..] + b, sep);
      assert a == [a[0]] + a[1..];
      JoinOnCons(a[0], a[1..], sep);
    }
  }

  /** The join of a non-empty canonical path neither starts nor ends with a '/'. */
  lemma JoinOnEnds(rel: Path)
    requires IsCanonical(rel) && rel != []
    ensures var j := JoinOn(rel, "/"); j != "" && j[0] != '/' && j[|j| - 1] != '/'
  {
    JoinOnHead(rel);
    assert IsName(rel[0]);
    if |rel| > 1 {
      JoinOnEnds(rel[1..]);
    }
  }

  /** A path string followed by '/'-joined plain names canonicalises to the path followed by those names. */
  lemma JoinBelow(cwd: Path, p: Path, rel: Path)
    requires IsCanonical(p) && IsCanonical(rel) && rel != []
    ensures Canonical(cwd, Join(Render(p), JoinOn(rel, "/"))) == p + rel
  {
    var j := JoinOn(rel, "/");
    JoinOnEnds(rel);
    assert !StartsWith(j, "/") by { assert j[..1][0] != '/'; }
    CanonicalAppend(p, rel);
    RenderBelow(p, rel);
    CanonicalOfRender(cwd, p + rel);
  }

  lemma RenderBelow(p: Path, rel: Path)
    requires IsCanonical(p) && IsCanonical(rel) && rel != []
    ensures Join(Render(p), JoinOn(rel, "/")) == Render(p + rel)
  {
    var j := JoinOn(rel, "/");
    JoinOnEnds(rel);
    if p == [] {
      JoinRelative("/", j);
      assert p + rel == rel;
    } else {
      var jp := JoinOn(p, "/");
      JoinOnEnds(p);
      JoinOnAppend(p, rel, "/");
      RootedJoin(jp, j);
    }
  }

  lemma RootedJoin(jp: string, j: string)
    requires jp != "" && jp[|jp| - 1] != '/' && j != "" && j[0] != '/'
    ensures Join("/" + jp, j) == "/" + (jp + "/" + j)
  {
    var rp := "/" + jp;
    assert rp[|rp| - 1] == jp[|jp| - 1];
    JoinRelative(rp, j);
    Concat3(rp, "/", j);
    Concat3("/", jp, "/" + j);
    Concat3(jp, "/", j);
  }

  /** A string whose first character is not '/' is a relative path. */
  lemma NotAbsolute(b: string)
    requires b != "" && b[0] != '/'
    ensures !StartsWith(b, "/")
  {
    assert b[..1][0] == b[0];
  }

  lemma SlashEnd(a: string)
    requires a != ""
    ensures EndsWith(a, "/") <==> a[|a| - 1] == '/'
  {
    assert a[|a| - 1..] == [a[|a| - 1]];
  }

  /** `os.path.join(a, b)` for a relative `b`: one '/' between them unless `a` is empty or already ends with
      one. */
  lemma JoinRelative(a: string, b: string)
    requires b != "" && b[0] != '/'
    ensures Join(a, b) == if a != "" && a[|a| - 1] != '/' then a + "/" + b else a + b
  {
    NotAbsolute(b);
    if a != "" {
      SlashEnd(a);
    }
  }

  /** Whatever follows a relative `b` follows its join. */
  lemma JoinRelativeTail(a: string, b: string, c: string)
    requires b != "" && b[0] != '/'
    ensures Join(a, b + c) == Join(a, b) + c
  {
    JoinRelative(a, b);
    JoinRelative(a, b + c);
    if a != "" && a[|a| - 1] != '/' {
      assert a + "/" + (b + c) == (a + "/" + b) + c;
    } else {
      assert a + (b + c) == (a + b) + c;
    }
  }

  lemma Concat3(a: string, b: string, c: string)
    ensures a + b + c == a + (b + c)
  {
  }

  lemma PathConcat3(a: Path, b: Path, c: Path)
    ensures a + b + c == a + (b + c)
  {
  }

  lemma StartsWithConcat(a: string, b: string)
    ensures StartsWith(a + b, a)
  {
    assert (a + b)[..|a|] == a;
  }

  /** The join with a relative `b` ends as `b` does. */
  lemma JoinRelativeLast(a: string, b: string)
    requires b != "" && b[0] != '/'
    ensures Join(a, b) != "" && Join(a, b)[|Join(a, b)| - 1] == b[|b| - 1]
  {
    JoinRelative(a, b);
  }

  lemma CanonicalAppend(p: Path, rel: Path)
    requires IsCanonical(p) && IsCanonical(rel)
    ensures IsCanonical(p + rel)
  {
    forall i | 0 <= i < |p + rel|
      ensures IsName((p + rel)[i])
    {
      if i >= |p| {
        assert (p + rel)[i] == rel[i - |p|];
      }
    }
  }

  /** A canonical path extended by plain names passes the string-prefix test against it. */
  lemma RenderAppendPrefix(b: Path, rel: Path)
    requires IsCanonical(b) && IsCanonical(rel)
    ensures StartsWith(Render(b + rel), Render(b))
  {
    CanonicalAppend(b, rel);
    if b != [] {
      RenderPrefix(b + rel, b);
      assert (b + rel)[..|b| - 1] == b[..|b| - 1];
    }
  }

  /** `os.path.join(a, *names)` spelled out: with `a` not ending in '/', the names follow it one '/' apart. */
  lemma {:induction false} JoinAllString(a: string, rel: Path)
    requires a != "" && a[|a| - 1] != '/' && IsCanonical(rel) && rel != []
    ensures JoinAll(a, rel) == a + "/" + JoinOn(rel, "/")
    decreases |rel|
  {
    var n := rel[0];
    assert IsName(n);
    JoinRelative(a, n);
    var a1 := a + "/" + n;
    JoinOnHead(rel);
    if |rel| > 1 {
      assert a1[|a1| - 1] == n[|n| - 1];
      JoinAllString(a1, rel[1..]);
      var r := JoinOn(rel[1..], "/");
      Concat3(a + "/", n, "/" + r);
      Concat3(a1, "/", r);
      Concat3(n, "/", r);
    }
  }

  /** Plain names walked below a relative `t` are `t` and the names, joined onto `home`. */
  lemma TargetWalk(home: string, t: string, rel: Path)
    requires IsCanonical(rel) && rel != [] && t != "" && t[0] != '/' && t[|t| - 1] != '/'
    ensures var x := t + "/" + JoinOn(rel, "/");
      x != "" && !StartsWith(x, "/") && JoinAll(Join(home, t), rel) == Join(home, x)
  {
    var j := JoinOn(rel, "/");
    var top := Join(home, t);
    JoinRelativeTail(home, t, "/" + j);
    JoinRelativeLast(home, t);
    JoinAllString(top, rel);
    Concat3(top, "/", j);
    Concat3(t, "/", j);
    NotAbsolute(t + "/" + j);
  }

  /** `full[len(prefix) + 1:]`: the path `full` with `prefix` and one separator cut off by length, whatever the
      characters cut. */
  function RelNameAsWritten(prefix: string, full: string): string
  {
    if |prefix| + 1 <= |full| then full[|prefix| + 1..] else ""
  }

  /** The path of `full` relative to `prefix`: `prefix` removed, then one '/' if one follows it. A `full` that
      does not start with `prefix` is left as it is. */
  function RelName(prefix: string, full: string): (r: string)
  {
    if !StartsWith(full, prefix) then full
    else
      var rest := full[|prefix|..];
      if StartsWith(rest, "/") then rest[1..] else rest
  }

  /** Whatever `prefix` is, the relative name of a relative path joined onto it is that path. */
  lemma RelNameOfJoin(prefix: string, x: string)
    requires x != "" && !StartsWith(x, "/")
    ensures RelName(prefix, Join(prefix, x)) == x
  {
    var full := Join(prefix, x);
    if prefix == "" || EndsWith(prefix, "/") {
      assert full == prefix + x;
      assert full[|prefix|..] == x;
    } else {
      assert full == prefix + ("/" + x);
      assert full[|prefix|..] == "/" + x;
    }
  }

  /** Cutting by length loses the first character of the relative path when `prefix` is empty or already ends
      with '/'. */
  lemma RelNameAsWrittenDrops(prefix: string, x: string)
    requires prefix == "" || EndsWith(prefix, "/")
    requires x != "" && !StartsWith(x, "/")
    ensures RelNameAsWritten(prefix, Join(prefix, x)) == x[1..]
    ensures RelNameAsWritten(prefix, Join(prefix, x)) != RelName(prefix, Join(prefix, x))
  {
    var full := Join(prefix, x);
    assert full == prefix + x;
    assert full[|prefix| + 1..] == x[1..];
    RelNameOfJoin(prefix, x);
    assert |x[1..]| != |x|;
  }

  /** With a non-empty `prefix` that does not end with '/', cutting by length is the relative name. */
  lemma RelNameAgrees(prefix: string, full: string)
    requires prefix != "" && !EndsWith(prefix, "/") && StartsWith(full, prefix + "/")
    ensures RelNameAsWritten(prefix, full) == RelName(prefix, full)
  {
    assert full[..|prefix|] == (prefix + "/")[..|prefix|] == prefix;
    assert full[|prefix|..][..1] == (prefix + "/")[|prefix|..];
    assert full[|prefix|..][1..] == full[|prefix| + 1..];
  }
}
