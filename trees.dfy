/** The filesystem as the deployment code sees it: a finite map from canonical paths to entries, with the
    `os` and `shutil` operations it uses (`os.path.exists`, `os.makedirs`, `shutil.rmtree`, `shutil.copytree`). */
module Trees {
  import opened Common
  import opened Paths

  datatype Node = File(content: Bytes) | Dir

  /** Every entry of the filesystem, keyed by its canonical path; the root is `[]`. */
  type Tree = map<Path, Node>

  /** `p` is `root` or lies below it (path descent, segment by segment). */
  predicate Under(p: Path, root: Path)
  {
    |root| <= |p| && p[..|root|] == root
  }

  /** Neither path lies below the other. */
  predicate Disjoint(a: Path, b: Path)
  {
    !Under(a, b) && !Under(b, a)
  }

  predicate IsDir(t: Tree, p: Path)
  {
    p in t && t[p].Dir?
  }

  predicate IsFile(t: Tree, p: Path)
  {
    p in t && t[p].File?
  }

  function Parent(p: Path): Path
    requires p != []
  {
    p[..|p| - 1]
  }

  /** A well-formed tree: the root is a directory and every other entry sits in a directory. */
  predicate Valid(t: Tree)
  {
    IsDir(t, []) && forall p :: p in t && p != [] ==> IsDir(t, Parent(p))
  }

  /** Some prefix of `p`, `p` itself included, is a regular file, so no directory can be made at `p`. */
  predicate Obstructed(t: Tree, p: Path)
  {
    exists k :: 0 <= k <= |p| && IsFile(t, p[..k])
  }

  /** `t2` keeps every entry of `t1` as it was. */
  predicate Extends(t1: Tree, t2: Tree)
  {
    forall q :: q in t1 ==> q in t2 && t2[q] == t1[q]
  }

  /** Every missing prefix of `p` added as a directory. */
  function AddDirs(t: Tree, p: Path): (r: Tree)
    ensures Extends(t, r)
    ensures forall k :: 0 <= k <= |p| ==> p[..k] in r
    ensures forall q :: q in r && q !in t ==> Under(p, q) && r[q] == Dir
  {
    var added := map k | 0 <= k <= |p| && p[..k] !in t :: p[..k] := Dir;
    assert forall k :: 0 <= k <= |p| && p[..k] !in t ==> p[..k] in added;
    t + added
  }

  /** `os.makedirs(p, exist_ok=True)`: fails when a prefix of `p` (or `p`) is a regular file. */
  function MakeDirs(t: Tree, p: Path): (r: Result<Tree>)
    ensures r.Ok? <==> !Obstructed(t, p)
    ensures r.Ok? ==> IsDir(r.value, p) && Extends(t, r.value)
    ensures r.Ok? ==> forall q :: q in r.value && q !in t ==> Under(p, q)
  {
    if Obstructed(t, p) then Err
    else
      var r := AddDirs(t, p);
      assert p[..|p|] == p;
      Ok(r)
  }

  /** Making the directories of an unobstructed path keeps a tree well formed. */
  lemma MakeDirsValid(t: Tree, p: Path)
    requires Valid(t) && !Obstructed(t, p)
    ensures Valid(AddDirs(t, p))
  {
    var r := AddDirs(t, p);
    assert p[..0] == [];
    forall q | q in r && q != [] ensures IsDir(r, Parent(q)) {
      if q !in t {
        var k := |q|;
        assert q == p[..k];
        assert Parent(q) == p[..k - 1];
        if Parent(q) in t {
          assert !IsFile(t, p[..k - 1]);
        }
      }
    }
  }

  /** The entries left once the subtree at `p` is deleted. */
  function RemoveTree(t: Tree, p: Path): (r: Tree)
    ensures forall q :: q in r <==> q in t && !Under(q, p)
    ensures Extends(r, t)
  {
    map q | q in t && !Under(q, p) :: t[q]
  }

  lemma RemoveTreeValid(t: Tree, p: Path)
    requires Valid(t) && p != []
    ensures Valid(RemoveTree(t, p))
  {
  }

  /** `shutil.rmtree(p)`: fails on a missing path, a regular file, or the root, which cannot be removed. */
  function RmTree(t: Tree, p: Path): (r: Result<Tree>)
    ensures r.Ok? <==> IsDir(t, p) && p != []
    ensures r.Ok? ==> forall q :: q in r.value <==> q in t && !Under(q, p)
  {
    if IsDir(t, p) && p != [] then Ok(RemoveTree(t, p)) else Err
  }

  lemma RerootInjective(src: Path, dst: Path)
    ensures forall q1, q2 :: Under(q1, src) && Under(q2, src) && dst + q1[|src|..] == dst + q2[|src|..] ==> q1 == q2
  {
    forall q1, q2 | Under(q1, src) && Under(q2, src) && dst + q1[|src|..] == dst + q2[|src|..] ensures q1 == q2 {
      assert q1[|src|..] == (dst + q1[|src|..])[|dst|..];
      assert q2[|src|..] == (dst + q2[|src|..])[|dst|..];
      assert q1 == src + q1[|src|..];
      assert q2 == src + q2[|src|..];
    }
  }

  /** The subtree at `src`, moved to `dst`. */
  function Reroot(t: Tree, src: Path, dst: Path): Tree
  {
    RerootInjective(src, dst);
    map q | q in t && Under(q, src) :: dst + q[|src|..] := t[q]
  }

  /** What the moved subtree holds at each relative path. */
  lemma RerootAt(t: Tree, src: Path, dst: Path, r: Path)
    ensures dst + r in Reroot(t, src, dst) <==> src + r in t
    ensures src + r in t ==> Reroot(t, src, dst)[dst + r] == t[src + r]
  {
    if src + r in t {
      assert (src + r)[|src|..] == r;
      assert Under(src + r, src);
      var q := src + r;
      assert dst + q[|src|..] == dst + r;
      RerootInjective(src, dst);
    }
    if dst + r in Reroot(t, src, dst) {
      var q :| q in t && Under(q, src) && dst + q[|src|..] == dst + r;
      assert q[|src|..] == (dst + q[|src|..])[|dst|..] == r;
      assert q == src + r;
    }
  }

  /** Every key of the moved subtree lies below `dst`. */
  lemma RerootUnder(t: Tree, src: Path, dst: Path, p: Path)
    requires p in Reroot(t, src, dst)
    ensures Under(p, dst) && src + p[|dst|..] in t
  {
    var q :| q in t && Under(q, src) && p == dst + q[|src|..];
    assert p[..|dst|] == dst;
    assert p[|dst|..] == q[|src|..];
    assert src + q[|src|..] == q;
  }

  /** `shutil.copytree(src, dst)`: the source must be a directory and `dst` must not exist yet; the missing
      parents of `dst` are created. */
  function CopyTree(t: Tree, src: Path, dst: Path): (r: Result<Tree>)
    ensures r.Ok? <==> IsDir(t, src) && dst !in t && !Obstructed(t, dst)
  {
    if IsDir(t, src) && dst !in t && !Obstructed(t, dst) then Ok(AddDirs(t, dst) + Reroot(t, src, dst)) else Err
  }

  /** Copying a directory of a well-formed tree to an unobstructed place keeps the tree well formed. */
  lemma CopyTreeValid(t: Tree, src: Path, dst: Path)
    requires Valid(t) && IsDir(t, src) && dst !in t && !Obstructed(t, dst)
    ensures Valid(CopyTree(t, src, dst).value)
  {
    GraftValid(t, t, src, dst);
  }

  /** Grafting a directory of a well-formed tree `s` onto an unobstructed place of a well-formed tree `t`
      (missing parents made, then the subtree moved in) gives a well-formed tree. */
  lemma GraftValid(t: Tree, s: Tree, src: Path, dst: Path)
    requires Valid(t) && Valid(s) && IsDir(s, src) && dst !in t && !Obstructed(t, dst)
    ensures Valid(AddDirs(t, dst) + Reroot(s, src, dst))
  {
    MakeDirsValid(t, dst);
    var a := AddDirs(t, dst);
    var m := Reroot(s, src, dst);
    var r := a + m;
    forall p | p in r && p != [] ensures IsDir(r, Parent(p)) {
      if p in m {
        CopiedParent(t, s, src, dst, p);
      } else {
        AddedParent(t, s, src, dst, p);
      }
    }
    assert [] in a;
    assert [] !in m by {
      if [] in m {
        RerootUnder(s, src, dst, []);
      }
    }
  }

  /** The parent of a copied entry is a directory after the copy. */
  lemma CopiedParent(t: Tree, s: Tree, src: Path, dst: Path, p: Path)
    requires Valid(t) && Valid(s) && IsDir(s, src) && dst !in t && !Obstructed(t, dst)
    requires p in Reroot(s, src, dst) && p != []
    ensures IsDir(AddDirs(t, dst) + Reroot(s, src, dst), Parent(p))
  {
    RerootUnder(s, src, dst, p);
    if p == dst {
      DstParent(t, s, src, dst);
    } else {
      CopiedBelowParent(AddDirs(t, dst), s, src, dst, p);
    }
  }

  lemma CopiedBelowParent(a: Tree, s: Tree, src: Path, dst: Path, p: Path)
    requires Valid(s) && Under(p, dst) && p != dst && src + p[|dst|..] in s
    ensures IsDir(a + Reroot(s, src, dst), Parent(p))
  {
    var rel := p[|dst|..];
    assert p == dst + rel;
    assert Parent(p) == dst + rel[..|rel| - 1];
    CopiedInnerParent(s, src, dst, rel);
    UnionDir(a, Reroot(s, src, dst), Parent(p));
  }

  lemma UnionDir(a: Tree, m: Tree, x: Path)
    requires IsDir(m, x)
    ensures IsDir(a + m, x)
  {
  }

  lemma CopiedInnerParent(s: Tree, src: Path, dst: Path, rel: Path)
    requires Valid(s) && rel != [] && src + rel in s
    ensures IsDir(Reroot(s, src, dst), dst + rel[..|rel| - 1])
  {
    var prel := rel[..|rel| - 1];
    assert Parent(src + rel) == src + prel;
    RerootAt(s, src, dst, prel);
  }

  /** The parent of the copy's root is a directory that the copy does not overwrite. */
  lemma DstParent(t: Tree, s: Tree, src: Path, dst: Path)
    requires Valid(t) && dst !in t && !Obstructed(t, dst) && dst != []
    ensures IsDir(AddDirs(t, dst) + Reroot(s, src, dst), Parent(dst))
  {
    var a := AddDirs(t, dst);
    var m := Reroot(s, src, dst);
    assert Parent(dst) == dst[..|dst| - 1];
    assert Parent(dst) in a;
    if Parent(dst) in t {
      assert !IsFile(t, dst[..|dst| - 1]);
    }
    if Parent(dst) in m {
      RerootUnder(s, src, dst, Parent(dst));
    }
  }

  /** The parent of an entry that the copy did not write is a directory after the copy. */
  lemma AddedParent(t: Tree, s: Tree, src: Path, dst: Path, p: Path)
    requires Valid(t) && dst !in t && !Obstructed(t, dst)
    requires Valid(AddDirs(t, dst))
    requires p in AddDirs(t, dst) && p !in Reroot(s, src, dst) && p != []
    ensures IsDir(AddDirs(t, dst) + Reroot(s, src, dst), Parent(p))
  {
    var m := Reroot(s, src, dst);
    if Parent(p) in m {
      RerootUnder(s, src, dst, Parent(p));
      assert Under(p, dst);
      if p in t {
        var k := |dst|;
        assert p[..k] == dst;
        ValidPrefix(t, p, k);
      }
    }
  }

  /** In a well-formed tree every prefix of an entry is an entry. */
  lemma {:induction false} ValidPrefix(t: Tree, p: Path, k: nat)
    requires Valid(t) && p in t && k <= |p|
    ensures IsDir(t, p[..k]) || (k == |p| && IsFile(t, p))
    decreases |p| - k
  {
    if k < |p| {
      var q := p[..k + 1];
      if k + 1 == |p| {
        assert q == p;
      } else {
        ValidPrefix(t, p, k + 1);
      }
      assert q in t && q != [];
      assert IsDir(t, Parent(q));
      assert Parent(q) == p[..k];
    } else {
      assert p[..k] == p;
    }
  }

  /** The relative paths of the directories strictly below `src`. */
  function RelDirs(t: Tree, src: Path): set<Path>
  {
    set q | q in t && Under(q, src) && q != src && t[q].Dir? :: q[|src|..]
  }

  /** The relative paths of the regular files strictly below `src`. */
  function RelFiles(t: Tree, src: Path): set<Path>
  {
    set q | q in t && Under(q, src) && q != src && t[q].File? :: q[|src|..]
  }

  lemma RelMembers(t: Tree, src: Path, r: Path)
    ensures r in RelDirs(t, src) <==> r != [] && IsDir(t, src + r)
    ensures r in RelFiles(t, src) <==> r != [] && IsFile(t, src + r)
  {
    if r != [] && src + r in t {
      assert (src + r)[|src|..] == r;
      assert Under(src + r, src);
    }
    if r in RelDirs(t, src) {
      var q :| q in t && Under(q, src) && q != src && t[q].Dir? && r == q[|src|..];
      assert q == src + r;
    }
    if r in RelFiles(t, src) {
      var q :| q in t && Under(q, src) && q != src && t[q].File? && r == q[|src|..];
      assert q == src + r;
    }
  }

  /** `rs` lists every element of `s` exactly once: one order in which a directory walk may visit them. */
  predicate Enumerates(rs: seq<Path>, s: set<Path>)
  {
    (forall i :: 0 <= i < |rs| ==> rs[i] in s) &&
    (forall x :: x in s ==> x in rs) &&
    (forall i, j :: 0 <= i < j < |rs| ==> rs[i] != rs[j])
  }

  /** The listing of a directory: the entries of `s`, each once, in an order the model does not fix. */
  method EnumerateSet(s: set<Path>) returns (rs: seq<Path>)
    ensures Enumerates(rs, s)
  {
    rs := [];
    var left := s;
    while left != {}
      invariant left <= s
      invariant forall i :: 0 <= i < |rs| ==> rs[i] in s && rs[i] !in left
      invariant forall x :: x in s && x !in left ==> x in rs
      invariant forall i, j :: 0 <= i < j < |rs| ==> rs[i] != rs[j]
      decreases |left|
    {
      var x :| x in left;
      rs := rs + [x];
      left := left - {x};
    }
  }
}
