/** The two deployment policies of both server generations, as functions on the file tree.

    The "tutorial" policy replaces the target subtree by a copy of the source subtree. The "workspace" policy
    walks the source subtree and adds what is missing at the target, never overwriting anything. The order in
    which `os.walk` lists a directory is not known, so each walk takes its listing as an argument. The Pyramid
    walk visits files only and its properties hold for every listing. The Tornado walk is modelled as every
    directory before any file, in any order within each group; `os.walk`'s own order, each directory's
    subdirectories and then its files, is not one of these. */
module Policies {
  import opened Common
  import opened Paths
  import opened Trees

  /** `if os.path.exists(dst): shutil.rmtree(dst)` followed by `shutil.copytree(src, dst)`. */
  function ReplaceSubtree(t: Tree, src: Path, dst: Path): Result<Tree>
  {
    var cleared := if dst in t then RmTree(t, dst) else Ok(t);
    if cleared.Err? then Err else CopyTree(cleared.value, src, dst)
  }

  /** A prefix of an extension of `dst` is a prefix of `dst` or lies below `dst`. */
  lemma PrefixOfExtension(dst: Path, r: Path, q: Path)
    requires Under(dst + r, q)
    ensures Under(dst, q) || Under(q, dst)
  {
    if |q| <= |dst| {
      assert dst[..|q|] == (dst + r)[..|q|];
    } else {
      assert q[..|dst|] == (dst + r)[..|dst|];
    }
  }

  /** In a well-formed tree where `dst` is a directory, so is every prefix of `dst`. */
  lemma DirPrefixes(t: Tree, dst: Path)
    requires Valid(t) && IsDir(t, dst)
    ensures !Obstructed(t, dst)
    ensures forall k :: 0 <= k <= |dst| ==> IsDir(t, dst[..k])
  {
    forall k | 0 <= k <= |dst| ensures IsDir(t, dst[..k]) {
      ValidPrefix(t, dst, k);
      if k == |dst| {
        assert dst[..k] == dst;
      }
    }
  }

  /** `makedirs` on an existing directory of a well-formed tree changes nothing. */
  lemma MakeDirsIdle(t: Tree, p: Path)
    requires Valid(t) && IsDir(t, p)
    ensures MakeDirs(t, p) == Ok(t)
  {
    DirPrefixes(t, p);
    assert AddDirs(t, p) == t;
  }

  /** The tutorial policy on a well-formed tree, when source and target are apart, succeeds exactly when the
      source is a directory and no regular file sits on the way to the target, the target included. */
  lemma ReplaceSubtreeSucceeds(t: Tree, src: Path, dst: Path)
    requires Valid(t) && Disjoint(src, dst)
    ensures ReplaceSubtree(t, src, dst).Ok? <==> IsDir(t, src) && !Obstructed(t, dst)
  {
    if dst in t && t[dst].File? {
      assert dst[..|dst|] == dst;
    } else if dst in t {
      DirPrefixes(t, dst);
      Cleared(t, src, dst);
    }
  }

  /** After a successful replacement the target holds exactly the source's entries, and everything outside the
      target is as it was, apart from the target's missing parent directories. */
  lemma ReplaceSubtreeExact(t: Tree, src: Path, dst: Path)
    requires Valid(t) && Disjoint(src, dst) && ReplaceSubtree(t, src, dst).Ok?
    ensures var t' := ReplaceSubtree(t, src, dst).value;
      Valid(t') &&
      (forall r :: dst + r in t' <==> src + r in t) &&
      (forall r :: src + r in t ==> t'[dst + r] == t[src + r]) &&
      (forall q :: q in t && !Under(q, dst) ==> q in t' && t'[q] == t[q]) &&
      (forall q :: q in t' && q !in t ==> Under(q, dst) || Under(dst, q))
  {
    var t1 := if dst in t then RemoveTree(t, dst) else t;
    if dst in t {
      Cleared(t, src, dst);
    } else {
      NothingBelowMissing(t, dst);
    }
    assert ReplaceSubtree(t, src, dst) == CopyTree(t1, src, dst);
    CopyTreeValid(t1, src, dst);
    ReplaceContents(t, t1, src, dst);
  }

  /** A successful replacement keeps a well-formed tree well formed, whether or not source and target overlap. */
  lemma ReplaceSubtreeValid(t: Tree, src: Path, dst: Path)
    requires Valid(t) && ReplaceSubtree(t, src, dst).Ok?
    ensures Valid(ReplaceSubtree(t, src, dst).value)
  {
    var t1 := if dst in t then RemoveTree(t, dst) else t;
    if dst in t {
      RemoveTreeValid(t, dst);
    }
    assert ReplaceSubtree(t, src, dst) == CopyTree(t1, src, dst);
    CopyTreeValid(t1, src, dst);
  }

  /** In a well-formed tree nothing lies below a path that does not exist. */
  lemma NothingBelowMissing(t: Tree, p: Path)
    requires Valid(t) && p !in t
    ensures forall q :: q in t ==> !Under(q, p)
  {
    forall q | q in t ensures !Under(q, p) {
      if |p| <= |q| {
        ValidPrefix(t, q, |p|);
        if |p| == |q| {
          assert q[..|p|] == q;
        }
      }
    }
  }

  /** What removing the old target leaves: a well-formed tree without the target, with the source in place. */
  lemma Cleared(t: Tree, src: Path, dst: Path)
    requires Valid(t) && Disjoint(src, dst) && dst in t
    ensures RmTree(t, dst).Ok? <==> t[dst].Dir?
    ensures t[dst].Dir? ==>
      var t1 := RemoveTree(t, dst);
      Valid(t1) && dst !in t1 && (IsDir(t1, src) <==> IsDir(t, src)) && !Obstructed(t1, dst)
  {
    assert dst != [];
    if t[dst].Dir? {
      RemoveTreeValid(t, dst);
      DirPrefixes(t, dst);
      assert !Under(src, dst);
    }
  }

  /** The entries of a completed replacement, given the tree `t1` left after the old target was removed. */
  lemma ReplaceContents(t: Tree, t1: Tree, src: Path, dst: Path)
    requires Disjoint(src, dst) && dst !in t1 && IsDir(t1, src) && !Obstructed(t1, dst)
    requires forall q :: q in t1 <==> q in t && !Under(q, dst)
    requires Extends(t1, t)
    ensures var t' := CopyTree(t1, src, dst).value;
      (forall r :: dst + r in t' <==> src + r in t) &&
      (forall r :: src + r in t ==> t'[dst + r] == t[src + r]) &&
      (forall q :: q in t && !Under(q, dst) ==> q in t' && t'[q] == t[q]) &&
      (forall q :: q in t' && q !in t ==> Under(q, dst) || Under(dst, q))
  {
    var a := AddDirs(t1, dst);
    var m := Reroot(t1, src, dst);
    var t' := a + m;
    forall r ensures (dst + r in t' <==> src + r in t) && (src + r in t ==> t'[dst + r] == t[src + r]) {
      RerootAt(t1, src, dst, r);
      SrcSideApart(src, dst, r);
      if r == [] {
        assert src + r == src && dst + r == dst;
      } else {
        assert Under(dst + r, dst);
        assert !Under(dst, dst + r);
      }
    }
    forall q | q in t && !Under(q, dst) ensures q in t' && t'[q] == t[q] {
      if q in m {
        RerootUnder(t1, src, dst, q);
      }
    }
    forall q | q in t' && q !in t ensures Under(q, dst) || Under(dst, q) {
      if q in m {
        RerootUnder(t1, src, dst, q);
      }
    }
  }

  /** A path below `src` is never below `dst` when the two are apart. */
  lemma SrcSideApart(src: Path, dst: Path, r: Path)
    requires Disjoint(src, dst)
    ensures !Under(src + r, dst)
  {
    if Under(src + r, dst) {
      PrefixOfExtension(src, r, dst);
    }
  }

  /** How each walk visits an entry. `MirrorTree` (the Tornado server) makes every directory at the target and
      copies a file when nothing exists at its target path; `FilesOnly` (the Pyramid server) looks at files
      alone and, when nothing exists at the target path, makes the file's parent directories and copies it. */
  datatype WalkRule = MirrorTree | FilesOnly

  /** `shutil.copyfile(from, q)` guarded by `if not os.path.exists(q)`: opening `q` fails unless its parent is
      a directory. */
  function CopyIfMissing(fs: Tree, from: Path, q: Path): (r: Result<Tree>)
    requires from in fs
    ensures r.Ok? ==> Extends(fs, r.value) && q in r.value
    ensures r.Ok? && q !in fs ==> r.value[q] == fs[from]
  {
    if q in fs then Ok(fs)
    else if q == [] || !IsDir(fs, Parent(q)) then Err
    else Ok(fs[q := fs[from]])
  }

  /** The visit of the entry at relative path `r`; an entry that is not there (the walk lists only entries that
      exist) or of the wrong kind for the rule fails. */
  function Step(rule: WalkRule, fs: Tree, src: Path, dst: Path, r: Path): Result<Tree>
  {
    match rule
    case MirrorTree =>
      if IsDir(fs, src + r) then MakeDirs(fs, dst + r)
      else if IsFile(fs, src + r) then CopyIfMissing(fs, src + r, dst + r)
      else Err
    case FilesOnly =>
      if !IsFile(fs, src + r) then Err
      else if dst + r in fs then Ok(fs)
      else if dst + r == [] then Err
      else
        var made := MakeDirs(fs, Parent(dst + r));
        if made.Err? then Err else Ok(made.value[dst + r := fs[src + r]])
  }

  /** The visits of the entries `rs`, in that order; the first failure stops the walk. */
  function Walk(rule: WalkRule, fs: Tree, src: Path, dst: Path, rs: seq<Path>): Result<Tree>
    decreases |rs|
  {
    if rs == [] then Ok(fs)
    else
      var next := Step(rule, fs, src, dst, rs[0]);
      if next.Err? then Err else Walk(rule, next.value, src, dst, rs[1..])
  }

  /** Visiting one more entry after a walk is the walk of the longer list: what a loop over the entries
      computes. */
  lemma {:induction false} WalkSnoc(rule: WalkRule, fs: Tree, src: Path, dst: Path, rs: seq<Path>, r: Path)
    ensures Walk(rule, fs, src, dst, rs + [r]) ==
      (var w := Walk(rule, fs, src, dst, rs); if w.Err? then Err else Step(rule, w.value, src, dst, r))
    decreases |rs|
  {
    if rs == [] {
      assert rs + [r] == [r];
      assert [r][1..] == [];
    } else {
      assert (rs + [r])[0] == rs[0];
      assert (rs + [r])[1..] == rs[1..] + [r];
      var next := Step(rule, fs, src, dst, rs[0]);
      if next.Ok? {
        WalkSnoc(rule, next.value, src, dst, rs[1..], r);
      }
    }
  }

  /** A walk that fails on some prefix of the entries fails on all of them. */
  lemma {:induction false} WalkStopsAtErr(rule: WalkRule, fs: Tree, src: Path, dst: Path, a: seq<Path>, b: seq<Path>)
    requires Walk(rule, fs, src, dst, a).Err?
    ensures Walk(rule, fs, src, dst, a + b).Err?
    decreases |a|
  {
    assert a != [];
    assert (a + b)[0] == a[0] && (a + b)[1..] == a[1..] + b;
    var next := Step(rule, fs, src, dst, a[0]);
    if next.Ok? {
      WalkStopsAtErr(rule, next.value, src, dst, a[1..], b);
    }
  }

  /** What one visit guarantees: nothing existing changes, new entries lie on the way to the visited target
      path, well-formedness is kept, a visited directory exists at the target under `MirrorTree`, and a visited
      file exists at the target, with the source's contents when nothing was there before. */
  lemma StepFacts(rule: WalkRule, fs: Tree, src: Path, dst: Path, r: Path)
    requires Step(rule, fs, src, dst, r).Ok?
    ensures var f := Step(rule, fs, src, dst, r).value;
      Extends(fs, f) &&
      (forall q :: q in f ==> q in fs || Under(dst + r, q)) &&
      (Valid(fs) ==> Valid(f)) &&
      (rule == MirrorTree && IsDir(fs, src + r) ==> IsDir(f, dst + r)) &&
      (IsFile(fs, src + r) ==> dst + r in f) &&
      (IsFile(fs, src + r) && dst + r !in fs ==> f[dst + r] == fs[src + r])
  {
    var f := Step(rule, fs, src, dst, r).value;
    var q := dst + r;
    if rule == MirrorTree && IsDir(fs, src + r) {
      if Valid(fs) {
        MakeDirsValid(fs, q);
      }
    } else if rule == MirrorTree {
      if q !in fs {
        assert Under(q, q);
        if Valid(fs) {
          CopyValid(fs, q, fs[src + r]);
        }
      }
    } else if q !in fs {
      var made := MakeDirs(fs, Parent(q));
      assert forall p :: p in made.value ==> p in fs || Under(q, p) by {
        forall p | p in made.value && p !in fs ensures Under(q, p) {
          assert Under(Parent(q), p);
          assert q[..|p|] == Parent(q)[..|p|];
        }
      }
      assert q !in made.value;
      assert Under(q, q);
      if Valid(fs) {
        MakeDirsValid(fs, Parent(q));
        CopyValid(made.value, q, fs[src + r]);
      }
    }
  }

  /** One iteration of a loop over the walk's entries: from the state after the first `i` visits, a failing
      visit fails the whole walk, and a successful one is the state after `i + 1` visits, still well formed and
      still keeping every entry the walk started with. */
  lemma WalkAdvance(rule: WalkRule, t0: Tree, fs: Tree, src: Path, dst: Path, rs: seq<Path>, i: nat)
    requires i < |rs| && Walk(rule, t0, src, dst, rs[..i]) == Ok(fs) && Valid(fs) && Extends(t0, fs)
    ensures Step(rule, fs, src, dst, rs[i]).Err? ==> Walk(rule, t0, src, dst, rs).Err?
    ensures Step(rule, fs, src, dst, rs[i]).Ok? ==>
      Walk(rule, t0, src, dst, rs[..i + 1]) == Step(rule, fs, src, dst, rs[i]) &&
      Valid(Step(rule, fs, src, dst, rs[i]).value) && Extends(t0, Step(rule, fs, src, dst, rs[i]).value)
  {
    WalkSnoc(rule, t0, src, dst, rs[..i], rs[i]);
    assert rs[..i + 1] == rs[..i] + [rs[i]];
    if Step(rule, fs, src, dst, rs[i]).Err? {
      WalkPrefixErr(rule, t0, src, dst, rs, i + 1);
    } else {
      StepKeeps(rule, t0, fs, src, dst, rs[i]);
    }
  }

  /** A walk that fails on a prefix of the entries fails on all of them. */
  lemma WalkPrefixErr(rule: WalkRule, t0: Tree, src: Path, dst: Path, rs: seq<Path>, k: nat)
    requires k <= |rs| && Walk(rule, t0, src, dst, rs[..k]).Err?
    ensures Walk(rule, t0, src, dst, rs).Err?
  {
    WalkStopsAtErr(rule, t0, src, dst, rs[..k], rs[k..]);
    assert rs[..k] + rs[k..] == rs;
  }

  /** A successful visit keeps what the walk started with and keeps the tree well formed. */
  lemma StepKeeps(rule: WalkRule, t0: Tree, fs: Tree, src: Path, dst: Path, r: Path)
    requires Step(rule, fs, src, dst, r).Ok? && Valid(fs) && Extends(t0, fs)
    ensures Valid(Step(rule, fs, src, dst, r).value) && Extends(t0, Step(rule, fs, src, dst, r).value)
  {
    StepFacts(rule, fs, src, dst, r);
  }

  /** Adding an entry whose parent is a directory keeps a tree well formed. */
  lemma CopyValid(t: Tree, q: Path, n: Node)
    requires Valid(t) && q !in t && q != [] && IsDir(t, Parent(q))
    ensures Valid(t[q := n])
  {
  }

  /** What a whole walk guarantees; the counterparts of `StepFacts` for a list of visits. */
  lemma {:induction false} WalkFacts(rule: WalkRule, fs: Tree, src: Path, dst: Path, rs: seq<Path>)
    requires Walk(rule, fs, src, dst, rs).Ok?
    ensures var f := Walk(rule, fs, src, dst, rs).value;
      Extends(fs, f) &&
      (forall q :: q in f ==> q in fs || exists r :: r in rs && Under(dst + r, q)) &&
      (Valid(fs) ==> Valid(f))
    decreases |rs|
  {
    if rs != [] {
      var next := Step(rule, fs, src, dst, rs[0]);
      StepFacts(rule, fs, src, dst, rs[0]);
      WalkFacts(rule, next.value, src, dst, rs[1..]);
      assert rs[0] in rs;
      assert forall r :: r in rs[1..] ==> r in rs;
    }
  }

  /** New entries of a walk lie below the target or on the way to it. */
  lemma WalkNear(rule: WalkRule, fs: Tree, src: Path, dst: Path, rs: seq<Path>)
    requires Walk(rule, fs, src, dst, rs).Ok?
    ensures forall q :: q in Walk(rule, fs, src, dst, rs).value && q !in fs ==> Under(q, dst) || Under(dst, q)
  {
    WalkFacts(rule, fs, src, dst, rs);
    forall q | q in Walk(rule, fs, src, dst, rs).value && q !in fs ensures Under(q, dst) || Under(dst, q) {
      var r :| r in rs && Under(dst + r, q);
      PrefixOfExtension(dst, r, q);
    }
  }

  /** After a walk every visited entry exists at the target: a directory as a directory under `MirrorTree`,
      a file as some entry. */
  lemma {:induction false} WalkReaches(rule: WalkRule, fs: Tree, src: Path, dst: Path, rs: seq<Path>, r: Path)
    requires Walk(rule, fs, src, dst, rs).Ok? && r in rs
    ensures var f := Walk(rule, fs, src, dst, rs).value;
      (rule == MirrorTree && IsDir(fs, src + r) ==> IsDir(f, dst + r)) &&
      (IsFile(fs, src + r) ==> dst + r in f)
    decreases |rs|
  {
    var next := Step(rule, fs, src, dst, rs[0]);
    StepFacts(rule, fs, src, dst, rs[0]);
    WalkFacts(rule, next.value, src, dst, rs[1..]);
    if rs[0] != r {
      WalkReaches(rule, next.value, src, dst, rs[1..], r);
    }
  }

  /** A file visited by a walk, with nothing at its target path before, ends up there with the source's
      contents, provided no other visit makes a directory on that path. */
  lemma {:induction false} WalkCopies(rule: WalkRule, fs: Tree, src: Path, dst: Path, rs: seq<Path>, r: Path)
    requires Walk(rule, fs, src, dst, rs).Ok? && r in rs
    requires IsFile(fs, src + r) && dst + r !in fs
    requires forall r' :: r' in rs && r' != r ==> !Under(dst + r', dst + r)
    ensures dst + r in Walk(rule, fs, src, dst, rs).value
    ensures Walk(rule, fs, src, dst, rs).value[dst + r] == fs[src + r]
    decreases |rs|
  {
    WalkReaches(rule, fs, src, dst, rs, r);
    var next := Step(rule, fs, src, dst, rs[0]);
    StepFacts(rule, fs, src, dst, rs[0]);
    WalkFacts(rule, next.value, src, dst, rs[1..]);
    if rs[0] != r {
      assert rs[0] in rs;
      WalkCopies(rule, next.value, src, dst, rs[1..], r);
    }
  }

  /** A visit that finds its target already in place changes nothing. */
  predicate Settled(rule: WalkRule, g: Tree, src: Path, dst: Path, r: Path)
  {
    (rule == MirrorTree && IsDir(g, src + r) && IsDir(g, dst + r)) || (IsFile(g, src + r) && dst + r in g)
  }

  /** A walk all of whose visits are settled leaves a well-formed tree as it is. */
  lemma {:induction false} WalkSettled(rule: WalkRule, g: Tree, src: Path, dst: Path, rs: seq<Path>)
    requires Valid(g)
    requires forall r :: r in rs ==> Settled(rule, g, src, dst, r)
    ensures Walk(rule, g, src, dst, rs) == Ok(g)
    decreases |rs|
  {
    if rs != [] {
      assert rs[0] in rs;
      if rule == MirrorTree && IsDir(g, src + rs[0]) {
        MakeDirsIdle(g, dst + rs[0]);
      }
      WalkSettled(rule, g, src, dst, rs[1..]);
    }
  }

  /** `deploy_workspace` of the Tornado server once the source was found: make the target if it is missing,
      then walk the source, its directories (`dirs`) before its files (`files`). */
  function TornadoWorkspace(t: Tree, src: Path, dst: Path, dirs: seq<Path>, files: seq<Path>): Result<Tree>
  {
    if src !in t then Ok(t)
    else
      var made := if dst in t then Ok(t) else MakeDirs(t, dst);
      if made.Err? || !IsDir(t, src) then made
      else Walk(MirrorTree, made.value, src, dst, dirs + files)
  }

  /** `deploy_workspace` of the Pyramid server: walk the files of the source, if it is a directory. */
  function PyramidWorkspace(t: Tree, src: Path, dst: Path, files: seq<Path>): Result<Tree>
  {
    if !IsDir(t, src) then Ok(t) else Walk(FilesOnly, t, src, dst, files)
  }

  /** A workspace source that does not exist deploys nothing under either server; one that is a regular file
      deploys nothing beyond the Tornado server's target directory. */
  lemma WorkspaceMissingSource(t: Tree, src: Path, dst: Path, dirs: seq<Path>, files: seq<Path>)
    ensures src !in t ==> TornadoWorkspace(t, src, dst, dirs, files) == Ok(t)
    ensures !IsDir(t, src) ==> PyramidWorkspace(t, src, dst, files) == Ok(t)
    ensures IsFile(t, src) ==>
      TornadoWorkspace(t, src, dst, dirs, files) == (if dst in t then Ok(t) else MakeDirs(t, dst))
  {
  }

  /** `dirs` and `files` list the directories and the files below `src`, each once, in some order. */
  predicate WalkOrder(t: Tree, src: Path, dirs: seq<Path>, files: seq<Path>)
  {
    Enumerates(dirs, RelDirs(t, src)) && Enumerates(files, RelFiles(t, src))
  }

  /** One path below another, both extending `dst`: the extensions are below one another too. */
  lemma UnderShift(dst: Path, a: Path, b: Path)
    requires Under(dst + a, dst + b)
    ensures Under(a, b)
  {
    assert a[..|b|] == (dst + a)[..|dst + b|][|dst|..];
  }

  /** A path below `src` is not on the way to `dst` when the two are apart. */
  lemma SrcNotOnWay(src: Path, dst: Path, r: Path)
    requires Disjoint(src, dst)
    ensures !Under(dst, src + r)
  {
  }

  /** In a well-formed tree, a regular file below `src` is not on the way to another entry below `src`. */
  lemma FileIsLeaf(t: Tree, src: Path, dst: Path, r: Path, r': Path)
    requires Valid(t) && IsFile(t, src + r) && src + r' in t && r' != r
    ensures !Under(dst + r', dst + r)
  {
    if Under(dst + r', dst + r) {
      UnderShift(dst, r', r);
      assert (src + r')[..|src + r|] == src + r;
      ValidPrefix(t, src + r', |src + r|);
    }
  }

  /** The entries below `src` of a tree that extends `t` only below `dst` or on the way to it are those of
      `t`, when `src` and `dst` are apart. */
  lemma SourceKept(t: Tree, t': Tree, src: Path, dst: Path)
    requires Disjoint(src, dst) && Extends(t, t')
    requires forall q :: q in t' && q !in t ==> Under(q, dst) || Under(dst, q)
    ensures forall r :: IsDir(t', src + r) <==> IsDir(t, src + r)
    ensures forall r :: IsFile(t', src + r) <==> IsFile(t, src + r)
    ensures RelDirs(t', src) == RelDirs(t, src) && RelFiles(t', src) == RelFiles(t, src)
  {
    forall r ensures src + r in t' <==> src + r in t {
      SrcSideApart(src, dst, r);
      SrcNotOnWay(src, dst, r);
    }
    forall r ensures r in RelDirs(t', src) <==> r in RelDirs(t, src) {
      RelMembers(t, src, r);
      RelMembers(t', src, r);
    }
    forall r ensures r in RelFiles(t', src) <==> r in RelFiles(t, src) {
      RelMembers(t, src, r);
      RelMembers(t', src, r);
    }
  }

  /** A source file visited by a walk from `t0`, a tree that extends the well-formed `t` only on the way to
      `dst`, ends up at the target with its contents when nothing was there in `t`. */
  lemma FileCopied(rule: WalkRule, t: Tree, t0: Tree, src: Path, dst: Path, rs: seq<Path>, r: Path)
    requires Valid(t) && Extends(t, t0) && (forall q :: q in t0 && q !in t ==> Under(dst, q))
    requires Walk(rule, t0, src, dst, rs).Ok? && r in rs && (forall r' :: r' in rs ==> src + r' in t)
    requires IsFile(t, src + r) && dst + r !in t && r != []
    ensures dst + r in Walk(rule, t0, src, dst, rs).value
    ensures Walk(rule, t0, src, dst, rs).value[dst + r] == t[src + r]
  {
    assert dst + r !in t0;
    forall r' | r' in rs && r' != r ensures !Under(dst + r', dst + r) {
      FileIsLeaf(t, src, dst, r, r');
    }
    WalkCopies(rule, t0, src, dst, rs, r);
  }

  /** What making the target leaves, in a well-formed tree with source and target apart. */
  lemma TargetMade(t: Tree, src: Path, dst: Path)
    requires Valid(t) && Disjoint(src, dst)
    requires dst in t || MakeDirs(t, dst).Ok?
    ensures var t0 := if dst in t then t else MakeDirs(t, dst).value;
      Valid(t0) && Extends(t, t0) && dst in t0 &&
      (forall q :: q in t0 && q !in t ==> Under(dst, q)) &&
      RelDirs(t0, src) == RelDirs(t, src) && RelFiles(t0, src) == RelFiles(t, src) &&
      (forall r :: IsDir(t0, src + r) <==> IsDir(t, src + r)) &&
      (forall r :: IsFile(t0, src + r) <==> IsFile(t, src + r))
  {
    var t0 := if dst in t then t else MakeDirs(t, dst).value;
    if dst !in t {
      MakeDirsValid(t, dst);
    }
    SourceKept(t, t0, src, dst);
  }

  /** The Tornado workspace policy on a well-formed tree, source and target apart, for every listing that
      visits all directories before any file: nothing that existed changes, every source directory exists at
      the target, every source file exists there and has the source's contents when nothing was there before,
      and every new entry is the target, a directory on the way to it, or the copy of a source directory or
      file. */
  lemma TornadoWorkspaceSound(t: Tree, src: Path, dst: Path, dirs: seq<Path>, files: seq<Path>)
    requires Valid(t) && Disjoint(src, dst) && WalkOrder(t, src, dirs, files)
    requires TornadoWorkspace(t, src, dst, dirs, files).Ok?
    ensures var t' := TornadoWorkspace(t, src, dst, dirs, files).value;
      Valid(t') && Extends(t, t') &&
      (src in t ==> dst in t') &&
      (forall r :: r != [] && IsDir(t, src + r) ==> IsDir(t', dst + r)) &&
      (forall r :: r != [] && IsFile(t, src + r) ==> dst + r in t') &&
      (forall r :: r != [] && IsFile(t, src + r) && dst + r !in t ==> t'[dst + r] == t[src + r]) &&
      (forall q :: q in t' && q !in t ==>
         Under(dst, q) || exists r :: q == dst + r && (r in RelDirs(t, src) || r in RelFiles(t, src)))
  {
    if src in t && IsDir(t, src) {
      TargetMade(t, src, dst);
      var t0 := if dst in t then t else MakeDirs(t, dst).value;
      TornadoWalkSound(t, t0, src, dst, dirs, files);
      WalkNewEntries(t, t0, src, dst, dirs, files);
    } else {
      NothingBelow(t, src);
      if src in t {
        TargetMade(t, src, dst);
        var t' := if dst in t then t else MakeDirs(t, dst).value;
        assert TornadoWorkspace(t, src, dst, dirs, files) == Ok(t');
      }
    }
  }

  /** What the directories-first walk adds beyond the made target lies on the way to the target of a listed
      directory or file. */
  lemma WalkNewEntries(t: Tree, t0: Tree, src: Path, dst: Path, dirs: seq<Path>, files: seq<Path>)
    requires Valid(t) && Valid(t0) && Disjoint(src, dst) && WalkOrder(t, src, dirs, files)
    requires Walk(MirrorTree, t0, src, dst, dirs + files).Ok?
    ensures var t' := Walk(MirrorTree, t0, src, dst, dirs + files).value;
      forall q :: q in t' && q !in t && q !in t0 ==>
        Under(dst, q) || exists r :: q == dst + r && (r in RelDirs(t, src) || r in RelFiles(t, src))
  {
    var rs := dirs + files;
    var t' := Walk(MirrorTree, t0, src, dst, rs).value;
    WalkFacts(MirrorTree, t0, src, dst, rs);
    forall q | q in t' && q !in t && q !in t0
      ensures Under(dst, q) || exists r :: q == dst + r && (r in RelDirs(t, src) || r in RelFiles(t, src))
    {
      var r :| r in rs && Under(dst + r, q);
      OnWayToListed(t, src, dst, r, q);
    }
  }

  /** An entry on the way to the target of a source directory or file is on the way to the target itself, or
      is the target of a source directory or file. */
  lemma OnWayToListed(t: Tree, src: Path, dst: Path, r: Path, q: Path)
    requires Valid(t) && (r in RelDirs(t, src) || r in RelFiles(t, src)) && Under(dst + r, q)
    ensures Under(dst, q) || exists r' :: q == dst + r' && (r' in RelDirs(t, src) || r' in RelFiles(t, src))
  {
    PrefixOfExtension(dst, r, q);
    if !Under(dst, q) {
      var r' := q[|dst|..];
      assert q == dst + r';
      assert r' == r[..|r'|] by {
        assert (dst + r)[..|q|] == q;
      }
      RelMembers(t, src, r);
      assert (src + r)[..|src + r'|] == src + r';
      ValidPrefix(t, src + r, |src + r'|);
      RelMembers(t, src, r');
    }
  }

  /** Below something that is not a directory of a well-formed tree there is nothing. */
  lemma NothingBelow(t: Tree, src: Path)
    requires Valid(t) && !IsDir(t, src)
    ensures forall r :: r != [] ==> src + r !in t
  {
    forall r | r != [] && src + r in t ensures false {
      assert (src + r)[..|src|] == src;
      ValidPrefix(t, src + r, |src|);
    }
  }

  /** Every source directory the walk visits exists at the target afterwards. */
  lemma WalkDirsReached(t: Tree, t0: Tree, src: Path, dst: Path, rs: seq<Path>)
    requires forall r :: r in RelDirs(t, src) ==> r in rs
    requires forall r :: IsDir(t0, src + r) <==> IsDir(t, src + r)
    requires Walk(MirrorTree, t0, src, dst, rs).Ok?
    ensures forall r :: r != [] && IsDir(t, src + r) ==> IsDir(Walk(MirrorTree, t0, src, dst, rs).value, dst + r)
  {
    forall r | r != [] && IsDir(t, src + r) ensures IsDir(Walk(MirrorTree, t0, src, dst, rs).value, dst + r) {
      RelMembers(t, src, r);
      WalkReaches(MirrorTree, t0, src, dst, rs, r);
    }
  }

  /** Every source file the walk visits exists at the target afterwards, with the source's contents when
      nothing was there in `t`. */
  lemma WalkFilesReached(rule: WalkRule, t: Tree, t0: Tree, src: Path, dst: Path, rs: seq<Path>)
    requires Valid(t) && Extends(t, t0) && (forall q :: q in t0 && q !in t ==> Under(dst, q))
    requires forall r :: r in RelFiles(t, src) ==> r in rs
    requires forall r :: r in rs ==> src + r in t
    requires forall r :: IsFile(t0, src + r) <==> IsFile(t, src + r)
    requires Walk(rule, t0, src, dst, rs).Ok?
    ensures forall r :: r != [] && IsFile(t, src + r) ==> dst + r in Walk(rule, t0, src, dst, rs).value
    ensures forall r :: r != [] && IsFile(t, src + r) && dst + r !in t ==>
      Walk(rule, t0, src, dst, rs).value[dst + r] == t[src + r]
  {
    var t' := Walk(rule, t0, src, dst, rs).value;
    forall r | r != [] && IsFile(t, src + r) ensures dst + r in t' && (dst + r !in t ==> t'[dst + r] == t[src + r]) {
      RelMembers(t, src, r);
      WalkReaches(rule, t0, src, dst, rs, r);
      if dst + r !in t {
        FileCopied(rule, t, t0, src, dst, rs, r);
      }
    }
  }

  /** The walk part of `TornadoWorkspaceSound`. */
  lemma TornadoWalkSound(t: Tree, t0: Tree, src: Path, dst: Path, dirs: seq<Path>, files: seq<Path>)
    requires Valid(t) && WalkOrder(t, src, dirs, files)
    requires Valid(t0) && Extends(t, t0) && dst in t0 && (forall q :: q in t0 && q !in t ==> Under(dst, q))
    requires forall r :: IsDir(t0, src + r) <==> IsDir(t, src + r)
    requires forall r :: IsFile(t0, src + r) <==> IsFile(t, src + r)
    requires Walk(MirrorTree, t0, src, dst, dirs + files).Ok?
    ensures var t' := Walk(MirrorTree, t0, src, dst, dirs + files).value;
      Valid(t') && Extends(t, t') && dst in t' &&
      (forall r :: r != [] && IsDir(t, src + r) ==> IsDir(t', dst + r)) &&
      (forall r :: r != [] && IsFile(t, src + r) ==> dst + r in t') &&
      (forall r :: r != [] && IsFile(t, src + r) && dst + r !in t ==> t'[dst + r] == t[src + r]) &&
      (forall q :: q in t' && q !in t ==> Under(q, dst) || Under(dst, q))
  {
    var rs := dirs + files;
    WalkFacts(MirrorTree, t0, src, dst, rs);
    WalkNear(MirrorTree, t0, src, dst, rs);
    forall r | r in rs ensures src + r in t {
      RelMembers(t, src, r);
    }
    WalkDirsReached(t, t0, src, dst, rs);
    WalkFilesReached(MirrorTree, t, t0, src, dst, rs);
  }

  /** Deploying the Tornado workspace a second time, in any walk order, changes nothing. */
  lemma TornadoWorkspaceIdempotent(t: Tree, src: Path, dst: Path, dirs: seq<Path>, files: seq<Path>,
                                   dirs2: seq<Path>, files2: seq<Path>)
    requires Valid(t) && Disjoint(src, dst) && WalkOrder(t, src, dirs, files) && WalkOrder(t, src, dirs2, files2)
    requires TornadoWorkspace(t, src, dst, dirs, files).Ok?
    ensures var t' := TornadoWorkspace(t, src, dst, dirs, files).value;
      TornadoWorkspace(t', src, dst, dirs2, files2) == Ok(t')
  {
    var t' := TornadoWorkspace(t, src, dst, dirs, files).value;
    TornadoWorkspaceSound(t, src, dst, dirs, files);
    SourceKept(t, t', src, dst);
    if src in t && IsDir(t, src) {
      var rs := dirs2 + files2;
      forall r | r in rs ensures Settled(MirrorTree, t', src, dst, r) {
        RelMembers(t, src, r);
      }
      WalkSettled(MirrorTree, t', src, dst, rs);
    }
  }

  /** The Pyramid workspace policy on a well-formed tree, source and target apart, whatever the walk order:
      nothing that existed changes, every source file exists at the target and has the source's contents when
      nothing was there before, and every new entry is a copied file or a directory on the way to one. */
  lemma PyramidWorkspaceSound(t: Tree, src: Path, dst: Path, files: seq<Path>)
    requires Valid(t) && Disjoint(src, dst) && Enumerates(files, RelFiles(t, src))
    requires PyramidWorkspace(t, src, dst, files).Ok?
    ensures var t' := PyramidWorkspace(t, src, dst, files).value;
      Valid(t') && Extends(t, t') &&
      (forall r :: r != [] && IsFile(t, src + r) && IsDir(t, src) ==> dst + r in t') &&
      (forall r :: r != [] && IsFile(t, src + r) && IsDir(t, src) && dst + r !in t ==> t'[dst + r] == t[src + r]) &&
      (forall q :: q in t' && q !in t ==> exists r :: r in RelFiles(t, src) && Under(dst + r, q))
  {
    if IsDir(t, src) {
      WalkFacts(FilesOnly, t, src, dst, files);
      var t' := Walk(FilesOnly, t, src, dst, files).value;
      forall r' | r' in files ensures src + r' in t {
        RelMembers(t, src, r');
      }
      WalkFilesReached(FilesOnly, t, t, src, dst, files);
    }
  }

  /** Deploying the Pyramid workspace a second time, in any walk order, changes nothing. */
  lemma PyramidWorkspaceIdempotent(t: Tree, src: Path, dst: Path, files: seq<Path>, files2: seq<Path>)
    requires Valid(t) && Disjoint(src, dst)
    requires Enumerates(files, RelFiles(t, src)) && Enumerates(files2, RelFiles(t, src))
    requires PyramidWorkspace(t, src, dst, files).Ok?
    ensures var t' := PyramidWorkspace(t, src, dst, files).value;
      PyramidWorkspace(t', src, dst, files2) == Ok(t')
  {
    var t' := PyramidWorkspace(t, src, dst, files).value;
    PyramidWorkspaceSound(t, src, dst, files);
    if IsDir(t, src) {
      WalkNear(FilesOnly, t, src, dst, files);
    }
    SourceKept(t, t', src, dst);
    if IsDir(t, src) {
      forall r | r in files2 ensures Settled(FilesOnly, t', src, dst, r) {
        RelMembers(t, src, r);
      }
      WalkSettled(FilesOnly, t', src, dst, files2);
    }
  }
}
