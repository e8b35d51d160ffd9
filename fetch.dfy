/** Fetching the tutorial content, shared by both server generations: the URL test, the choice of archive
    format by file-name suffix or by sniffed MIME type, the bearer header, and the filesystem effects a fetch
    performs, with their meaning on the file tree.

    The network, the magic-byte sniffer and the archive readers are parameters: `Web` answers a request (or
    fails, which raises), `Sniffer` maps bytes to the MIME type `filetype.guess` reports, and `Unpacker` turns
    archive bytes into the tree the archive holds. */
module Fetch {
  import opened Common
  import opened Paths
  import opened Trees
  import opened Policies

  /** `source.startswith('http://') or source.startswith('https://')`. */
  predicate IsUrl(s: string)
  {
    StartsWith(s, "http://") || StartsWith(s, "https://")
  }

  /** Joining onto a directory that is not a URL never produces a URL, unless the directory is empty and the
      joined part already is one. */
  lemma JoinNotUrl(a: string, b: string)
    requires !IsUrl(a) && (a != "" || !IsUrl(b))
    ensures !IsUrl(Join(a, b))
  {
    var j := Join(a, b);
    if StartsWith(b, "/") {
      assert j[0] == '/';
    } else if a != "" {
      assert j[..|a|] == a;
      if EndsWith(a, "/") {
        assert j == a + b;
        assert a[|a| - 1] == '/';
        assert |b| > 0 ==> b[0] != '/';
        if |a| < 8 && |j| > |a| {
          assert j[|a|] == b[0];
        }
      } else {
        assert j == a + "/" + b;
        assert j[|a|] == '/';
        if |b| > 0 {
          assert j[|a| + 1] == b[0] && b[0] != '/';
        }
      }
      NotUrlExtended(a, j);
    }
  }

  /** A string followed by a '/' and then something other than '/' (or, when it already ends in '/', by
      something other than '/') is a URL only if the string already was one. */
  lemma NotUrlExtended(a: string, j: string)
    requires !IsUrl(a) && a != "" && StartsWith(j, a)
    requires EndsWith(a, "/") ==> (|j| > |a| ==> j[|a|] != '/')
    requires !EndsWith(a, "/") ==> |j| > |a| && j[|a|] == '/' && (|j| > |a| + 1 ==> j[|a| + 1] != '/')
    ensures !IsUrl(j)
  {
    SchemePrefix(a, j, "http://");
    SchemePrefix(a, j, "https://");
  }

  /** The same for one scheme: the first character where `j` departs from the scheme. */
  lemma SchemePrefix(a: string, j: string, scheme: string)
    requires scheme == "http://" || scheme == "https://"
    requires !StartsWith(a, scheme) && a != "" && StartsWith(j, a)
    requires EndsWith(a, "/") ==> (|j| > |a| ==> j[|a|] != '/')
    requires !EndsWith(a, "/") ==> |j| > |a| && j[|a|] == '/' && (|j| > |a| + 1 ==> j[|a| + 1] != '/')
    ensures !StartsWith(j, scheme)
  {
    if |j| >= |scheme| {
      var k := |scheme| - 3;
      if |a| >= |scheme| {
        assert j[..|scheme|] == a[..|scheme|];
      } else if a != scheme[..|a|] {
        assert j[..|a|] == a;
        assert j[..|scheme|][..|a|] == a;
      } else if |a| <= k {
        assert a[|a| - 1] == scheme[|a| - 1];
        assert !EndsWith(a, "/");
        assert j[|a|] == '/' && scheme[|a|] != '/';
      } else {
        assert a[|a| - 1] == scheme[|a| - 1];
        assert j[k + 2] != '/' && scheme[k + 2] == '/';
      }
    }
  }

  datatype ArchiveFormat = Zip | TarBz2 | TarGz

  /** The file-name suffix of each archive format. */
  function Suffix(f: ArchiveFormat): string
  {
    match f
    case Zip => ".zip"
    case TarBz2 => ".tar.bz2"
    case TarGz => ".tar.gz"
  }

  /** The MIME type `filetype.guess` reports for each archive format. */
  function MimeOf(f: ArchiveFormat): string
  {
    match f
    case Zip => "application/zip"
    case TarBz2 => "application/x-bzip2"
    case TarGz => "application/gzip"
  }

  /** How a local source is unpacked: the first of '.zip', '.tar.bz2', '.tar.gz' it ends with, or `None` for a
      directory copy. */
  function LocalFormat(source: string): (r: Option<ArchiveFormat>)
    ensures r.Some? ==> EndsWith(source, Suffix(r.value))
    ensures r.None? <==> !EndsWith(source, ".zip") && !EndsWith(source, ".tar.bz2") && !EndsWith(source, ".tar.gz")
  {
    if EndsWith(source, ".zip") then Some(Zip)
    else if EndsWith(source, ".tar.bz2") then Some(TarBz2)
    else if EndsWith(source, ".tar.gz") then Some(TarGz)
    else None
  }

  /** The suffixes exclude one another: a name made by appending a format's suffix is classified as that
      format, whatever comes before it. */
  lemma LocalFormatOfSuffix(base: string, f: ArchiveFormat)
    ensures LocalFormat(base + Suffix(f)) == Some(f)
  {
    var s := base + Suffix(f);
    match f
    case Zip =>
    case TarBz2 =>
      assert s[|s| - 1] == '2';
    case TarGz =>
      assert s[|s| - 1] == 'z';
      assert s[|s| - 2] == 'g';
  }

  /** The archive format a sniffed MIME type stands for; anything else, or no sniff result, is unsupported. */
  function SniffedFormat(mime: Option<string>): (r: Option<ArchiveFormat>)
  {
    if mime.None? then None
    else if mime.value == "application/zip" then Some(Zip)
    else if mime.value == "application/x-bzip2" then Some(TarBz2)
    else if mime.value == "application/gzip" then Some(TarGz)
    else None
  }

  /** A sniffed type selects a format exactly when it is that format's MIME type. */
  lemma SniffedFormatExact(mime: Option<string>, f: ArchiveFormat)
    ensures SniffedFormat(mime) == Some(f) <==> mime == Some(MimeOf(f))
  {
  }

  /** The request headers: a bearer token only when both `source.auth` and `source.auth.token` are set. */
  function AuthHeaders(auth: Option<string>, token: Option<string>): (r: seq<Header>)
    ensures r != [] <==> auth.Some? && token.Some?
    ensures r != [] ==> |r| == 1 && r[0].0 == "Authorization" && r[0].1 == "bearer " + token.value
  {
    if auth.Some? && token.Some? then [("Authorization", "bearer " + token.value)] else []
  }

  /** An HTTP reply. */
  datatype Reply = Reply(status: int, body: Bytes)

  /** The network: the reply to a request for a URL with some headers, `None` when the request fails. */
  type Web = (string, seq<Header>) -> Option<Reply>

  /** `filetype.guess`: the MIME type recognised from a file's leading bytes, if any. */
  type Sniffer = Bytes -> Option<string>

  /** The archive readers: the tree an archive of some format holds, `None` for a corrupt archive. */
  type Unpacker = (ArchiveFormat, Bytes) -> Option<Tree>

  /** One step of a fetch. Paths are the strings the source builds; they are canonicalised when applied. */
  datatype Effect =
    | Request(url: string, headers: seq<Header>)
    | MakeDirsAt(dir: string)
    | WriteTo(file: string, body: Bytes)
    | RenameTo(from: string, to: string)
    | ExtractTo(archive: string, format: ArchiveFormat, dest: string)
    | CopyTreeTo(src: string, dst: string)
    | ClearTreeAt(dir: string)

  /** How a fetch ends: normally, by raising, or by reaching more nested fetches than the plan follows. */
  datatype Outcome = Completed | Raises | TooDeep

  /** The effects of a fetch, in order, and how it ends. */
  datatype Plan = Plan(steps: seq<Effect>, outcome: Outcome)

  function Then(pre: seq<Effect>, p: Plan): Plan
  {
    Plan(pre + p.steps, p.outcome)
  }

  /** The path strings an effect targets: what it creates, replaces or removes is at or below them, and the
      directories it makes on the way are above them. */
  function Writes(e: Effect): seq<string>
  {
    match e
    case Request(_, _) => []
    case MakeDirsAt(d) => [d]
    case WriteTo(f, _) => [f]
    case RenameTo(a, b) => [a, b]
    case ExtractTo(_, _, d) => [d]
    case CopyTreeTo(_, d) => [d]
    case ClearTreeAt(d) => [d]
  }

  function CountRequests(steps: seq<Effect>): nat
  {
    if steps == [] then 0 else (if steps[0].Request? then 1 else 0) + CountRequests(steps[1..])
  }

  lemma {:induction false} CountRequestsAppend(a: seq<Effect>, b: seq<Effect>)
    ensures CountRequests(a + b) == CountRequests(a) + CountRequests(b)
  {
    if a == [] {
      assert a + b == b;
    } else {
      assert (a + b)[1..] == a[1..] + b;
      CountRequestsAppend(a[1..], b);
    }
  }

  /** `open(f, 'wb').write(body)`: the parent must be a directory and `f` must not be one. */
  function WriteFile(fs: Tree, p: Path, body: Bytes): (r: Result<Tree>)
    ensures r.Ok? <==> p != [] && IsDir(fs, Parent(p)) && !IsDir(fs, p)
    ensures r.Ok? ==> r.value == fs[p := File(body)]
  {
    if p == [] || !IsDir(fs, Parent(p)) || IsDir(fs, p) then Err else Ok(fs[p := File(body)])
  }

  /** `os.rename(a, b)` of a regular file: `b` must not be a directory and its parent must be one; an existing
      file at `b` is replaced. Only regular files are renamed by either server. */
  function RenameFile(fs: Tree, a: Path, b: Path): (r: Result<Tree>)
    ensures r.Ok? <==> IsFile(fs, a) && b != [] && IsDir(fs, Parent(b)) && !IsDir(fs, b)
  {
    if !IsFile(fs, a) || b == [] || !IsDir(fs, Parent(b)) || IsDir(fs, b) then Err
    else if a == b then Ok(fs)
    else Ok((fs - {a})[b := fs[a]])
  }

  /** `extractall(dest)`: the archive's tree placed at `dest`, whose missing parents are made. An archive
      without members creates nothing, not even `dest`. The servers only extract into a directory that does not
      exist yet. */
  function Extract(fs: Tree, archive: Path, format: ArchiveFormat, dest: Path, unpack: Unpacker): Result<Tree>
  {
    if !IsFile(fs, archive) then Err
    else
      var m := unpack(format, fs[archive].content);
      if m.None? || !Valid(m.value) then Err
      else if m.value.Keys <= {[]} then Ok(fs)
      else if dest in fs || Obstructed(fs, dest) then Err
      else Ok(AddDirs(fs, dest) + Reroot(m.value, [], dest))
  }

  /** The meaning of one effect on the tree, relative paths starting from `cwd`. */
  function Apply(fs: Tree, cwd: Path, unpack: Unpacker, e: Effect): Result<Tree>
  {
    match e
    case Request(_, _) => Ok(fs)
    case MakeDirsAt(d) => MakeDirs(fs, Canonical(cwd, d))
    case WriteTo(f, body) => WriteFile(fs, Canonical(cwd, f), body)
    case RenameTo(a, b) => RenameFile(fs, Canonical(cwd, a), Canonical(cwd, b))
    case ExtractTo(a, format, d) => Extract(fs, Canonical(cwd, a), format, Canonical(cwd, d), unpack)
    case CopyTreeTo(s, d) => CopyTree(fs, Canonical(cwd, s), Canonical(cwd, d))
    case ClearTreeAt(d) => var p := Canonical(cwd, d); if p in fs then RmTree(fs, p) else Ok(fs)
  }

  /** Where a sequence of effects got to: the tree when it stopped, and whether every effect succeeded. */
  datatype Reached = Reached(tree: Tree, ok: bool)

  /** The effects in order; the first that fails raises, and the tree is left as it was at that point. */
  function Perform(fs: Tree, cwd: Path, unpack: Unpacker, steps: seq<Effect>): Reached
    decreases |steps|
  {
    if steps == [] then Reached(fs, true)
    else
      var next := Apply(fs, cwd, unpack, steps[0]);
      if next.Err? then Reached(fs, false) else Perform(next.value, cwd, unpack, steps[1..])
  }

  /** A plan carried out: it succeeds when every effect does and the plan completes normally. */
  function Run(fs: Tree, cwd: Path, unpack: Unpacker, plan: Plan): (r: Reached)
  {
    var p := Perform(fs, cwd, unpack, plan.steps);
    Reached(p.tree, p.ok && plan.outcome == Completed)
  }

  /** Renaming a regular file keeps a well-formed tree well formed. */
  lemma RenameValid(fs: Tree, a: Path, b: Path)
    requires Valid(fs) && RenameFile(fs, a, b).Ok?
    ensures Valid(RenameFile(fs, a, b).value)
  {
    if a != b {
      var r := (fs - {a})[b := fs[a]];
      assert a != [];
      forall q | q in r && q != [] ensures IsDir(r, Parent(q)) {
        if q != b {
          assert q in fs;
          assert IsDir(fs, Parent(q));
        }
      }
    }
  }

  /** Every effect keeps a well-formed tree well formed. */
  lemma ApplyValid(fs: Tree, cwd: Path, unpack: Unpacker, e: Effect)
    requires Valid(fs) && Apply(fs, cwd, unpack, e).Ok?
    ensures Valid(Apply(fs, cwd, unpack, e).value)
  {
    match e
    case Request(_, _) =>
    case MakeDirsAt(d) =>
      MakeDirsValid(fs, Canonical(cwd, d));
    case WriteTo(f, body) =>
      var p := Canonical(cwd, f);
      var r := fs[p := File(body)];
      forall q | q in r && q != [] ensures IsDir(r, Parent(q)) {
        if q != p {
          assert IsDir(fs, Parent(q));
          assert Parent(q) != p || !IsFile(fs, p);
        }
      }
    case RenameTo(a, b) =>
      RenameValid(fs, Canonical(cwd, a), Canonical(cwd, b));
    case ExtractTo(a, format, d) =>
      var m := unpack(format, fs[Canonical(cwd, a)].content).value;
      if !(m.Keys <= {[]}) {
        GraftValid(fs, m, [], Canonical(cwd, d));
      }
    case CopyTreeTo(s, d) =>
      CopyTreeValid(fs, Canonical(cwd, s), Canonical(cwd, d));
    case ClearTreeAt(d) =>
      var p := Canonical(cwd, d);
      if p in fs {
        RemoveTreeValid(fs, p);
      }
  }

  /** Carrying out effects keeps a well-formed tree well formed, whether or not they all succeed. */
  lemma {:induction false} PerformValid(fs: Tree, cwd: Path, unpack: Unpacker, steps: seq<Effect>)
    requires Valid(fs)
    ensures Valid(Perform(fs, cwd, unpack, steps).tree)
    decreases |steps|
  {
    if steps != [] {
      var next := Apply(fs, cwd, unpack, steps[0]);
      if next.Ok? {
        ApplyValid(fs, cwd, unpack, steps[0]);
        PerformValid(next.value, cwd, unpack, steps[1..]);
      }
    }
  }

  /** `q` is on the line through `p`: one of its ancestors, `p` itself, or below it. */
  predicate Near(q: Path, p: Path)
  {
    Under(q, p) || Under(p, q)
  }

  /** The two trees hold the same entries at every path away from `p`. */
  ghost predicate SameAway(t1: Tree, t2: Tree, p: Path)
  {
    forall q :: !Near(q, p) ==> (q in t1 <==> q in t2) && (q in t1 ==> t1[q] == t2[q])
  }

  /** Two prefixes of one path lie on one line. */
  lemma NearPrefix(p: Path, a: Path, b: Path)
    requires Under(p, a) && Under(p, b)
    ensures Near(a, b)
  {
    if |a| <= |b| {
      assert b[..|a|] == p[..|a|];
    } else {
      assert a[..|b|] == p[..|b|];
    }
  }

  lemma UnderUnder(a: Path, b: Path, c: Path)
    requires Under(a, b) && Under(b, c)
    ensures Under(a, c)
  {
    assert a[..|c|] == a[..|b|][..|c|];
  }

  /** Grafting a tree at `p`, with the missing parents of `p` made, changes nothing away from a path above `p`. */
  lemma GraftAway(fs: Tree, m: Tree, src: Path, p: Path, t: Path)
    requires Under(p, t)
    ensures SameAway(fs, AddDirs(fs, p) + Reroot(m, src, p), t)
  {
    var a := AddDirs(fs, p);
    forall q | q in Reroot(m, src, p) ensures Near(q, t) {
      RerootUnder(m, src, p, q);
      UnderUnder(q, p, t);
    }
    forall q | q in a && q !in fs ensures Near(q, t) {
      NearPrefix(p, q, t);
    }
  }

  /** An effect whose targets all lie below `t` changes nothing away from `t`. */
  lemma ApplyAway(fs: Tree, cwd: Path, unpack: Unpacker, e: Effect, t: Path)
    requires Apply(fs, cwd, unpack, e).Ok?
    requires forall w :: w in Writes(e) ==> Under(Canonical(cwd, w), t)
    ensures SameAway(fs, Apply(fs, cwd, unpack, e).value, t)
  {
    match e
    case Request(_, _) =>
    case MakeDirsAt(d) =>
      var p := Canonical(cwd, d);
      assert d in Writes(e);
      forall q | q in MakeDirs(fs, p).value && q !in fs ensures Near(q, t) {
        NearPrefix(p, q, t);
      }
    case WriteTo(f, _) =>
      assert f in Writes(e);
    case RenameTo(a, b) =>
      assert a in Writes(e) && b in Writes(e);
    case ExtractTo(a, format, d) =>
      var p := Canonical(cwd, d);
      assert d in Writes(e);
      var m := unpack(format, fs[Canonical(cwd, a)].content).value;
      GraftAway(fs, m, [], p, t);
    case CopyTreeTo(s, d) =>
      var p := Canonical(cwd, d);
      assert d in Writes(e);
      GraftAway(fs, fs, Canonical(cwd, s), p, t);
    case ClearTreeAt(d) =>
      var p := Canonical(cwd, d);
      assert d in Writes(e);
      forall q | q in fs && Under(q, p) ensures Near(q, t) {
        UnderUnder(q, p, t);
      }
  }

  /** Effects whose targets all lie below `t` leave every path away from `t` as it was, however far they get. */
  lemma {:induction false} PerformAway(fs: Tree, cwd: Path, unpack: Unpacker, steps: seq<Effect>, t: Path)
    requires forall i, w :: 0 <= i < |steps| && w in Writes(steps[i]) ==> Under(Canonical(cwd, w), t)
    ensures SameAway(fs, Perform(fs, cwd, unpack, steps).tree, t)
    decreases |steps|
  {
    if steps != [] {
      var next := Apply(fs, cwd, unpack, steps[0]);
      if next.Ok? {
        ApplyAway(fs, cwd, unpack, steps[0], t);
        assert forall i :: 0 <= i < |steps[1..]| ==> steps[1..][i] == steps[i + 1];
        PerformAway(next.value, cwd, unpack, steps[1..], t);
      }
    }
  }
}
