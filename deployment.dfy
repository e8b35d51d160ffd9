/** The tutorial deployment of the Pyramid server (src/tutorial_server/deployment.py): the recursive
    `deploy_content`, the files-only workspace walk, the ready flag with its JSON view, and the decorator that
    serves a loading page until the flag is up. */
module Deployment {
  import opened Common
  import opened Paths
  import opened Trees
  import opened Policies
  import opened Fetch

  /** `deploy_content(app_source, home_dir, tmp_dir)`: the effects, in order, and how it ends. A URL source is
      "<url>$$<file name>": the URL is fetched (without headers) and a 200 reply saved under that name in the
      temporary directory, which is deployed in turn; a local archive (by suffix) is extracted to `tutorial` in
      the temporary directory, which is deployed in turn; anything else replaces `tutorial` in the home
      directory, which is removed first. `depth` bounds the nested calls followed. */
  function PyramidDeploy(home: string, tmp: string, web: Web, source: string, depth: nat): Plan
    decreases depth, 2
  {
    if IsUrl(source) then RemoteDeploy(home, tmp, web, source, depth)
    else LocalDeploy(home, tmp, web, source, depth)
  }

  /** A URL source: it must split on "$$" into exactly the URL and the file name, or the unpacking raises. */
  function RemoteDeploy(home: string, tmp: string, web: Web, source: string, depth: nat): Plan
    decreases depth, 1
  {
    var pieces := SplitOn(source, "$$");
    if |pieces| != 2 then Plan([], Raises)
    else Download(home, tmp, web, pieces[0], pieces[1], depth)
  }

  /** `if os.path.exists(dst): shutil.rmtree(dst)` and then `shutil.copytree(src, dst)`: two steps, so a copy
      that raises comes after the old `dst` was already removed. */
  function CopySteps(src: string, dst: string): seq<Effect>
  {
    [ClearTreeAt(dst), CopyTreeTo(src, dst)]
  }

  /** A local source: an archive is extracted and the result deployed in turn; anything else is copied. */
  function LocalDeploy(home: string, tmp: string, web: Web, source: string, depth: nat): Plan
    decreases depth, 1
  {
    var format := LocalFormat(source);
    if format.Some? then
      var extracted := [ExtractTo(source, format.value, Join(tmp, "tutorial"))];
      if depth == 0 then Plan(extracted, TooDeep)
      else Then(extracted, PyramidDeploy(home, tmp, web, Join(tmp, "tutorial"), depth - 1))
    else Plan(CopySteps(source, Join(home, "tutorial")), Completed)
  }

  /** `requests.get(url)`, which raises only when the request fails: a 200 reply is saved under `name` in the
      temporary directory and deployed from there; any other status does nothing. */
  function Download(home: string, tmp: string, web: Web, url: string, name: string, depth: nat): Plan
    decreases depth, 0
  {
    var reply := web(url, []);
    if reply.None? then Plan([Request(url, [])], Raises)
    else if reply.value.status != 200 then Plan([Request(url, [])], Completed)
    else
      var saved := [Request(url, []), MakeDirsAt(tmp), WriteTo(Join(tmp, name), reply.value.body)];
      if depth == 0 then Plan(saved, TooDeep)
      else Then(saved, PyramidDeploy(home, tmp, web, Join(tmp, name), depth - 1))
  }

  /** The extracted tutorial is neither a URL nor an archive name, so deploying it copies it. */
  lemma ExtractedIsPlain(tmp: string, t: string)
    requires tmp != "" && !IsUrl(tmp) && t == Join(tmp, "tutorial")
    ensures !IsUrl(t) && LocalFormat(t).None?
  {
    assert "tutorial"[0] == 't';
    JoinNotUrl(tmp, "tutorial");
    assert EndsWith(t, "tutorial") by {
      if !EndsWith(tmp, "/") {
        assert t == tmp + "/" + "tutorial";
      }
    }
    assert t[|t| - 1] == 'l';
  }

  /** A local source: an archive is extracted to the temporary `tutorial` directory, which then replaces the
      home directory's `tutorial`; anything else replaces it directly. Nothing nests further. */
  lemma PyramidLocal(home: string, tmp: string, web: Web, source: string, depth: nat)
    requires !IsUrl(source) && tmp != "" && !IsUrl(tmp) && depth >= 1
    ensures var f := LocalFormat(source);
      PyramidDeploy(home, tmp, web, source, depth) ==
        if f.Some? then
          Plan([ExtractTo(source, f.value, Join(tmp, "tutorial"))] +
               CopySteps(Join(tmp, "tutorial"), Join(home, "tutorial")), Completed)
        else Plan(CopySteps(source, Join(home, "tutorial")), Completed)
  {
    var f := LocalFormat(source);
    if f.Some? {
      ArchiveDeploy(home, tmp, web, source, depth, f.value);
    } else {
      CopyDeploy(home, tmp, web, source, depth);
    }
  }

  lemma ArchiveDeploy(home: string, tmp: string, web: Web, source: string, depth: nat, f: ArchiveFormat)
    requires !IsUrl(source) && tmp != "" && !IsUrl(tmp) && depth >= 1 && LocalFormat(source) == Some(f)
    ensures PyramidDeploy(home, tmp, web, source, depth) ==
      Plan([ExtractTo(source, f, Join(tmp, "tutorial"))] + CopySteps(Join(tmp, "tutorial"), Join(home, "tutorial")),
           Completed)
  {
    var t, h := Join(tmp, "tutorial"), Join(home, "tutorial");
    ExtractedIsPlain(tmp, t);
    CopyDeploy(home, tmp, web, t, depth - 1);
    ArchivePlan(home, tmp, web, source, depth, f, t, h);
  }

  lemma CopyDeploy(home: string, tmp: string, web: Web, source: string, depth: nat)
    requires !IsUrl(source) && LocalFormat(source).None?
    ensures PyramidDeploy(home, tmp, web, source, depth) == Plan(CopySteps(source, Join(home, "tutorial")), Completed)
  {
    LocalIsDeployed(home, tmp, web, source, depth);
    LocalCopy(home, tmp, web, source, depth);
  }

  lemma ArchivePlan(home: string, tmp: string, web: Web, source: string, depth: nat, f: ArchiveFormat,
                    t: string, h: string)
    requires !IsUrl(source) && depth >= 1 && LocalFormat(source) == Some(f)
    requires t == Join(tmp, "tutorial") && h == Join(home, "tutorial")
    requires PyramidDeploy(home, tmp, web, t, depth - 1) == Plan(CopySteps(t, h), Completed)
    ensures PyramidDeploy(home, tmp, web, source, depth) == Plan([ExtractTo(source, f, t)] + CopySteps(t, h), Completed)
  {
    LocalIsDeployed(home, tmp, web, source, depth);
    LocalArchive(home, tmp, web, source, depth, f);
  }

  lemma LocalIsDeployed(home: string, tmp: string, web: Web, source: string, depth: nat)
    requires !IsUrl(source)
    ensures PyramidDeploy(home, tmp, web, source, depth) == LocalDeploy(home, tmp, web, source, depth)
  {
  }

  lemma LocalCopy(home: string, tmp: string, web: Web, source: string, depth: nat)
    requires LocalFormat(source).None?
    ensures LocalDeploy(home, tmp, web, source, depth) ==
      Plan(CopySteps(source, Join(home, "tutorial")), Completed)
  {
  }

  lemma LocalArchive(home: string, tmp: string, web: Web, source: string, depth: nat, f: ArchiveFormat)
    requires depth >= 1 && LocalFormat(source) == Some(f)
    ensures LocalDeploy(home, tmp, web, source, depth) ==
      Then([ExtractTo(source, f, Join(tmp, "tutorial"))], PyramidDeploy(home, tmp, web, Join(tmp, "tutorial"), depth - 1))
  {
  }

  /** A deployment nests at most twice (download, extract, copy): with a temporary directory that is neither
      empty nor a URL, every depth from 2 on gives the same plan, which never runs out of depth and makes at
      most one request. */
  lemma PyramidNesting(home: string, tmp: string, web: Web, source: string, depth: nat)
    requires tmp != "" && !IsUrl(tmp) && depth >= 2
    ensures PyramidDeploy(home, tmp, web, source, depth) == PyramidDeploy(home, tmp, web, source, 2)
    ensures PyramidDeploy(home, tmp, web, source, 2).outcome != TooDeep
    ensures CountRequests(PyramidDeploy(home, tmp, web, source, 2).steps) <= 1
  {
    if IsUrl(source) {
      var pieces := SplitOn(source, "$$");
      if |pieces| == 2 {
        DownloadNesting(home, tmp, web, pieces[0], pieces[1], depth);
      }
    } else {
      PyramidLocal(home, tmp, web, source, depth);
      PyramidLocal(home, tmp, web, source, 2);
      LocalPlansCount(source, LocalFormat(source), Join(tmp, "tutorial"), Join(home, "tutorial"));
    }
  }

  lemma DownloadNesting(home: string, tmp: string, web: Web, url: string, name: string, depth: nat)
    requires tmp != "" && !IsUrl(tmp) && depth >= 2
    ensures Download(home, tmp, web, url, name, depth) == Download(home, tmp, web, url, name, 2)
    ensures Download(home, tmp, web, url, name, 2).outcome != TooDeep
    ensures CountRequests(Download(home, tmp, web, url, name, 2).steps) <= 1
  {
    var reply := web(url, []);
    if reply.Some? && reply.value.status == 200 {
      DownloadSaved(home, tmp, web, url, name, depth);
    } else {
      var req := [Request(url, [])];
      assert CountRequests(req) == 1 by {
        assert req[1..] == [];
      }
    }
  }

  /** The nesting of a download that succeeded: the saved file is deployed as a local source. */
  lemma DownloadSaved(home: string, tmp: string, web: Web, url: string, name: string, depth: nat)
    requires tmp != "" && !IsUrl(tmp) && depth >= 2
    requires web(url, []).Some? && web(url, []).value.status == 200
    ensures Download(home, tmp, web, url, name, depth) == Download(home, tmp, web, url, name, 2)
    ensures Download(home, tmp, web, url, name, 2).outcome != TooDeep
    ensures CountRequests(Download(home, tmp, web, url, name, 2).steps) <= 1
  {
    SavedStable(home, tmp, web, url, name, depth);
    SavedOnce(home, tmp, web, url, name);
  }

  lemma SavedStable(home: string, tmp: string, web: Web, url: string, name: string, depth: nat)
    requires tmp != "" && !IsUrl(tmp) && depth >= 2
    requires web(url, []).Some? && web(url, []).value.status == 200
    ensures Download(home, tmp, web, url, name, depth) == Download(home, tmp, web, url, name, 2)
  {
    var file := Join(tmp, name);
    SavedFileStable(home, tmp, web, name, depth - 1);
    SavedUnfold(home, tmp, web, url, name, depth, file, PyramidDeploy(home, tmp, web, file, 1));
  }

  lemma SavedFileStable(home: string, tmp: string, web: Web, name: string, depth: nat)
    requires tmp != "" && !IsUrl(tmp) && depth >= 1
    ensures PyramidDeploy(home, tmp, web, Join(tmp, name), depth) == PyramidDeploy(home, tmp, web, Join(tmp, name), 1)
  {
    JoinNotUrl(tmp, name);
    LocalStable(home, tmp, web, Join(tmp, name), depth);
  }

  lemma SavedUnfold(home: string, tmp: string, web: Web, url: string, name: string, depth: nat, file: string,
                    inner: Plan)
    requires depth >= 2 && web(url, []).Some? && web(url, []).value.status == 200 && file == Join(tmp, name)
    requires PyramidDeploy(home, tmp, web, file, depth - 1) == inner && PyramidDeploy(home, tmp, web, file, 1) == inner
    ensures Download(home, tmp, web, url, name, depth) == Download(home, tmp, web, url, name, 2)
  {
    DownloadUnfold(home, tmp, web, url, name, 2);
    DownloadUnfold(home, tmp, web, url, name, depth);
  }

  lemma SavedOnce(home: string, tmp: string, web: Web, url: string, name: string)
    requires tmp != "" && !IsUrl(tmp)
    requires web(url, []).Some? && web(url, []).value.status == 200
    ensures Download(home, tmp, web, url, name, 2).outcome != TooDeep
    ensures CountRequests(Download(home, tmp, web, url, name, 2).steps) <= 1
  {
    var file := Join(tmp, name);
    var saved := [Request(url, []), MakeDirsAt(tmp), WriteTo(file, web(url, []).value.body)];
    JoinNotUrl(tmp, name);
    LocalStable(home, tmp, web, file, 1);
    DownloadUnfold(home, tmp, web, url, name, 2);
    SavedCount(saved, PyramidDeploy(home, tmp, web, file, 1).steps);
  }

  /** A local source deploys the same way at every depth from 1 on, completing without a request. */
  lemma LocalStable(home: string, tmp: string, web: Web, source: string, depth: nat)
    requires !IsUrl(source) && tmp != "" && !IsUrl(tmp) && depth >= 1
    ensures PyramidDeploy(home, tmp, web, source, depth) == PyramidDeploy(home, tmp, web, source, 1)
    ensures PyramidDeploy(home, tmp, web, source, 1).outcome == Completed
    ensures CountRequests(PyramidDeploy(home, tmp, web, source, 1).steps) == 0
  {
    PyramidLocal(home, tmp, web, source, depth);
    PyramidLocal(home, tmp, web, source, 1);
    LocalPlansCount(source, LocalFormat(source), Join(tmp, "tutorial"), Join(home, "tutorial"));
  }

  /** Neither local plan makes a request. */
  lemma LocalPlansCount(source: string, f: Option<ArchiveFormat>, t: string, h: string)
    ensures CountRequests(CopySteps(source, h)) == 0
    ensures f.Some? ==> CountRequests([ExtractTo(source, f.value, t)] + CopySteps(t, h)) == 0
  {
    LocalCount(CopySteps(source, h));
    if f.Some? {
      LocalCount([ExtractTo(source, f.value, t)] + CopySteps(t, h));
    }
  }

  lemma DownloadUnfold(home: string, tmp: string, web: Web, url: string, name: string, depth: nat)
    requires depth >= 1 && web(url, []).Some? && web(url, []).value.status == 200
    ensures Download(home, tmp, web, url, name, depth) ==
      Then([Request(url, []), MakeDirsAt(tmp), WriteTo(Join(tmp, name), web(url, []).value.body)],
           PyramidDeploy(home, tmp, web, Join(tmp, name), depth - 1))
  {
  }

  /** A saved download followed by local steps makes exactly its one request. */
  lemma SavedCount(saved: seq<Effect>, rest: seq<Effect>)
    requires |saved| == 3 && saved[0].Request? && !saved[1].Request? && !saved[2].Request?
    requires CountRequests(rest) == 0
    ensures CountRequests(saved + rest) == 1
  {
    CountRequestsAppend(saved, rest);
    assert saved[1..][1..][1..] == [];
    assert CountRequests(saved[1..][1..]) == 0;
    assert CountRequests(saved[1..]) == 0;
  }

  /** Effects that are not requests count none. */
  lemma {:induction false} LocalCount(steps: seq<Effect>)
    requires forall i :: 0 <= i < |steps| ==> !steps[i].Request?
    ensures CountRequests(steps) == 0
    decreases |steps|
  {
    if steps != [] {
      LocalCount(steps[1..]);
    }
  }

  /** A URL source "<url>$$<name>", neither part holding a '$': the URL part alone is requested, and a 200
      reply is saved under the name in the temporary directory and deployed from there. */
  lemma PyramidRemote(home: string, tmp: string, web: Web, url: string, name: string, depth: nat)
    requires IsUrl(url) && '$' !in url && '$' !in name
    ensures var p := PyramidDeploy(home, tmp, web, url + "$$" + name, depth);
      var reply := web(url, []);
      p == Download(home, tmp, web, url, name, depth) &&
      p.steps != [] && p.steps[0] == Request(url, []) &&
      (reply.None? ==> p == Plan([Request(url, [])], Raises)) &&
      (reply.Some? && reply.value.status != 200 ==> p == Plan([Request(url, [])], Completed)) &&
      (reply.Some? && reply.value.status == 200 ==>
        |p.steps| >= 3 && p.steps[1] == MakeDirsAt(tmp) && p.steps[2] == WriteTo(Join(tmp, name), reply.value.body))
  {
    var source := url + "$$" + name;
    assert IsUrl(source) by {
      assert source[..|url|] == url;
    }
    SplitAtFirst(url, "$$", name);
    SplitAbsent(name, "$$");
    assert SplitOn(source, "$$") == [url, name];
  }

  /** A URL source without a "$$" and without any '$' cannot be split into a URL and a name: the deployment
      raises before requesting anything. */
  lemma PyramidUnnamed(home: string, tmp: string, web: Web, source: string, depth: nat)
    requires IsUrl(source) && '$' !in source
    ensures PyramidDeploy(home, tmp, web, source, depth) == Plan([], Raises)
  {
    SplitAbsent(source, "$$");
  }

  /** The copying branch on a well-formed tree, source and target apart: it succeeds exactly when the source
      is a directory and the way to the target is free of files, and then leaves the tree the tutorial policy
      gives (whose exactness `ReplaceSubtreeExact` states). When it fails, either nothing has changed or the old
      target was removed and the copy then raised. */
  lemma PyramidCopySound(fs: Tree, cwd: Path, unpack: Unpacker, src: string, dst: string)
    requires Valid(fs) && Disjoint(Canonical(cwd, src), Canonical(cwd, dst))
    ensures var r := Run(fs, cwd, unpack, Plan(CopySteps(src, dst), Completed));
      var s, d := Canonical(cwd, src), Canonical(cwd, dst);
      (r.ok <==> IsDir(fs, s) && !Obstructed(fs, d)) &&
      (r.ok ==> r.tree == ReplaceSubtree(fs, s, d).value) &&
      (!r.ok ==> r.tree == fs || r.tree == RemoveTree(fs, d))
  {
    var s, d := Canonical(cwd, src), Canonical(cwd, dst);
    ReplaceSubtreeSucceeds(fs, s, d);
    var steps := CopySteps(src, dst);
    assert steps[1..] == [CopyTreeTo(src, dst)];
    assert steps[1..][1..] == [];
    var c := Apply(fs, cwd, unpack, steps[0]);
    if c.Ok? {
      assert c.value == if d in fs then RemoveTree(fs, d) else fs;
      var n := CopyTree(c.value, s, d);
      assert Perform(fs, cwd, unpack, steps) == Perform(c.value, cwd, unpack, steps[1..]);
      if n.Ok? {
        assert Perform(c.value, cwd, unpack, steps[1..]) == Perform(n.value, cwd, unpack, []);
      }
    }
  }

  /** `str.replace(pat, rep)`: every non-overlapping occurrence, left to right, replaced. */
  function ReplaceAll(s: string, pat: string, rep: string): string
    requires pat != ""
  {
    JoinOn(SplitOn(s, pat), rep)
  }

  /** A page with a single placeholder, and no '$' elsewhere, gets exactly the replacement in its place. */
  lemma ReplaceOnce(a: string, pat: string, b: string, rep: string)
    requires pat != "" && pat[0] !in a && pat[0] !in b
    ensures ReplaceAll(a + pat + b, pat, rep) == a + rep + b
  {
    SplitAtFirst(a, pat, b);
    SplitAbsent(b, pat);
    JoinOnCons(a, [b], rep);
  }

  /** What a view guarded by `require_tutorial_ready` answers: the view's own response, or the loading page
      (served as UTF-8 HTML) that polls the ready URL. */
  datatype Guarded = Passed(response: Response) | Loading(contentType: string, encoding: string, page: string)

  /** `require_tutorial_ready`: the view runs only once the tutorial is ready; before that, the loading page
      with its `$ready_url` placeholder replaced by the ready route's URL. */
  function RequireTutorialReady(ready: bool, view: Response, loadingPage: string, readyUrl: string): Guarded
  {
    if ready then Passed(view) else Loading("text/html", "utf-8", ReplaceAll(loadingPage, "$ready_url", readyUrl))
  }

  /** The view runs exactly when the tutorial is ready; otherwise a page with a single placeholder is served with
      the ready URL in its place. */
  lemma GateSound(ready: bool, view: Response, before: string, after: string, readyUrl: string)
    requires '$' !in before && '$' !in after
    ensures RequireTutorialReady(ready, view, before + "$ready_url" + after, readyUrl).Passed? <==> ready
    ensures ready ==> RequireTutorialReady(ready, view, before + "$ready_url" + after, readyUrl) == Passed(view)
    ensures !ready ==>
      RequireTutorialReady(ready, view, before + "$ready_url" + after, readyUrl).page == before + readyUrl + after
  {
    if !ready {
      ReplaceOnce(before, "$ready_url", after, readyUrl);
    }
  }

  /** `ready_view`: the JSON document `{"status": <flag>}`. */
  function ReadyJson(ready: bool): (r: string)
  {
    "{\"status\": " + (if ready then "true" else "false") + "}"
  }

  /** The document tells the two states apart. */
  lemma ReadyJsonFaithful(a: bool, b: bool)
    ensures ReadyJson(a) == ReadyJson(b) <==> a == b
  {
    if a != b {
      var i := |"{\"status\": "|;
      assert ReadyJson(a)[i] != ReadyJson(b)[i];
    }
  }

  /** The Pyramid server's deployment state: the filesystem and the ready flag, with the `app.source`,
      `app.home` and `app.tmp` settings, the working directory, the network and the archive readers. */
  class TutorialDeployment {
    var fs: Tree
    var ready: bool
    const source: string
    const home: string
    const tmp: string
    const cwd: Path
    const web: Web
    const unpack: Unpacker

    ghost predicate Valid()
      reads this
    {
      Trees.Valid(fs) && IsCanonical(cwd)
    }

    /** The flag starts down (`tutorial_ready = False`). */
    constructor (source: string, home: string, tmp: string, cwd: Path, web: Web, unpack: Unpacker, fs: Tree)
      requires Trees.Valid(fs) && IsCanonical(cwd)
      ensures Valid() && !ready
      ensures this.fs == fs && this.source == source && this.home == home && this.tmp == tmp
      ensures this.cwd == cwd && this.web == web && this.unpack == unpack
    {
      this.fs := fs;
      this.ready := false;
      this.source := source;
      this.home := home;
      this.tmp := tmp;
      this.cwd := cwd;
      this.web := web;
      this.unpack := unpack;
    }

    function TmpPath(): Path
    {
      Canonical(cwd, tmp)
    }

    /** The workspace shipped with the tutorial, and where it is deployed. */
    function WorkspaceSource(): Path
    {
      Canonical(cwd, JoinAll(tmp, ["tutorial", "_static", "workspace"]))
    }

    function WorkspaceTarget(): Path
    {
      Canonical(cwd, Join(home, "workspace"))
    }

    /** `ready_view`. */
    function ReadyView(): (r: string)
      reads this
    {
      ReadyJson(ready)
    }

    /** `if os.path.exists(tmp): shutil.rmtree(tmp)`. */
    method ClearTmp() returns (ok: bool)
      requires Valid()
      modifies this`fs
      ensures Valid()
      ensures ok <==> TmpPath() !in old(fs) || RmTree(old(fs), TmpPath()).Ok?
      ensures ok ==> TmpPath() !in fs && fs == (if TmpPath() in old(fs) then RemoveTree(old(fs), TmpPath()) else old(fs))
      ensures !ok ==> fs == old(fs)
    {
      if TmpPath() in fs {
        var cleared := RmTree(fs, TmpPath());
        if cleared.Err? {
          return false;
        }
        RemoveTreeValid(fs, TmpPath());
        fs := cleared.value;
      }
      ok := true;
    }

    /** `deploy_content(app.source, app.home, app.tmp)`: its effects carried out in order until one fails. */
    method DeployContent() returns (ok: bool)
      requires Valid()
      modifies this`fs
      ensures Valid()
      ensures var r := Run(old(fs), cwd, unpack, PyramidDeploy(home, tmp, web, source, 2));
        fs == r.tree && ok == r.ok
    {
      var plan := PyramidDeploy(home, tmp, web, source, 2);
      PerformValid(fs, cwd, unpack, plan.steps);
      var r := Run(fs, cwd, unpack, plan);
      fs := r.tree;
      ok := r.ok;
    }

    /** `deploy_workspace(app.home, app.tmp)`: when the shipped workspace exists, walk its files and copy each one
        missing at the target, making its directories first. `files` is the order in which the walk listed them.
        Whether it succeeds or not, nothing that existed changes. */
    method DeployWorkspace() returns (ok: bool, files: seq<Path>)
      requires Valid()
      modifies this`fs
      ensures Valid() && Extends(old(fs), fs)
      ensures Enumerates(files, RelFiles(old(fs), WorkspaceSource()))
      ensures ok <==> PyramidWorkspace(old(fs), WorkspaceSource(), WorkspaceTarget(), files).Ok?
      ensures ok ==> fs == PyramidWorkspace(old(fs), WorkspaceSource(), WorkspaceTarget(), files).value
    {
      var src, dst := WorkspaceSource(), WorkspaceTarget();
      files := EnumerateSet(RelFiles(fs, src));
      if !IsDir(fs, src) {
        return true, files;
      }
      var i := 0;
      while i < |files|
        invariant 0 <= i <= |files|
        invariant Walk(FilesOnly, old(fs), src, dst, files[..i]) == Ok(fs)
        invariant Valid() && Extends(old(fs), fs)
      {
        var next := Step(FilesOnly, fs, src, dst, files[i]);
        WalkAdvance(FilesOnly, old(fs), fs, src, dst, files, i);
        if next.Err? {
          return false, files;
        }
        fs := next.value;
        i := i + 1;
      }
      assert files[..i] == files;
      ok := true;
    }

    /** `deploy_tutorial(config)`, run on its own thread at start-up: clear the temporary directory, deploy the
        content and the workspace, clear the temporary directory again and raise the flag. The first step that
        fails ends it with the flag as it was; the flag is never lowered. */
    method DeployTutorial() returns (ok: bool)
      requires Valid()
      modifies this
      ensures Valid()
      ensures ready == (old(ready) || ok)
      ensures ok ==> Run(if TmpPath() in old(fs) then RemoveTree(old(fs), TmpPath()) else old(fs),
                         cwd, unpack, PyramidDeploy(home, tmp, web, source, 2)).ok
      ensures ok ==> TmpPath() !in fs
    {
      var cleared := ClearTmp();
      if !cleared {
        return false;
      }
      var deployed := DeployContent();
      if !deployed {
        return false;
      }
      var walked, files := DeployWorkspace();
      if !walked {
        return false;
      }
      cleared := ClearTmp();
      if !cleared {
        return false;
      }
      ready := true;
      ok := true;
    }
  }
}
