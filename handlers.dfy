/** The Tornado request handlers: the root redirect, the tutorial file handler, the download of every deployed
    part as one zip archive, and the refresh. The ready flag, the configuration and the filesystem are those of
    the content server; the `basepath` option is a parameter. Error pages are not rendered: a failure is its
    status alone. */
module Handlers {
  import opened Common
  import opened Paths
  import opened Trees
  import opened Fetch
  import opened Mime
  import opened Content

  /** One member of the download archive: its name inside the zip file and its bytes. */
  type Entry = (string, Bytes)

  /** What a handler makes Tornado send: a 200 with a written body, a 200 with a zip archive of the given
      entries (the zip encoding itself is not modelled), a redirect, an error status (from `send_error` or from
      an exception the handler lets escape), or a 200 with nothing written. */
  datatype Answer =
    | Served(headers: seq<Header>, body: Bytes)
    | Zipped(headers: seq<Header>, entries: seq<Entry>)
    | Redirect(location: string)
    | Failed(status: int)
    | Empty

  // ----- RootHandler -----

  /** `RootHandler.head`: a 503 while the content is not ready, an empty answer once it is. */
  function RootHead(ready: bool): (a: Answer)
    ensures a == Empty <==> ready
    ensures !ready ==> a == Failed(503)
  {
    if !ready then Failed(503) else Empty
  }

  /** `RootHandler.get`: once ready, a redirect to the default part's directory below the base path. */
  function RootGet(ready: bool, basepath: string, default: string): (a: Answer)
    ensures a.Redirect? <==> ready
    ensures a.Redirect? ==>
      |a.location| == |basepath| + |default| + 1 && StartsWith(a.location, basepath) && EndsWith(a.location, "/") &&
      a.location[|basepath|..|a.location| - 1] == default
    ensures !ready ==> a == Failed(503)
  {
    if ready then Redirect(basepath + default + "/") else Failed(503)
  }

  // ----- TutorialHandler -----

  /** The file name looked up for a request path: an empty path, or one naming a directory with a final '/',
      gets 'index.html' appended. */
  function LookupName(path: string): (r: string)
    ensures StartsWith(r, path)
    ensures r != path <==> path == "" || EndsWith(path, "/")
    ensures r != path ==> r[|path|..] == "index.html"
  {
    if path == "" || EndsWith(path, "/") then path + "index.html" else path
  }

  /** `rootpath`, the string `os.path.abspath(os.path.join(home, part))`. */
  function RootPath(cwd: Path, home: string, part: string): string
  {
    AbsPath(cwd, Join(home, part))
  }

  /** The directory `rootpath` names: the one the handler serves, named after the part. */
  function PartRoot(cwd: Path, home: string, part: string): Path
  {
    Canonical(cwd, Join(home, part))
  }

  /** `filepath`, the string `os.path.abspath(os.path.join(rootpath, filename))`. */
  function FilePath(cwd: Path, home: string, part: string, path: string): string
  {
    AbsPath(cwd, Join(RootPath(cwd, home, part), LookupName(path)))
  }

  /** The file `filepath` names. */
  function Requested(cwd: Path, home: string, part: string, path: string): Path
  {
    Canonical(cwd, Join(RootPath(cwd, home, part), LookupName(path)))
  }

  /** The file the handler opens is the request's name joined onto the rendered root: a two-slash root names
      the same directories as "/". */
  lemma RequestedBelowRoot(cwd: Path, home: string, part: string, path: string)
    requires IsCanonical(cwd)
    ensures Requested(cwd, home, part, path) == Canonical(cwd, Join(Render(PartRoot(cwd, home, part)), LookupName(path)))
    ensures Canonical(cwd, FilePath(cwd, home, part, path)) == Requested(cwd, home, part, path)
  {
    var root := Render(PartRoot(cwd, home, part));
    assert root[..1] == "/";
    if DoubleRoot(Join(home, part)) {
      JoinExtraSlash(cwd, root, LookupName(path));
    } else {
      assert RootPath(cwd, home, part) == root;
    }
  }

  /** `TutorialHandler.get`: once ready, the requested path is served when `filepath` starts with `rootpath`
      and it exists. A regular file is written with its guessed type and the base path as 'X-URL-prefix'; a
      directory makes the read raise, which Tornado answers with a 500. Anything else is a 404. */
  function TutorialGet(fs: Tree, cwd: Path, home: string, part: string, path: string, basepath: string,
                       sniff: Sniffer, guess: Guesser, ready: bool): (a: Answer)
    ensures a.Served? ==>
      var f := Requested(cwd, home, part, path);
      ready && IsFile(fs, f) && StartsWith(FilePath(cwd, home, part, path), RootPath(cwd, home, part)) &&
      a.body == fs[f].content
  {
    if !ready then Failed(503)
    else
      var f := Requested(cwd, home, part, path);
      if StartsWith(FilePath(cwd, home, part, path), RootPath(cwd, home, part)) && f in fs then
        if fs[f].File? then
          Served([("Content-Type", GuessMimeType(sniff(fs[f].content), guess(Render(f)))), ("X-URL-prefix", basepath)],
                 fs[f].content)
        else Failed(500)
      else Failed(404)
  }

  /** Every answer of the tutorial handler: 503 before the content is ready whatever the path, 404 for a path
      that fails the prefix test or does not exist, 500 for a directory, and otherwise the file's bytes with
      its type and the base path. */
  lemma TutorialGetCases(fs: Tree, cwd: Path, home: string, part: string, path: string, basepath: string,
                         sniff: Sniffer, guess: Guesser, ready: bool)
    ensures var a := TutorialGet(fs, cwd, home, part, path, basepath, sniff, guess, ready);
      var f := Requested(cwd, home, part, path);
      var inside := StartsWith(FilePath(cwd, home, part, path), RootPath(cwd, home, part));
      (!ready ==> a == Failed(503)) &&
      (ready && (!inside || f !in fs) ==> a == Failed(404)) &&
      (ready && inside && IsDir(fs, f) ==> a == Failed(500)) &&
      (ready && inside && IsFile(fs, f) ==>
         a.Served? && a.body == fs[f].content && |a.headers| == 2 &&
         a.headers[0] == ("Content-Type", GuessMimeType(sniff(fs[f].content), guess(Render(f)))) &&
         a.headers[1] == ("X-URL-prefix", basepath))
  {
  }

  /** What the prefix test guarantees about a served file: it agrees with the root on all but the root's last
      segment, where its own segment only begins with the root's, so a sibling directory whose name extends
      the part's name is served too. */
  lemma TutorialGetContained(fs: Tree, cwd: Path, home: string, part: string, path: string, basepath: string,
                             sniff: Sniffer, guess: Guesser, ready: bool)
    requires IsCanonical(cwd) && TutorialGet(fs, cwd, home, part, path, basepath, sniff, guess, ready).Served?
    ensures var root, f := PartRoot(cwd, home, part), Requested(cwd, home, part, path);
      root == [] || (|root| <= |f| && f[..|root| - 1] == root[..|root| - 1] && StartsWith(f[|root| - 1], root[|root| - 1]))
  {
    var root, f := PartRoot(cwd, home, part), Requested(cwd, home, part, path);
    if root != [] {
      RequestedBelowRoot(cwd, home, part, path);
      LeadPrefix(f, root, DoubleRoot(Join(RootPath(cwd, home, part), LookupName(path))), DoubleRoot(Join(home, part)));
      RenderPrefix(f, root);
    }
  }

  /** A request path starting with exactly two slashes replaces the root, and `abspath` keeps its two-slash
      root: below a root other than "/" that lacks one, it never passes the prefix test and is a 404, whatever
      file it names. */
  lemma TutorialGetDoubleSlash(fs: Tree, cwd: Path, home: string, part: string, path: string, basepath: string,
                               sniff: Sniffer, guess: Guesser)
    requires IsCanonical(cwd) && DoubleRoot(path) && !DoubleRoot(Join(home, part)) && PartRoot(cwd, home, part) != []
    ensures TutorialGet(fs, cwd, home, part, path, basepath, sniff, guess, true) == Failed(404)
  {
    DoubleSlashOutside(cwd, home, part, path);
  }

  /** The prefix test behind `TutorialGetDoubleSlash`. */
  lemma DoubleSlashOutside(cwd: Path, home: string, part: string, path: string)
    requires IsCanonical(cwd) && DoubleRoot(path) && !DoubleRoot(Join(home, part)) && PartRoot(cwd, home, part) != []
    ensures !StartsWith(FilePath(cwd, home, part, path), RootPath(cwd, home, part))
  {
    var name := LookupName(path);
    DoubleRootName(path);
    assert Join(RootPath(cwd, home, part), name) == name;
    LeadPrefix(Requested(cwd, home, part, path), PartRoot(cwd, home, part), true, false);
  }

  /** Looking up a path with a two-slash root keeps that root. */
  lemma DoubleRootName(path: string)
    requires DoubleRoot(path)
    ensures DoubleRoot(LookupName(path)) && StartsWith(LookupName(path), "/")
  {
    var name := LookupName(path);
    assert name[..|path|] == path;
    if |path| == 2 {
      assert name == "//index.html";
    }
  }

  /** A request path made of plain names joined by '/' names exactly that file below the root, and a regular
      file there is always served. */
  lemma TutorialGetNames(fs: Tree, cwd: Path, home: string, part: string, rel: Path, basepath: string,
                         sniff: Sniffer, guess: Guesser)
    requires IsCanonical(cwd) && IsCanonical(rel) && rel != []
    ensures Requested(cwd, home, part, JoinOn(rel, "/")) == PartRoot(cwd, home, part) + rel
    ensures IsFile(fs, PartRoot(cwd, home, part) + rel) ==>
      TutorialGet(fs, cwd, home, part, JoinOn(rel, "/"), basepath, sniff, guess, true).Served?
  {
    var root := PartRoot(cwd, home, part);
    var path := JoinOn(rel, "/");
    JoinOnEnds(rel);
    assert !EndsWith(path, "/") by { assert path[|path| - 1..][0] == path[|path| - 1]; }
    RequestedBelowRoot(cwd, home, part, path);
    JoinBelow(cwd, root, rel);
    var rootPath := RootPath(cwd, home, part);
    var d := DoubleRoot(Join(home, part));
    assert rootPath[..1] == "/" by { assert Render(root)[..1] == "/"; }
    JoinKeepsRoot(rootPath, path);
    RenderAppendPrefix(root, rel);
    StartsWithBoth(Lead(d), Render(root + rel), Render(root));
  }

  /** An empty request path, or plain names followed by '/', is looked up as that directory's 'index.html'. */
  lemma TutorialGetIndex(cwd: Path, home: string, part: string, rel: Path)
    requires IsCanonical(cwd) && IsCanonical(rel)
    ensures Requested(cwd, home, part, if rel == [] then "" else JoinOn(rel, "/") + "/") ==
      PartRoot(cwd, home, part) + rel + ["index.html"]
  {
    var path := if rel == [] then "" else JoinOn(rel, "/") + "/";
    LookupIndex(rel, path);
    RequestedBelowRoot(cwd, home, part, path);
    JoinBelow(cwd, PartRoot(cwd, home, part), rel + ["index.html"]);
    PathConcat3(PartRoot(cwd, home, part), rel, ["index.html"]);
  }

  lemma LookupIndex(rel: Path, path: string)
    requires IsCanonical(rel) && path == if rel == [] then "" else JoinOn(rel, "/") + "/"
    ensures LookupName(path) == JoinOn(rel + ["index.html"], "/") && IsCanonical(rel + ["index.html"])
  {
    assert IsName("index.html");
    CanonicalAppend(rel, ["index.html"]);
    if rel == [] {
      assert rel + ["index.html"] == ["index.html"];
    } else {
      JoinOnAppend(rel, ["index.html"], "/");
      assert EndsWith(path, "/") by { assert path[|path| - 1..] == "/"; }
    }
  }

  // ----- DownloadHandler -----

  /** The directory a part's download walks: `os.path.join(home, target)`, as a string and canonical. */
  function PartString(cfg: Config, name: string): string
    requires name in cfg.sections
  {
    Join(cfg.home, cfg.sections[name].target)
  }

  function PartDir(cwd: Path, cfg: Config, name: string): Path
    requires name in cfg.sections
  {
    Canonical(cwd, PartString(cfg, name))
  }

  /** The intended archive name of the file at `rel` below a part's directory: the application name, then the
      walked path with the home prefix and its separator removed. The download itself uses
      `EntryNameAsWritten`. */
  function EntryName(cfg: Config, name: string, rel: Path): string
    requires name in cfg.sections
  {
    cfg.name + "/" + RelName(cfg.home, JoinAll(PartString(cfg, name), rel))
  }

  /** The same name with the home prefix cut off by length, `filepath[len(home_path) + 1:]`. */
  function EntryNameAsWritten(cfg: Config, name: string, rel: Path): string
    requires name in cfg.sections
  {
    cfg.name + "/" + RelNameAsWritten(cfg.home, JoinAll(PartString(cfg, name), rel))
  }

  /** A target that is a relative path without a final '/': the file at `rel` is archived as
      "<name>/<target>/<rel>", whatever the home string is. */
  lemma EntryNameOf(cfg: Config, name: string, rel: Path)
    requires name in cfg.sections && IsCanonical(rel) && rel != []
    requires var t := cfg.sections[name].target; t != "" && t[0] != '/' && t[|t| - 1] != '/'
    ensures EntryName(cfg, name, rel) == cfg.name + "/" + cfg.sections[name].target + "/" + JoinOn(rel, "/")
  {
    var t, j := cfg.sections[name].target, JoinOn(rel, "/");
    assert PartString(cfg, name) == Join(cfg.home, t);
    RelNameBelowTarget(cfg.home, t, rel);
    Concat3(cfg.name + "/", t + "/", j);
    Concat3(cfg.name + "/", t, "/");
  }

  lemma RelNameBelowTarget(home: string, t: string, rel: Path)
    requires IsCanonical(rel) && rel != [] && t != "" && t[0] != '/' && t[|t| - 1] != '/'
    ensures RelName(home, JoinAll(Join(home, t), rel)) == t + "/" + JoinOn(rel, "/")
  {
    var j := JoinOn(rel, "/");
    TargetWalk(home, t, rel);
    RelNameOfJoin(home, t + "/" + j);
  }

  /** With a home string that is empty or ends in '/', cutting by length eats the first character of the
      target: home "/h/" and target "ws" archive "/h/ws/a.txt" as "<name>/s/a.txt". */
  lemma EntryNameAsWrittenDrops(cfg: Config, name: string, rel: Path)
    requires name in cfg.sections && IsCanonical(rel) && rel != []
    requires cfg.home == "" || cfg.home[|cfg.home| - 1] == '/'
    requires var t := cfg.sections[name].target; t != "" && t[0] != '/' && t[|t| - 1] != '/'
    ensures var t := cfg.sections[name].target;
      EntryNameAsWritten(cfg, name, rel) == cfg.name + "/" + (t + "/" + JoinOn(rel, "/"))[1..]
    ensures EntryNameAsWritten(cfg, name, rel) != EntryName(cfg, name, rel)
  {
    var home, t := cfg.home, cfg.sections[name].target;
    var j := JoinOn(rel, "/");
    TargetWalk(home, t, rel);
    if home != "" {
      SlashEnd(home);
    }
    RelNameAsWrittenDrops(home, t + "/" + j);
  }

  /** With a non-empty home that does not end in '/' and a target below it, both namings agree. */
  lemma EntryNameAgrees(cfg: Config, name: string, rel: Path)
    requires name in cfg.sections && IsCanonical(rel) && rel != []
    requires cfg.home != "" && cfg.home[|cfg.home| - 1] != '/'
    requires var t := cfg.sections[name].target; t != "" && t[0] != '/' && t[|t| - 1] != '/'
    ensures EntryNameAsWritten(cfg, name, rel) == EntryName(cfg, name, rel)
  {
    var home, t := cfg.home, cfg.sections[name].target;
    var x := t + "/" + JoinOn(rel, "/");
    TargetWalk(home, t, rel);
    assert x[0] == t[0];
    JoinRelative(home, x);
    Concat3(home, "/", x);
    StartsWithConcat(home + "/", x);
    SlashEnd(home);
    RelNameAgrees(home, home + "/" + x);
  }

  /** The bytes of a regular file, empty for anything else. */
  function FileBytes(fs: Tree, p: Path): (b: Bytes)
    ensures IsFile(fs, p) ==> b == fs[p].content
  {
    if IsFile(fs, p) then fs[p].content else []
  }

  /** The entries of one part, in the order its walk lists the files. */
  function PartEntries(fs: Tree, cwd: Path, cfg: Config, name: string, files: seq<Path>): (r: seq<Entry>)
    requires name in cfg.sections
    ensures |r| == |files|
    ensures forall k :: 0 <= k < |files| ==>
      r[k] == (EntryNameAsWritten(cfg, name, files[k]), FileBytes(fs, PartDir(cwd, cfg, name) + files[k]))
  {
    seq(|files|, k requires 0 <= k < |files| =>
      (EntryNameAsWritten(cfg, name, files[k]), FileBytes(fs, PartDir(cwd, cfg, name) + files[k])))
  }

  /** Where the home string is non-empty without a final '/', and the target is a relative path without a final
      '/', every entry of a part is named "<name>/<target>/<rel>" after the file's path below the target. */
  lemma PartEntriesIntended(fs: Tree, cwd: Path, cfg: Config, name: string, files: seq<Path>, k: nat)
    requires name in cfg.sections && k < |files| && IsCanonical(files[k]) && files[k] != []
    requires cfg.home != "" && cfg.home[|cfg.home| - 1] != '/'
    requires var t := cfg.sections[name].target; t != "" && t[0] != '/' && t[|t| - 1] != '/'
    ensures PartEntries(fs, cwd, cfg, name, files)[k].0 ==
      cfg.name + "/" + cfg.sections[name].target + "/" + JoinOn(files[k], "/")
  {
    EntryNameAgrees(cfg, name, files[k]);
    EntryNameOf(cfg, name, files[k]);
  }

  /** The parts in `parts` each have a section, and `listings[k]` lists every file below the k-th part's
      directory once. */
  predicate Listed(fs: Tree, cwd: Path, cfg: Config, parts: seq<string>, listings: seq<seq<Path>>)
  {
    |listings| == |parts| &&
    forall k :: 0 <= k < |parts| ==>
      parts[k] in cfg.sections && Enumerates(listings[k], RelFiles(fs, PartDir(cwd, cfg, parts[k])))
  }

  /** The archive's entries: each part's entries in turn, in the order the parts are listed. */
  function ZipEntries(fs: Tree, cwd: Path, cfg: Config, parts: seq<string>, listings: seq<seq<Path>>)
    : (r: seq<Entry>)
    requires |listings| == |parts| && forall k :: 0 <= k < |parts| ==> parts[k] in cfg.sections
    decreases |parts|
  {
    if parts == [] then []
    else
      var n := |parts| - 1;
      ZipEntries(fs, cwd, cfg, parts[..n], listings[..n]) + PartEntries(fs, cwd, cfg, parts[n], listings[n])
  }

  /** Every file below every visited part is in the archive, named after its path and holding its bytes. */
  lemma ZipEntriesComplete(fs: Tree, cwd: Path, cfg: Config, parts: seq<string>, listings: seq<seq<Path>>,
                           k: nat, rel: Path)
    requires Listed(fs, cwd, cfg, parts, listings)
    requires k < |parts| && IsFile(fs, PartDir(cwd, cfg, parts[k]) + rel) && rel != []
    ensures (EntryNameAsWritten(cfg, parts[k], rel), fs[PartDir(cwd, cfg, parts[k]) + rel].content) in
      ZipEntries(fs, cwd, cfg, parts, listings)
    decreases |parts|
  {
    var n := |parts| - 1;
    RelMembers(fs, PartDir(cwd, cfg, parts[k]), rel);
    var e := (EntryNameAsWritten(cfg, parts[k], rel), fs[PartDir(cwd, cfg, parts[k]) + rel].content);
    if k == n {
      var i :| 0 <= i < |listings[n]| && listings[n][i] == rel;
      assert PartEntries(fs, cwd, cfg, parts[n], listings[n])[i] == e;
    } else {
      assert Listed(fs, cwd, cfg, parts[..n], listings[..n]);
      ZipEntriesComplete(fs, cwd, cfg, parts[..n], listings[..n], k, rel);
    }
  }

  /** The archive holds nothing else: every entry is a file below one of the parts, with that file's bytes. */
  lemma ZipEntriesSound(fs: Tree, cwd: Path, cfg: Config, parts: seq<string>, listings: seq<seq<Path>>, i: nat)
    requires Listed(fs, cwd, cfg, parts, listings) && i < |ZipEntries(fs, cwd, cfg, parts, listings)|
    ensures exists k, rel :: (0 <= k < |parts| && rel in RelFiles(fs, PartDir(cwd, cfg, parts[k])) &&
      ZipEntries(fs, cwd, cfg, parts, listings)[i] == (EntryNameAsWritten(cfg, parts[k], rel), FileBytes(fs, PartDir(cwd, cfg, parts[k]) + rel)))
    decreases |parts|
  {
    var n := |parts| - 1;
    var front := ZipEntries(fs, cwd, cfg, parts[..n], listings[..n]);
    assert Listed(fs, cwd, cfg, parts[..n], listings[..n]);
    if i < |front| {
      ZipEntriesSound(fs, cwd, cfg, parts[..n], listings[..n], i);
    } else {
      var rel := listings[n][i - |front|];
      assert ZipEntries(fs, cwd, cfg, parts, listings)[i] ==
        (EntryNameAsWritten(cfg, parts[n], rel), FileBytes(fs, PartDir(cwd, cfg, parts[n]) + rel));
    }
  }

  /** The download's headers: a zip file named after the application, as an attachment. */
  function DownloadHeaders(appName: string): seq<Header>
  {
    [("Content-Type", "application/zip"), ("Content-Disposition", "attachment; filename=" + appName + ".zip")]
  }

  /** `DownloadHandler.get`: once ready, every part listed in `parts` that has a section contributes, in the
      listed order, one entry per file below its target directory. `listings` is the order in which each
      part's walk listed its files. */
  method DownloadGet(fs: Tree, cwd: Path, cfg: Config, ready: bool) returns (a: Answer, listings: seq<seq<Path>>)
    ensures !ready ==> a == Failed(503)
    ensures ready ==>
      var parts := Configured(PartNames(cfg.parts), cfg.sections);
      Listed(fs, cwd, cfg, parts, listings) &&
      a == Zipped(DownloadHeaders(cfg.name), ZipEntries(fs, cwd, cfg, parts, listings))
  {
    if !ready {
      return Failed(503), [];
    }
    var entries;
    entries, listings := ZipParts(fs, cwd, cfg, PartNames(cfg.parts));
    a := Zipped(DownloadHeaders(cfg.name), entries);
  }

  /** The outer loop of the download: the parts in the listed order, skipping those without a section. */
  method ZipParts(fs: Tree, cwd: Path, cfg: Config, names: seq<string>) returns (entries: seq<Entry>, listings: seq<seq<Path>>)
    ensures Listed(fs, cwd, cfg, Configured(names, cfg.sections), listings)
    ensures entries == ZipEntries(fs, cwd, cfg, Configured(names, cfg.sections), listings)
  {
    entries, listings := [], [];
    ghost var parts: seq<string> := [];
    for i := 0 to |names|
      invariant parts == Configured(names[..i], cfg.sections)
      invariant Listed(fs, cwd, cfg, parts, listings)
      invariant entries == ZipEntries(fs, cwd, cfg, parts, listings)
    {
      ConfiguredSnoc(names, i, cfg.sections);
      if names[i] in cfg.sections {
        var files := EnumerateSet(RelFiles(fs, PartDir(cwd, cfg, names[i])));
        var part := PartFiles(fs, cwd, cfg, names[i], files);
        ZipEntriesSnoc(fs, cwd, cfg, parts, listings, names[i], files);
        entries := entries + part;
        listings := listings + [files];
        parts := parts + [names[i]];
      }
    }
    assert names[..|names|] == names;
  }

  lemma ConfiguredSnoc(names: seq<string>, i: nat, sections: map<string, PartConfig>)
    requires i < |names|
    ensures Configured(names[..i + 1], sections) ==
      Configured(names[..i], sections) + (if names[i] in sections then [names[i]] else [])
  {
    ConfiguredAppend(names[..i], [names[i]], sections);
    assert names[..i + 1] == names[..i] + [names[i]];
    assert [names[i]][1..] == [];
  }

  /** The inner loop of the download: one entry per listed file, in the listed order. */
  method PartFiles(fs: Tree, cwd: Path, cfg: Config, name: string, files: seq<Path>) returns (part: seq<Entry>)
    requires name in cfg.sections
    ensures part == PartEntries(fs, cwd, cfg, name, files)
  {
    var dir := PartDir(cwd, cfg, name);
    part := [];
    var j := 0;
    while j < |files|
      invariant 0 <= j <= |files|
      invariant part == PartEntries(fs, cwd, cfg, name, files[..j])
    {
      part := part + [(EntryNameAsWritten(cfg, name, files[j]), FileBytes(fs, dir + files[j]))];
      j := j + 1;
    }
    assert files[..j] == files;
  }

  lemma ZipEntriesSnoc(fs: Tree, cwd: Path, cfg: Config, parts: seq<string>, listings: seq<seq<Path>>,
                       name: string, files: seq<Path>)
    requires |listings| == |parts| && forall k :: 0 <= k < |parts| ==> parts[k] in cfg.sections
    requires name in cfg.sections
    ensures ZipEntries(fs, cwd, cfg, parts + [name], listings + [files]) ==
      ZipEntries(fs, cwd, cfg, parts, listings) + PartEntries(fs, cwd, cfg, name, files)
    ensures Listed(fs, cwd, cfg, parts, listings) && Enumerates(files, RelFiles(fs, PartDir(cwd, cfg, name))) ==>
      Listed(fs, cwd, cfg, parts + [name], listings + [files])
  {
    assert (parts + [name])[..|parts|] == parts;
    assert (listings + [files])[..|parts|] == listings;
  }

  // ----- RefreshHandler -----

  /** `RefreshHandler.post`: a redeployment only once the content is ready, answered with nothing when it
      succeeds and with a 500 when a step raises; before that, a 503 and nothing changes. */
  method RefreshPost(server: ContentServer) returns (a: Answer)
    requires server.Valid()
    modifies server
    ensures server.Valid()
    ensures !old(server.ready) ==> a == Failed(503) && server.fs == old(server.fs) && !server.ready
    ensures old(server.ready) ==> server.ready && (a == Empty || a == Failed(500))
    ensures a == Empty ==> server.TmpPath() !in server.fs
  {
    if !server.ready {
      return Failed(503);
    }
    var ok, deployed := server.DeployContent();
    a := if ok then Empty else Failed(500);
  }
}
