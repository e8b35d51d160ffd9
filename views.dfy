/** The Pyramid tutorial view: a URL path resolved under the tutorial home, first to a file or to a directory's
    first index file, and served with the type the MIME table gives it. The joined path is resolved with
    `Path.resolve(strict=True)`, which looks up every named segment on its way (`Resolve.StrictResolve`): a
    segment looked up inside a regular file raises `NotADirectoryError`, which no view catches, so the server
    answers 500; any other missing segment raises `FileNotFoundError`, which the views turn into a 404. */
module Views {
  import opened Common
  import opened Paths
  import opened Trees
  import opened Fetch
  import opened Mime
  import opened Deployment
  import opened Resolve

  /** What the resolution gives the view: the file to serve, a 404 (`HTTPNotFound`, or the `FileNotFoundError`
      the view turns into one), or the `NotADirectoryError` that escapes the view. */
  datatype Resolved = Found(file: Path) | NotFound | Raised

  /** A strict resolution that raised: `NotADirectoryError` escapes, `FileNotFoundError` becomes a 404. */
  function Failure(w: Walked): (r: Resolved)
    requires !w.Reached?
    ensures r.Raised? <==> w.NotADir?
    ensures !r.Found?
  {
    if w.NotADir? then Raised else NotFound
  }

  /** `dir.joinpath(name)`, canonical. */
  function IndexPath(cwd: Path, dir: Path, name: string): Path
  {
    Canonical(cwd, Join(Render(dir), name))
  }

  /** The position of the first index name that names a file in `dir`, or `|index|` when none does. */
  function FirstIndex(fs: Tree, cwd: Path, dir: Path, index: seq<string>): (k: nat)
    ensures k <= |index|
    ensures k < |index| ==> IsFile(fs, IndexPath(cwd, dir, index[k]))
    ensures forall j :: 0 <= j < k ==> !IsFile(fs, IndexPath(cwd, dir, index[j]))
    decreases |index|
  {
    if index == [] then 0
    else if IsFile(fs, IndexPath(cwd, dir, index[0])) then 0
    else 1 + FirstIndex(fs, cwd, dir, index[1..])
  }

  /** The index entry used for a directory: the first that names a file, unless that name is empty, which
      Python treats as no match. */
  function IndexOf(fs: Tree, cwd: Path, dir: Path, index: seq<string>): Option<Path>
  {
    var k := FirstIndex(fs, cwd, dir, index);
    if k < |index| && index[k] != "" then Some(IndexPath(cwd, dir, index[k])) else None
  }

  /** The part both `resolve_path` functions share once the request path `p` is resolved: it must exist (a
      strict resolution in a well-formed tree only reaches existing paths), its string must start with `prefix`,
      a directory is replaced by its first index file, and what remains must be a regular file. */
  function ResolveFrom(fs: Tree, cwd: Path, p: Path, prefix: string, index: seq<string>): (r: Resolved)
    ensures r.Found? ==> IsFile(fs, r.file) && p in fs && StartsWith(Render(p), prefix)
  {
    if p !in fs || !StartsWith(Render(p), prefix) then NotFound
    else
      var q := if IsDir(fs, p) && IndexOf(fs, cwd, p, index).Some? then IndexOf(fs, cwd, p, index).value else p;
      if IsFile(fs, q) then Found(q) else NotFound
  }

  /** What is served for an existing path that passes the prefix test: a file itself; for a directory, the
      first index entry that names a file, and nothing when no entry does. */
  lemma ResolveFromCases(fs: Tree, cwd: Path, p: Path, prefix: string, index: seq<string>)
    requires p in fs && StartsWith(Render(p), prefix)
    ensures IsFile(fs, p) ==> ResolveFrom(fs, cwd, p, prefix, index) == Found(p)
    ensures IsDir(fs, p) && (forall j :: 0 <= j < |index| ==> !IsFile(fs, IndexPath(cwd, p, index[j]))) ==>
      ResolveFrom(fs, cwd, p, prefix, index) == NotFound
    ensures forall k :: (0 <= k < |index| && IsDir(fs, p) && index[k] != "" &&
                         IsFile(fs, IndexPath(cwd, p, index[k])) &&
                         (forall j :: 0 <= j < k ==> !IsFile(fs, IndexPath(cwd, p, index[j])))) ==>
      ResolveFrom(fs, cwd, p, prefix, index) == Found(IndexPath(cwd, p, index[k]))
  {
    forall k | 0 <= k < |index| && IsDir(fs, p) && index[k] != "" &&
      IsFile(fs, IndexPath(cwd, p, index[k])) &&
      (forall j :: 0 <= j < k ==> !IsFile(fs, IndexPath(cwd, p, index[j])))
      ensures ResolveFrom(fs, cwd, p, prefix, index) == Found(IndexPath(cwd, p, index[k]))
    {
      var m := FirstIndex(fs, cwd, p, index);
      assert m == k;
    }
  }

  /** A resolved path that does not exist, or whose string lacks the prefix, is never served. */
  lemma ResolveFromRejects(fs: Tree, cwd: Path, p: Path, prefix: string, index: seq<string>)
    requires p !in fs || !StartsWith(Render(p), prefix)
    ensures ResolveFrom(fs, cwd, p, prefix, index) == NotFound
  {
  }

  /** `resolve_path` of the tutorial view: `base` joined with the request's segments, resolved strictly, and
      checked against the `base` string as configured. */
  function ResolvePath(fs: Tree, cwd: Path, base: string, rel: seq<string>, index: seq<string>): (r: Resolved)
    ensures r.Found? ==> IsFile(fs, r.file) && StartsWith(Render(Canonical(cwd, JoinAll(base, rel))), base)
    ensures r.Raised? ==> StrictResolve(fs, cwd, JoinAll(base, rel)).NotADir?
  {
    var w := StrictResolve(fs, cwd, JoinAll(base, rel));
    if w.Reached? then ResolveFrom(fs, cwd, w.path, base, index) else Failure(w)
  }

  /** A request of plain names below a base that resolves to a directory of a well-formed tree: an existing
      named path goes on to the prefix and index tests; otherwise a name looked up inside a regular file raises
      NotADirectoryError, and any other missing name gives a 404. */
  lemma ResolvePathNames(fs: Tree, cwd: Path, base: string, rel: seq<string>, index: seq<string>)
    requires Valid(fs) && IsCanonical(rel) && StrictResolve(fs, cwd, base).Reached?
    requires IsDir(fs, Canonical(cwd, base))
    ensures var b, r := Canonical(cwd, base), ResolvePath(fs, cwd, base, rel, index);
      (b + rel in fs ==> r == ResolveFrom(fs, cwd, b + rel, base, index)) &&
      (b + rel !in fs ==> (r.Raised? <==> ThroughFile(fs, b, rel)) && (r.NotFound? <==> !ThroughFile(fs, b, rel))) &&
      (ThroughFile(fs, b, rel) ==> r == Raised)
  {
    StrictJoinAll(fs, cwd, base, rel);
    StrictNames(fs, Canonical(cwd, base), rel);
    if ThroughFile(fs, Canonical(cwd, base), rel) {
      ThroughFileAbsent(fs, Canonical(cwd, base), rel);
    }
  }

  /** A request that names a path below a regular file of the tutorial home, such as `index.html/x`, raises
      NotADirectoryError, and the view answers 500. */
  lemma GetTutorialThroughFile(fs: Tree, cwd: Path, home: string, rel: seq<string>, sniff: Sniffer, guess: Guesser)
    requires Valid(fs) && IsCanonical(rel) && StrictResolve(fs, cwd, home).Reached?
    requires IsDir(fs, Canonical(cwd, home)) && ThroughFile(fs, Canonical(cwd, home), rel)
    ensures GetTutorial(fs, cwd, home, rel, sniff, guess) == ErrorResponse(500)
  {
    ResolvePathNames(fs, cwd, home, rel, ["index.html"]);
  }

  /** The prefix test compares strings: with the base "/a", a path climbing into the sibling "/ab" is served.
      The `*path` route drops ".." segments from the request, so the tutorial view meets such a path only
      through the configured base; the Tornado handler is where a request reaches it
      (`Handlers.TutorialGetContained`). */
  lemma ResolveSiblingServed(fs: Tree, base: string, rel: seq<string>, index: seq<string>)
    requires Valid(fs) && IsDir(fs, ["a"]) && IsFile(fs, ["ab"])
    requires base == "/a" && rel == ["..", "ab"]
    ensures ResolvePath(fs, [], base, rel, index) == Found(["ab"])
  {
    SiblingResolves(fs);
    SiblingPrefix();
    ResolveFromCases(fs, [], ["ab"], base, index);
  }

  lemma SiblingResolves(fs: Tree)
    requires IsDir(fs, []) && ["a"] in fs && ["ab"] in fs
    ensures StrictResolve(fs, [], JoinAll("/a", ["..", "ab"])) == Walked.Reached(["ab"])
  {
    SiblingJoin();
    SiblingSplit();
    SiblingStrict(fs);
    assert StartsWith("/a/../ab", "/");
  }

  lemma SiblingStrict(fs: Tree)
    requires ["a"] in fs && ["ab"] in fs
    ensures StrictNormalize(fs, [], ["", "a", "..", "ab"]) == Walked.Reached(["ab"])
  {
    var segs := ["", "a", "..", "ab"];
    assert segs[1..] == ["a", "..", "ab"] && segs[1..][1..] == ["..", "ab"] && ["..", "ab"][1..] == ["ab"];
    assert [] + ["a"] == ["a"] && ["a"][..0] == [] && [] + ["ab"] == ["ab"];
    assert StrictNormalize(fs, [], segs) == StrictNormalize(fs, [], ["a", "..", "ab"]);
    assert StrictNormalize(fs, [], ["a", "..", "ab"]) == StrictNormalize(fs, ["a"], ["..", "ab"]);
    assert StrictNormalize(fs, ["a"], ["..", "ab"]) == StrictNormalize(fs, [], ["ab"]);
    assert StrictNormalize(fs, [], ["ab"]) == StrictNormalize(fs, ["ab"], []);
  }

  lemma SiblingPrefix()
    ensures StartsWith(Render(["ab"]), "/a")
  {
    assert Render(["ab"]) == "/ab";
  }

  lemma SiblingJoin()
    ensures JoinAll("/a", ["..", "ab"]) == "/a/../ab"
  {
    assert !StartsWith("..", "/") by { assert ".."[..1][0] != '/'; }
    assert !EndsWith("/a", "/") by { assert "/a"[1..][0] != '/'; }
    assert Join("/a", "..") == "/a/..";
    assert !StartsWith("ab", "/") by { assert "ab"[..1][0] != '/'; }
    assert !EndsWith("/a/..", "/") by { assert "/a/.."[4..][0] != '/'; }
    assert Join("/a/..", "ab") == "/a/../ab";
    assert ["..", "ab"][1..] == ["ab"];
  }

  lemma SiblingSplit()
    ensures SplitOn("/a/../ab", "/") == ["", "a", "..", "ab"]
  {
    var parts := ["", "a", "..", "ab"];
    assert JoinOn(parts, "/") == "/a/../ab";
    assert forall i :: 0 <= i < |parts| ==> '/' !in parts[i];
    assert "/" == ['/'];
    SplitOfJoin(parts, '/');
  }

  /** A base configured as a relative path serves nothing: resolved paths are absolute, so their strings never
      start with it, and every request that resolves is a 404. */
  lemma ResolveRelativeBase(fs: Tree, cwd: Path, base: string, rel: seq<string>, index: seq<string>)
    requires base != "" && base[0] != '/'
    ensures !ResolvePath(fs, cwd, base, rel, index).Found?
    ensures StrictResolve(fs, cwd, JoinAll(base, rel)).Reached? ==> ResolvePath(fs, cwd, base, rel, index) == NotFound
  {
    var p := Canonical(cwd, JoinAll(base, rel));
    assert Render(p)[0] == '/';
    assert !StartsWith(Render(p), base);
  }

  /** `guess_type` applied to the file served: the sniff of its bytes and the guess from its path string. */
  function TypeOf(fs: Tree, q: Path, sniff: Sniffer, guess: Guesser): (g: Guess)
    requires IsFile(fs, q)
    ensures Truthy(g.mime)
  {
    GuessType(sniff(fs[q].content), guess(Render(q)))
  }

  /** `get_tutorial`: the file under the `app.tutorial_home` setting that the URL names, with its type or
      encoding header, or a 404. */
  function GetTutorial(fs: Tree, cwd: Path, home: string, rel: seq<string>, sniff: Sniffer, guess: Guesser)
    : (r: Response)
  {
    match ResolvePath(fs, cwd, home, rel, ["index.html"])
    case NotFound => ErrorResponse(404)
    case Raised => ErrorResponse(500)
    case Found(q) => Response(200, HeaderList(TypeOf(fs, q, sniff, guess)), fs[q].content)
  }

  /** The view answers 200 with the bytes of the resolved file and its one header, 404 with nothing, or 500
      when the resolution raised NotADirectoryError. */
  lemma GetTutorialServes(fs: Tree, cwd: Path, home: string, rel: seq<string>, sniff: Sniffer, guess: Guesser)
    ensures var r := GetTutorial(fs, cwd, home, rel, sniff, guess);
            var res := ResolvePath(fs, cwd, home, rel, ["index.html"]);
            (r.status == 200 <==> res.Found?) &&
            (res.NotFound? ==> r == Response(404, [], [])) &&
            (res.Raised? ==> r == Response(500, [], [])) &&
            (res.Found? ==>
               IsFile(fs, res.file) && r.body == fs[res.file].content && |r.headers| == 1 &&
               r.headers[0].0 in {"Content-Type", "Content-Encoding"})
  {
  }

  /** A request made only of plain names resolves to the base followed by those names. */
  lemma ResolveOfNames(cwd: Path, base: string, rel: seq<string>)
    requires IsCanonical(rel)
    ensures Canonical(cwd, JoinAll(base, rel)) == Canonical(cwd, base) + rel
  {
    JoinAllNames(cwd, base, rel);
  }

  /** `views/tutorial.py`: the same view with the resolution written out inline. An empty request path means
      the home itself, and a directory is always replaced by its `index.html`. */
  function TutorialResolve(fs: Tree, cwd: Path, home: string, rel: seq<string>): (r: Resolved)
    ensures r.Found? ==> IsFile(fs, r.file) && StartsWith(Render(Canonical(cwd, JoinAll(home, rel))), home)
    ensures r.Raised? ==> StrictResolve(fs, cwd, JoinAll(home, rel)).NotADir?
  {
    assert JoinAll(home, []) == home;
    var w := StrictResolve(fs, cwd, if rel != [] then JoinAll(home, rel) else home);
    if !w.Reached? then Failure(w)
    else
      var p := w.path;
      if p !in fs || !StartsWith(Render(p), home) then NotFound
      else
        var q := if IsDir(fs, p) then IndexPath(cwd, p, "index.html") else p;
        if IsFile(fs, q) then Found(q) else NotFound
  }

  /** The inline resolution is `resolve_path` with the single index name "index.html". */
  lemma TutorialResolveAgrees(fs: Tree, cwd: Path, home: string, rel: seq<string>)
    ensures TutorialResolve(fs, cwd, home, rel) == ResolvePath(fs, cwd, home, rel, ["index.html"])
  {
    var w := StrictResolve(fs, cwd, JoinAll(home, rel));
    assert JoinAll(home, []) == home;
    if w.Reached? && w.path in fs && StartsWith(Render(w.path), home) && IsDir(fs, w.path) {
      IndexOfSingle(fs, cwd, w.path, "index.html");
    }
  }

  lemma IndexOfSingle(fs: Tree, cwd: Path, dir: Path, name: string)
    requires name != ""
    ensures IsFile(fs, IndexPath(cwd, dir, name)) ==> IndexOf(fs, cwd, dir, [name]) == Some(IndexPath(cwd, dir, name))
    ensures !IsFile(fs, IndexPath(cwd, dir, name)) ==> IndexOf(fs, cwd, dir, [name]).None?
  {
    assert [name][1..] == [];
  }

  /** `get_tutorial` of `views/tutorial.py`, with the type table written out inline. */
  function GetTutorialInline(fs: Tree, cwd: Path, home: string, rel: seq<string>, sniff: Sniffer, guess: Guesser)
    : (r: Response)
  {
    match TutorialResolve(fs, cwd, home, rel)
    case NotFound => ErrorResponse(404)
    case Raised => ErrorResponse(500)
    case Found(q) => Response(200, HeaderList(TypeOf(fs, q, sniff, guess)), fs[q].content)
  }

  /** Both tutorial views answer every request alike. */
  lemma GetTutorialInlineAgrees(fs: Tree, cwd: Path, home: string, rel: seq<string>, sniff: Sniffer, guess: Guesser)
    ensures GetTutorialInline(fs, cwd, home, rel, sniff, guess) == GetTutorial(fs, cwd, home, rel, sniff, guess)
  {
    TutorialResolveAgrees(fs, cwd, home, rel);
  }

  /** `resolve_path` of the content view: the joined path is resolved strictly first, then the base, and the
      prefix test is against the resolved base. */
  function ContentResolve(fs: Tree, cwd: Path, base: string, rel: seq<string>, index: seq<string>): (r: Resolved)
    ensures r.Found? ==>
      IsFile(fs, r.file) && StrictResolve(fs, cwd, base) == Walked.Reached(Canonical(cwd, base)) &&
      (Valid(fs) ==> Canonical(cwd, base) in fs) &&
      StartsWith(Render(Canonical(cwd, JoinAll(base, rel))), Render(Canonical(cwd, base)))
    ensures r.Raised? ==> StrictResolve(fs, cwd, JoinAll(base, rel)).NotADir? || StrictResolve(fs, cwd, base).NotADir?
  {
    var w := StrictResolve(fs, cwd, JoinAll(base, rel));
    if !w.Reached? then Failure(w)
    else
      var wb := StrictResolve(fs, cwd, base);
      if !wb.Reached? then Failure(wb)
      else ResolveFrom(fs, cwd, w.path, Render(wb.path), index)
  }

  /** What the content view's prefix test guarantees: the served path agrees with the base on all but the base's
      last segment, and its segment there only begins with the base's last one, so a sibling whose name extends
      the base's is still reachable. */
  lemma ContentResolveContained(fs: Tree, cwd: Path, base: string, rel: seq<string>, index: seq<string>)
    requires IsCanonical(cwd) && ContentResolve(fs, cwd, base, rel, index).Found?
    ensures var b, p := Canonical(cwd, base), Canonical(cwd, JoinAll(base, rel));
      b == [] || (|b| <= |p| && p[..|b| - 1] == b[..|b| - 1] && StartsWith(p[|b| - 1], b[|b| - 1]))
  {
    var b, p := Canonical(cwd, base), Canonical(cwd, JoinAll(base, rel));
    if b != [] {
      RenderPrefix(p, b);
    }
  }

  /** A request made only of plain names, below a base that resolves to a directory of a well-formed tree,
      always passes the content view's prefix test: an existing named path is served when it is a file or a
      directory with an index file; otherwise a name looked up inside a regular file raises NotADirectoryError,
      and any other missing name gives a 404. */
  lemma ContentResolveNames(fs: Tree, cwd: Path, base: string, rel: seq<string>, index: seq<string>)
    requires IsCanonical(cwd) && IsCanonical(rel) && Valid(fs) && StrictResolve(fs, cwd, base).Reached?
    requires IsDir(fs, Canonical(cwd, base))
    ensures var b, r := Canonical(cwd, base), ContentResolve(fs, cwd, base, rel, index);
      (b + rel in fs ==> r == ResolveFrom(fs, cwd, b + rel, Render(b), index)) &&
      (b + rel !in fs ==> (r.Raised? <==> ThroughFile(fs, b, rel)) && (r.NotFound? <==> !ThroughFile(fs, b, rel))) &&
      (IsFile(fs, b + rel) ==> r == Found(b + rel))
  {
    var b := Canonical(cwd, base);
    StrictJoinAll(fs, cwd, base, rel);
    StrictNames(fs, b, rel);
    RenderAppendPrefix(b, rel);
    if IsFile(fs, b + rel) {
      ResolveFromCases(fs, cwd, b + rel, Render(b), index);
    }
  }

  /** The content view before the gate: the file under `<app.home>/tutorial` with the URL prefix and its type,
      or its encoding alone, or a 404. */
  function ContentView(fs: Tree, cwd: Path, home: string, rel: seq<string>, prefix: string, appPrefix: string,
                       sniff: Sniffer, guess: Guesser): (r: Response)
  {
    match ContentResolve(fs, cwd, Join(home, "tutorial"), rel, ["index.html"])
    case NotFound => ErrorResponse(404)
    case Raised => ErrorResponse(500)
    case Found(q) => Response(200, ContentHeaderList(prefix, appPrefix, TypeOf(fs, q, sniff, guess)), fs[q].content)
  }

  /** `get_tutorial` of `views/content.py`: the content view behind `require_tutorial_ready`. */
  function GetContent(fs: Tree, cwd: Path, home: string, rel: seq<string>, prefix: string, appPrefix: string,
                      sniff: Sniffer, guess: Guesser, ready: bool, loadingPage: string, readyUrl: string): (r: Guarded)
  {
    RequireTutorialReady(ready, ContentView(fs, cwd, home, rel, prefix, appPrefix, sniff, guess), loadingPage, readyUrl)
  }

  /** Until the tutorial is ready, no file is served; once it is, the resolved file is served with its bytes and
      the URL prefix comes first among the headers unless an encoding replaced them, a NotADirectoryError is a
      500, and anything else a 404. */
  lemma GetContentServes(fs: Tree, cwd: Path, home: string, rel: seq<string>, prefix: string, appPrefix: string,
                         sniff: Sniffer, guess: Guesser, ready: bool, loadingPage: string, readyUrl: string)
    ensures var g := GetContent(fs, cwd, home, rel, prefix, appPrefix, sniff, guess, ready, loadingPage, readyUrl);
      var res := ContentResolve(fs, cwd, Join(home, "tutorial"), rel, ["index.html"]);
      (g.Passed? <==> ready) &&
      (ready && res.NotFound? ==> g == Passed(Response(404, [], []))) &&
      (ready && res.Raised? ==> g == Passed(Response(500, [], []))) &&
      (ready && res.Found? ==>
         g.response.status == 200 && g.response.body == fs[res.file].content &&
         (!Truthy(TypeOf(fs, res.file, sniff, guess).encoding) ==>
            g.response.headers[0] == ("X-URL-Prefix", UrlPrefix(prefix, appPrefix))))
  {
  }
}
