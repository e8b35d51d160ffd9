/** The content deployment of the Tornado server (src/tutorial_server/content.py): the list of parts read from
    the configuration, the fetch of the source into the temporary directory, the two deployment policies
    applied part by part, and the ready flag that gates the request handlers. */
module Content {
  import opened Common
  import opened Paths
  import opened Trees
  import opened Policies
  import opened Fetch

  // ----- the configuration -----

  /** One `[app:<name>]` section: the deployment policy (`type`), and the part's source below the fetched
      content and target below the home directory. */
  datatype PartConfig = PartConfig(kind: string, source: string, target: string)

  /** The `[app]` section, with the part sections keyed by part name. `auth` and `token` are the optional
      `source.auth` and `source.auth.token` options. */
  datatype Config = Config(
    tmp: string, home: string, source: string, parts: string, name: string, default: string,
    auth: Option<string>, token: Option<string>, sections: map<string, PartConfig>)

  /** The characters `str.isspace` accepts. */
  predicate IsSpace(c: char)
  {
    c in {' ', '\t', '\n', '\r', '\U{000B}', '\U{000C}', '\U{001C}', '\U{001D}', '\U{001E}', '\U{001F}',
          '\U{0085}', '\U{00A0}', '\U{1680}', '\U{2028}', '\U{2029}', '\U{202F}', '\U{205F}', '\U{3000}'}
    || '\U{2000}' <= c <= '\U{200A}'
  }

  /** Neither end of `s` is white space. */
  predicate Bare(s: string)
  {
    s == "" || (!IsSpace(s[0]) && !IsSpace(s[|s| - 1]))
  }

  /** `s.lstrip()`: `s` without the white space at its front, and nothing else removed. */
  function StripLeft(s: string): (r: string)
    ensures r == "" || !IsSpace(r[0])
    ensures |r| <= |s| && r == s[|s| - |r|..]
    ensures forall i :: 0 <= i < |s| - |r| ==> IsSpace(s[i])
    decreases |s|
  {
    if s != "" && IsSpace(s[0]) then StripLeft(s[1..]) else s
  }

  /** `s.rstrip()`: `s` without the white space at its end, and nothing else removed. */
  function StripRight(s: string): (r: string)
    ensures r == "" || !IsSpace(r[|r| - 1])
    ensures |r| <= |s| && r == s[..|r|]
    ensures forall i :: |r| <= i < |s| ==> IsSpace(s[i])
    decreases |s|
  {
    if s != "" && IsSpace(s[|s| - 1]) then StripRight(s[..|s| - 1]) else s
  }

  /** `r` is the slice of `s` starting at `i`, and everything in `s` before and after it is white space. */
  predicate SpaceAround(s: string, i: int, r: string)
  {
    0 <= i <= |s| - |r| && r == s[i..i + |r|] &&
    (forall k :: 0 <= k < i ==> IsSpace(s[k])) && (forall k :: i + |r| <= k < |s| ==> IsSpace(s[k]))
  }

  /** `s.strip()`: a slice of `s` with no white space at either end, and only white space around it. */
  function Strip(s: string): (r: string)
    ensures Bare(r)
    ensures exists i :: SpaceAround(s, i, r)
  {
    var l := StripLeft(s);
    var r := StripRight(l);
    assert SpaceAround(s, |s| - |l|, r);
    r
  }

  /** White space only. */
  predicate AllSpace(s: string)
  {
    forall k :: 0 <= k < |s| ==> IsSpace(s[k])
  }

  /** Stripping removes exactly the white space around a bare string. */
  lemma StripPadded(l: string, n: string, r: string)
    requires AllSpace(l) && Bare(n) && AllSpace(r)
    ensures Strip(l + n + r) == n
  {
    if n == "" {
      assert l + n + r == (l + r) + "";
      StripLeftPadded(l + r, "");
    } else {
      assert l + n + r == l + (n + r);
      StripLeftPadded(l, n + r);
      StripRightPadded(n, r);
    }
  }

  lemma {:induction false} StripLeftPadded(l: string, x: string)
    requires AllSpace(l) && (x == "" || !IsSpace(x[0]))
    ensures StripLeft(l + x) == x
    decreases |l|
  {
    if l == "" {
      assert l + x == x;
    } else {
      assert (l + x)[1..] == l[1..] + x;
      StripLeftPadded(l[1..], x);
    }
  }

  lemma {:induction false} StripRightPadded(x: string, r: string)
    requires (x == "" || !IsSpace(x[|x| - 1])) && AllSpace(r)
    ensures StripRight(x + r) == x
    decreases |r|
  {
    if r == "" {
      assert x + r == x;
    } else {
      var n := |x + r| - 1;
      assert (x + r)[..n] == x + r[..|r| - 1];
      StripRightPadded(x, r[..|r| - 1]);
    }
  }

  /** Stripping leaves a string without white space at its ends alone. */
  lemma StripBare(s: string)
    requires Bare(s)
    ensures Strip(s) == s
  {
  }

  /** Each string stripped, in order. */
  function StripAll(ps: seq<string>): (r: seq<string>)
    ensures |r| == |ps| && forall i :: 0 <= i < |r| ==> r[i] == Strip(ps[i])
    decreases |ps|
  {
    if ps == [] then [] else [Strip(ps[0])] + StripAll(ps[1..])
  }

  /** The pieces of the comma-separated items, each split again at line breaks and stripped. */
  function Pieces(items: seq<string>): (r: seq<string>)
    ensures forall i :: 0 <= i < |r| ==> Bare(r[i])
    decreases |items|
  {
    if items == [] then [] else StripAll(SplitOn(items[0], "\n")) + Pieces(items[1..])
  }

  /** The part names listed by the `parts` option: split at ',' and at line breaks, and stripped. */
  function PartNames(parts: string): (r: seq<string>)
    ensures |r| >= 1
    ensures forall i :: 0 <= i < |r| ==> Bare(r[i])
  {
    var items := SplitOn(parts, ",");
    assert items == [items[0]] + items[1..];
    Pieces(items)
  }

  /** A plain part name: no separator, no line break, no white space at its ends. */
  predicate PlainName(n: string)
  {
    ',' !in n && '\n' !in n && Bare(n)
  }

  /** Items with no ',' and no line break, listed with commas or one per line: each is read back with the
      white space around it removed, in order. */
  lemma PartNamesOfItems(items: seq<string>, sep: char)
    requires |items| >= 1 && (sep == ',' || sep == '\n')
    requires forall i :: 0 <= i < |items| ==> ',' !in items[i] && '\n' !in items[i]
    ensures PartNames(JoinOn(items, [sep])) == StripAll(items)
  {
    assert "," == [','] && "\n" == ['\n'];
    if sep == ',' {
      SplitOfJoin(items, ',');
      PiecesOfItems(items);
    } else {
      var x := JoinOn(items, "\n");
      NotInJoin(items, ',', '\n');
      SplitWithoutSep(x, ',');
      SplitOfJoin(items, '\n');
      assert Pieces([x]) == StripAll(SplitOn(x, "\n")) + Pieces([]);
    }
  }

  lemma {:induction false} PiecesOfItems(items: seq<string>)
    requires forall i :: 0 <= i < |items| ==> '\n' !in items[i]
    ensures Pieces(items) == StripAll(items)
    decreases |items|
  {
    if items != [] {
      assert "\n" == ['\n'];
      SplitWithoutSep(items[0], '\n');
      PiecesOfItems(items[1..]);
    }
  }

  /** Listing plain names separated by commas gives back exactly those names, in order. */
  lemma PartNamesOfList(names: seq<string>)
    requires |names| >= 1 && forall i :: 0 <= i < |names| ==> PlainName(names[i])
    ensures PartNames(JoinOn(names, ",")) == names
  {
    assert "," == [','];
    PartNamesOfItems(names, ',');
    StripAllBare(names);
  }

  lemma {:induction false} StripAllBare(names: seq<string>)
    requires forall i :: 0 <= i < |names| ==> Bare(names[i])
    ensures StripAll(names) == names
    decreases |names|
  {
    if names != [] {
      StripBare(names[0]);
      StripAllBare(names[1..]);
      assert names == [names[0]] + names[1..];
    }
  }

  /** White space other than a line break. */
  predicate Blank(s: string)
  {
    forall k :: 0 <= k < |s| ==> IsSpace(s[k]) && s[k] != '\n'
  }

  /** Plain names with white space around each, listed with commas ("tutorial, workspace") or one per line,
      are read back exactly. */
  lemma PartNamesPadded(names: seq<string>, left: seq<string>, right: seq<string>, sep: char)
    requires |names| >= 1 && |left| == |names| && |right| == |names| && (sep == ',' || sep == '\n')
    requires forall i :: 0 <= i < |names| ==> PlainName(names[i]) && Blank(left[i]) && Blank(right[i])
    ensures PartNames(JoinOn(seq(|names|, i requires 0 <= i < |names| => left[i] + names[i] + right[i]), [sep]))
      == names
  {
    var items := seq(|names|, i requires 0 <= i < |names| => left[i] + names[i] + right[i]);
    PaddedItems(names, left, right, items);
    PartNamesOfItems(items, sep);
  }

  lemma PaddedItems(names: seq<string>, left: seq<string>, right: seq<string>, items: seq<string>)
    requires |left| == |names| && |right| == |names| && |items| == |names|
    requires forall i :: 0 <= i < |names| ==>
      PlainName(names[i]) && Blank(left[i]) && Blank(right[i]) && items[i] == left[i] + names[i] + right[i]
    ensures forall i :: 0 <= i < |items| ==> ',' !in items[i] && '\n' !in items[i]
    ensures StripAll(items) == names
  {
    forall i | 0 <= i < |items|
      ensures ',' !in items[i] && '\n' !in items[i] && Strip(items[i]) == names[i]
    {
      PaddedItem(left[i], names[i], right[i]);
    }
  }

  lemma PaddedItem(l: string, n: string, r: string)
    requires PlainName(n) && Blank(l) && Blank(r)
    ensures ',' !in l + n + r && '\n' !in l + n + r && Strip(l + n + r) == n
  {
    assert !IsSpace(',');
    StripPadded(l, n, r);
  }

  /** The listed parts that have a section, in the listed order: the parts a deployment visits. */
  function Configured(names: seq<string>, sections: map<string, PartConfig>): (r: seq<string>)
    decreases |names|
  {
    if names == [] then []
    else if names[0] in sections then [names[0]] + Configured(names[1..], sections)
    else Configured(names[1..], sections)
  }

  /** A part is visited exactly when it is listed and has a section. */
  lemma {:induction false} ConfiguredMembers(names: seq<string>, sections: map<string, PartConfig>)
    ensures forall n :: n in Configured(names, sections) <==> n in names && n in sections
    decreases |names|
  {
    if names != [] {
      ConfiguredMembers(names[1..], sections);
      assert names == [names[0]] + names[1..];
    }
  }

  /** Visiting keeps the listed order: the visits of a longer list extend those of its prefix. */
  lemma {:induction false} ConfiguredAppend(a: seq<string>, b: seq<string>, sections: map<string, PartConfig>)
    ensures Configured(a + b, sections) == Configured(a, sections) + Configured(b, sections)
    decreases |a|
  {
    if a == [] {
      assert a + b == b;
    } else {
      assert (a + b)[0] == a[0];
      assert (a + b)[1..] == a[1..] + b;
      ConfiguredAppend(a[1..], b, sections);
    }
  }

  // ----- fetching the content -----

  /** `AsyncHTTPClient.fetch` with its default `raise_error`: a reply whose status lies outside 200-299 raises,
      like a failed request. */
  function TornadoClient(web: Web, url: string, headers: seq<Header>): (r: Option<Reply>)
    ensures r.Some? <==> web(url, headers).Some? && 200 <= web(url, headers).value.status < 300
    ensures r.Some? ==> r == web(url, headers)
  {
    var reply := web(url, headers);
    if reply.Some? && !(200 <= reply.value.status < 300) then None else reply
  }

  /** The path strings of the temporary files a fetch uses. */
  function Download(cfg: Config): string { Join(cfg.tmp, "download") }

  function Archive(cfg: Config, f: ArchiveFormat): string { Join(cfg.tmp, "download" + Suffix(f)) }

  function ContentDir(cfg: Config): string { Join(cfg.tmp, "content") }

  /** `fetch_content(source)`: the effects, in order, and how it ends. A URL is requested with the bearer header;
      a 200 reply is saved as `download` in the temporary directory and, when its leading bytes show an archive,
      renamed with the archive's suffix and fetched again; a local archive is extracted, and anything else
      copied, to `content` in the temporary directory. `depth` bounds the nested fetches followed. */
  function TornadoFetch(cfg: Config, web: Web, sniff: Sniffer, source: string, depth: nat): Plan
    decreases depth, 1
  {
    if IsUrl(source) then
      var headers := AuthHeaders(cfg.auth, cfg.token);
      var reply := TornadoClient(web, source, headers);
      if reply.None? then Plan([Request(source, headers)], Raises)
      else if reply.value.status != 200 then Plan([Request(source, headers)], Completed)
      else Then([Request(source, headers)], SaveDownload(cfg, web, sniff, reply.value.body, depth))
    else LocalFetch(cfg, source)
  }

  /** A 200 reply: its body saved as `download`, then, when the sniffed type is an archive's, renamed with that
      archive's suffix and fetched again. */
  function SaveDownload(cfg: Config, web: Web, sniff: Sniffer, body: Bytes, depth: nat): Plan
    decreases depth, 0
  {
    var saved := [MakeDirsAt(cfg.tmp), WriteTo(Download(cfg), body)];
    var format := SniffedFormat(sniff(body));
    if format.None? then Plan(saved, Completed)
    else
      var renamed := saved + [RenameTo(Download(cfg), Archive(cfg, format.value))];
      if depth == 0 then Plan(renamed, TooDeep)
      else Then(renamed, TornadoFetch(cfg, web, sniff, Archive(cfg, format.value), depth - 1))
  }

  /** A local source: an archive (by suffix) is extracted, anything else copied, into the content directory. */
  function LocalFetch(cfg: Config, source: string): (p: Plan)
  {
    var format := LocalFormat(source);
    if format.Some? then Plan([ExtractTo(source, format.value, ContentDir(cfg))], Completed)
    else Plan([CopyTreeTo(source, ContentDir(cfg))], Completed)
  }

  /** Appending a suffix to the joined name appends it to the joined path. */
  lemma JoinSuffix(a: string, n: string, s: string)
    requires n != "" && n[0] != '/'
    ensures Join(a, n + s) == Join(a, n) + s
  {
    assert StartsWith(n + s, "/") == StartsWith(n, "/");
  }

  /** The renamed download is never a URL while the temporary directory is not one. */
  lemma ArchiveNotUrl(cfg: Config, f: ArchiveFormat)
    requires !IsUrl(cfg.tmp)
    ensures !IsUrl(Archive(cfg, f))
  {
    var b := "download" + Suffix(f);
    assert b[0] == 'd';
    assert !StartsWith(b, "http://") && !StartsWith(b, "https://");
    JoinNotUrl(cfg.tmp, b);
  }

  /** The renamed download is extracted as the format its leading bytes showed. */
  lemma ArchiveFormatKept(cfg: Config, f: ArchiveFormat)
    ensures LocalFormat(Archive(cfg, f)) == Some(f)
  {
    JoinSuffix(cfg.tmp, "download", Suffix(f));
    LocalFormatOfSuffix(Download(cfg), f);
  }

  /** A local fetch makes no request, writes only the content directory and completes. */
  lemma LocalFetchFacts(cfg: Config, source: string)
    ensures var p := LocalFetch(cfg, source);
      p.outcome == Completed && CountRequests(p.steps) == 0 && |p.steps| == 1 && Writes(p.steps[0]) == [ContentDir(cfg)]
  {
    var p := LocalFetch(cfg, source);
    assert p.steps[1..] == [];
  }

  /** A fetch nests at most once: with a temporary directory that is not a URL, every depth from 1 on gives the
      same plan, which never runs out of depth and makes at most one request. */
  lemma TornadoFetchNesting(cfg: Config, web: Web, sniff: Sniffer, source: string, depth: nat)
    requires !IsUrl(cfg.tmp) && depth >= 1
    ensures TornadoFetch(cfg, web, sniff, source, depth) == TornadoFetch(cfg, web, sniff, source, 1)
    ensures TornadoFetch(cfg, web, sniff, source, 1).outcome != TooDeep
    ensures CountRequests(TornadoFetch(cfg, web, sniff, source, 1).steps) <= 1
  {
    if IsUrl(source) {
      var headers := AuthHeaders(cfg.auth, cfg.token);
      var reply := TornadoClient(web, source, headers);
      if reply.Some? && reply.value.status == 200 {
        SaveDownloadNesting(cfg, web, sniff, reply.value.body, depth);
        CountRequestsAppend([Request(source, headers)], SaveDownload(cfg, web, sniff, reply.value.body, 1).steps);
        assert CountRequests([Request(source, headers)]) == 1;
      } else {
        assert CountRequests([Request(source, headers)]) == 1;
      }
    } else {
      LocalFetchFacts(cfg, source);
    }
  }

  /** Saving a 200 reply: the nested fetch of the renamed download is local, so it neither requests nor nests. */
  lemma SaveDownloadNesting(cfg: Config, web: Web, sniff: Sniffer, body: Bytes, depth: nat)
    requires !IsUrl(cfg.tmp) && depth >= 1
    ensures SaveDownload(cfg, web, sniff, body, depth) == SaveDownload(cfg, web, sniff, body, 1)
    ensures SaveDownload(cfg, web, sniff, body, 1).outcome == Completed
    ensures SaveDownload(cfg, web, sniff, body, 1).steps[0] == MakeDirsAt(cfg.tmp)
    ensures CountRequests(SaveDownload(cfg, web, sniff, body, 1).steps) == 0
  {
    var saved := [MakeDirsAt(cfg.tmp), WriteTo(Download(cfg), body)];
    assert CountRequests(saved) == 0 by {
      assert saved[1..] == [saved[1]];
      assert CountRequests([saved[1]]) == 0 by {
        assert [saved[1]][1..] == [];
      }
    }
    var format := SniffedFormat(sniff(body));
    if format.Some? {
      var archive := Archive(cfg, format.value);
      ArchiveNotUrl(cfg, format.value);
      LocalFetchFacts(cfg, archive);
      var renamed := saved + [RenameTo(Download(cfg), archive)];
      CountRequestsAppend(saved, [RenameTo(Download(cfg), archive)]);
      CountRequestsAppend(renamed, LocalFetch(cfg, archive).steps);
    }
  }

  /** A remote source (nested fetches followed): the first effect is the request, with the bearer header when
      configured; the fetch raises exactly when the request fails or its status is outside 200-299; and it
      writes nothing exactly when the reply is not 200. */
  lemma TornadoFetchRemote(cfg: Config, web: Web, sniff: Sniffer, source: string)
    requires IsUrl(source) && !IsUrl(cfg.tmp)
    ensures var p := TornadoFetch(cfg, web, sniff, source, 1);
      var reply := web(source, AuthHeaders(cfg.auth, cfg.token));
      p.steps != [] && p.steps[0] == Request(source, AuthHeaders(cfg.auth, cfg.token)) &&
      (p.outcome == Raises <==> reply.None? || !(200 <= reply.value.status < 300)) &&
      ((forall i :: 0 <= i < |p.steps| ==> Writes(p.steps[i]) == []) <==> reply.None? || reply.value.status != 200)
  {
    var p := TornadoFetch(cfg, web, sniff, source, 1);
    var reply := TornadoClient(web, source, AuthHeaders(cfg.auth, cfg.token));
    if reply.Some? && reply.value.status == 200 {
      SaveDownloadNesting(cfg, web, sniff, reply.value.body, 1);
      assert p.steps[1] == MakeDirsAt(cfg.tmp);
      assert Writes(p.steps[1]) != [];
    }
  }

  /** A 200 reply whose bytes are an archive: it is saved, renamed with its format's suffix, and extracted as that
      format into the content directory, and nothing else happens. */
  lemma TornadoFetchSniffed(cfg: Config, web: Web, sniff: Sniffer, source: string, f: ArchiveFormat)
    requires IsUrl(source) && !IsUrl(cfg.tmp)
    requires var reply := web(source, AuthHeaders(cfg.auth, cfg.token));
      reply.Some? && reply.value.status == 200 && sniff(reply.value.body) == Some(MimeOf(f))
    ensures var body := web(source, AuthHeaders(cfg.auth, cfg.token)).value.body;
      TornadoFetch(cfg, web, sniff, source, 1) == Plan([
        Request(source, AuthHeaders(cfg.auth, cfg.token)), MakeDirsAt(cfg.tmp), WriteTo(Download(cfg), body),
        RenameTo(Download(cfg), Archive(cfg, f)), ExtractTo(Archive(cfg, f), f, ContentDir(cfg))], Completed)
  {
    var body := web(source, AuthHeaders(cfg.auth, cfg.token)).value.body;
    SniffedFormatExact(sniff(body), f);
    ArchiveNotUrl(cfg, f);
    ArchiveFormatKept(cfg, f);
  }

  /** The names of the files a fetch uses inside the temporary directory. */
  predicate TmpName(n: string)
  {
    n in {"download", "download.zip", "download.tar.bz2", "download.tar.gz", "content"}
  }

  lemma ArchiveName(f: ArchiveFormat)
    ensures TmpName("download" + Suffix(f))
  {
    match f
    case Zip => assert "download" + ".zip" == "download.zip";
    case TarBz2 => assert "download" + ".tar.bz2" == "download.tar.bz2";
    case TarGz => assert "download" + ".tar.gz" == "download.tar.gz";
  }

  /** Every effect targets the temporary directory or a name directly inside it. The tree may change below
      those targets and at the missing directories above the temporary directory (`Fetch.SameAway`). */
  predicate Confined(steps: seq<Effect>, cwd: Path, tmp: string)
  {
    forall i, w :: 0 <= i < |steps| && w in Writes(steps[i]) ==> InTmp(Canonical(cwd, w), Canonical(cwd, tmp))
  }

  /** `p` is the temporary directory `base` or one of the fetch's names directly inside it. */
  predicate InTmp(p: Path, base: Path)
  {
    p == base || (|p| == |base| + 1 && p[..|base|] == base && TmpName(p[|base|]))
  }

  lemma ConfinedAppend(a: seq<Effect>, b: seq<Effect>, cwd: Path, tmp: string)
    requires Confined(a, cwd, tmp) && Confined(b, cwd, tmp)
    ensures Confined(a + b, cwd, tmp)
  {
    forall i, w | 0 <= i < |a + b| && w in Writes((a + b)[i])
      ensures InTmp(Canonical(cwd, w), Canonical(cwd, tmp))
    {
      if i >= |a| {
        assert (a + b)[i] == b[i - |a|];
      } else {
        assert (a + b)[i] == a[i];
      }
    }
  }

  /** The temporary paths canonicalise to names directly inside the temporary directory. */
  lemma TmpPaths(cfg: Config, cwd: Path)
    ensures Canonical(cwd, Download(cfg)) == Canonical(cwd, cfg.tmp) + ["download"]
    ensures Canonical(cwd, ContentDir(cfg)) == Canonical(cwd, cfg.tmp) + ["content"]
    ensures forall f :: Canonical(cwd, Archive(cfg, f)) == Canonical(cwd, cfg.tmp) + ["download" + Suffix(f)]
  {
    JoinName(cwd, cfg.tmp, "download");
    JoinName(cwd, cfg.tmp, "content");
    forall f ensures Canonical(cwd, Archive(cfg, f)) == Canonical(cwd, cfg.tmp) + ["download" + Suffix(f)] {
      ArchivePath(cfg, cwd, f);
    }
  }

  lemma ArchivePath(cfg: Config, cwd: Path, f: ArchiveFormat)
    ensures Canonical(cwd, Archive(cfg, f)) == Canonical(cwd, cfg.tmp) + ["download" + Suffix(f)]
  {
    JoinName(cwd, cfg.tmp, "download" + Suffix(f));
  }

  /** Every effect of a fetch targets the temporary directory or a name directly inside it, whatever the
      replies, the sniffed types and the nesting depth. */
  lemma {:induction false} TornadoFetchConfined(cfg: Config, web: Web, sniff: Sniffer, source: string, depth: nat, cwd: Path)
    ensures Confined(TornadoFetch(cfg, web, sniff, source, depth).steps, cwd, cfg.tmp)
    decreases depth, 1
  {
    if IsUrl(source) {
      var headers := AuthHeaders(cfg.auth, cfg.token);
      var reply := TornadoClient(web, source, headers);
      if reply.Some? && reply.value.status == 200 {
        SaveDownloadConfined(cfg, web, sniff, reply.value.body, depth, cwd);
        ConfinedAppend([Request(source, headers)], SaveDownload(cfg, web, sniff, reply.value.body, depth).steps, cwd, cfg.tmp);
      }
    } else {
      TmpPaths(cfg, cwd);
      LocalFetchFacts(cfg, source);
      assert TmpName("content");
    }
  }

  lemma {:induction false} SaveDownloadConfined(cfg: Config, web: Web, sniff: Sniffer, body: Bytes, depth: nat, cwd: Path)
    ensures Confined(SaveDownload(cfg, web, sniff, body, depth).steps, cwd, cfg.tmp)
    decreases depth, 0
  {
    var format := SniffedFormat(sniff(body));
    if format.None? {
      UnsniffedConfined(cfg, web, sniff, body, depth, cwd);
    } else if depth == 0 {
      StoppedConfined(cfg, web, sniff, body, format.value, cwd);
    } else {
      TornadoFetchConfined(cfg, web, sniff, Archive(cfg, format.value), depth - 1, cwd);
      NestedConfined(cfg, web, sniff, body, depth, format.value, cwd);
    }
  }

  /** A fetch leaves the tree as it was at every path that is neither inside the temporary directory nor one of
      the directories above it, however far it gets. */
  lemma TornadoFetchAway(cfg: Config, web: Web, sniff: Sniffer, source: string, depth: nat, cwd: Path,
                         unpack: Unpacker, fs: Tree)
    ensures SameAway(fs, Run(fs, cwd, unpack, TornadoFetch(cfg, web, sniff, source, depth)).tree, Canonical(cwd, cfg.tmp))
  {
    var steps, t := TornadoFetch(cfg, web, sniff, source, depth).steps, Canonical(cwd, cfg.tmp);
    TornadoFetchConfined(cfg, web, sniff, source, depth, cwd);
    forall i, w | 0 <= i < |steps| && w in Writes(steps[i]) ensures Under(Canonical(cwd, w), t) {
      InTmpUnder(Canonical(cwd, w), t);
    }
    PerformAway(fs, cwd, unpack, steps, t);
  }

  lemma InTmpUnder(p: Path, base: Path)
    requires InTmp(p, base)
    ensures Under(p, base)
  {
    assert base[..|base|] == base;
  }

  lemma UnsniffedConfined(cfg: Config, web: Web, sniff: Sniffer, body: Bytes, depth: nat, cwd: Path)
    requires SniffedFormat(sniff(body)).None?
    ensures Confined(SaveDownload(cfg, web, sniff, body, depth).steps, cwd, cfg.tmp)
  {
    SavedConfined(cfg, body, cwd);
  }

  lemma StoppedConfined(cfg: Config, web: Web, sniff: Sniffer, body: Bytes, f: ArchiveFormat, cwd: Path)
    requires SniffedFormat(sniff(body)) == Some(f)
    ensures Confined(SaveDownload(cfg, web, sniff, body, 0).steps, cwd, cfg.tmp)
  {
    RenamedConfined(cfg, body, f, cwd, []);
    SaveDownloadStopped(cfg, web, sniff, body, f);
  }

  lemma NestedConfined(cfg: Config, web: Web, sniff: Sniffer, body: Bytes, depth: nat, f: ArchiveFormat, cwd: Path)
    requires depth > 0 && SniffedFormat(sniff(body)) == Some(f)
    requires Confined(TornadoFetch(cfg, web, sniff, Archive(cfg, f), depth - 1).steps, cwd, cfg.tmp)
    ensures Confined(SaveDownload(cfg, web, sniff, body, depth).steps, cwd, cfg.tmp)
  {
    RenamedConfined(cfg, body, f, cwd, TornadoFetch(cfg, web, sniff, Archive(cfg, f), depth - 1).steps);
    SaveDownloadNested(cfg, web, sniff, body, depth, f);
  }

  /** The steps of a saved download whose type was sniffed, when the nested fetch runs. */
  lemma SaveDownloadNested(cfg: Config, web: Web, sniff: Sniffer, body: Bytes, depth: nat, f: ArchiveFormat)
    requires depth > 0 && SniffedFormat(sniff(body)) == Some(f)
    ensures SaveDownload(cfg, web, sniff, body, depth).steps ==
      [MakeDirsAt(cfg.tmp), WriteTo(Download(cfg), body)] + [RenameTo(Download(cfg), Archive(cfg, f))] +
      TornadoFetch(cfg, web, sniff, Archive(cfg, f), depth - 1).steps
  {
  }

  /** The steps of a saved download whose type was sniffed, when no depth is left. */
  lemma SaveDownloadStopped(cfg: Config, web: Web, sniff: Sniffer, body: Bytes, f: ArchiveFormat)
    requires SniffedFormat(sniff(body)) == Some(f)
    ensures SaveDownload(cfg, web, sniff, body, 0).steps ==
      [MakeDirsAt(cfg.tmp), WriteTo(Download(cfg), body)] + [RenameTo(Download(cfg), Archive(cfg, f))] + []
  {
    assert [MakeDirsAt(cfg.tmp), WriteTo(Download(cfg), body)] + [RenameTo(Download(cfg), Archive(cfg, f))] + [] ==
      [MakeDirsAt(cfg.tmp), WriteTo(Download(cfg), body)] + [RenameTo(Download(cfg), Archive(cfg, f))];
  }

  /** Saving, renaming and then steps that are themselves confined stays confined. */
  lemma RenamedConfined(cfg: Config, body: Bytes, f: ArchiveFormat, cwd: Path, rest: seq<Effect>)
    requires Confined(rest, cwd, cfg.tmp)
    ensures Confined([MakeDirsAt(cfg.tmp), WriteTo(Download(cfg), body)] + [RenameTo(Download(cfg), Archive(cfg, f))] + rest,
                     cwd, cfg.tmp)
  {
    var saved := [MakeDirsAt(cfg.tmp), WriteTo(Download(cfg), body)];
    var rename := [RenameTo(Download(cfg), Archive(cfg, f))];
    SavedConfined(cfg, body, cwd);
    RenameConfined(cfg, f, cwd);
    ConfinedAppend(saved, rename, cwd, cfg.tmp);
    ConfinedAppend(saved + rename, rest, cwd, cfg.tmp);
  }

  lemma SavedConfined(cfg: Config, body: Bytes, cwd: Path)
    ensures Confined([MakeDirsAt(cfg.tmp), WriteTo(Download(cfg), body)], cwd, cfg.tmp)
  {
    TmpPaths(cfg, cwd);
    InTmpName(Canonical(cwd, cfg.tmp), "download");
  }

  lemma RenameConfined(cfg: Config, f: ArchiveFormat, cwd: Path)
    ensures Confined([RenameTo(Download(cfg), Archive(cfg, f))], cwd, cfg.tmp)
  {
    TmpPaths(cfg, cwd);
    ArchiveName(f);
    InTmpName(Canonical(cwd, cfg.tmp), "download");
    InTmpName(Canonical(cwd, cfg.tmp), "download" + Suffix(f));
  }

  lemma InTmpName(base: Path, n: string)
    requires TmpName(n)
    ensures InTmp(base + [n], base)
  {
    assert (base + [n])[..|base|] == base;
  }

  // ----- deploying the parts -----

  /** `deploy_tutorial` once the paths are built: a missing source is only logged; otherwise the target is
      replaced by a copy of the source. */
  function TutorialPart(t: Tree, src: Path, dst: Path): Result<Tree>
  {
    if src !in t then Ok(t) else ReplaceSubtree(t, src, dst)
  }

  /** The tutorial policy part by part, on a well-formed tree with source and target apart: a missing source
      leaves everything as it was; otherwise the step succeeds exactly when the source is a directory and the
      way to the target is free of files, and then the target holds exactly the source's entries while nothing
      outside the target changes, apart from the target's missing parent directories. */
  lemma TutorialPartSound(t: Tree, src: Path, dst: Path)
    requires Valid(t) && Disjoint(src, dst)
    ensures src !in t ==> TutorialPart(t, src, dst) == Ok(t)
    ensures src in t ==> (TutorialPart(t, src, dst).Ok? <==> IsDir(t, src) && !Obstructed(t, dst))
    ensures src in t && TutorialPart(t, src, dst).Ok? ==>
      var t' := TutorialPart(t, src, dst).value;
      Valid(t') &&
      (forall r :: dst + r in t' <==> src + r in t) &&
      (forall r :: src + r in t ==> t'[dst + r] == t[src + r]) &&
      (forall q :: q in t && !Under(q, dst) ==> q in t' && t'[q] == t[q]) &&
      (forall q :: q in t' && q !in t ==> Under(q, dst) || Under(dst, q))
  {
    if src in t {
      ReplaceSubtreeSucceeds(t, src, dst);
      if ReplaceSubtree(t, src, dst).Ok? {
        ReplaceSubtreeExact(t, src, dst);
      }
    }
  }

  /** The Tornado server's deployment state: the filesystem, the ready flag, and what it is configured with.
      The working directory resolves relative paths; the network, the sniffer and the archive readers are the
      parameters a fetch runs against. */
  class ContentServer {
    var fs: Tree
    var ready: bool
    const cfg: Config
    const cwd: Path
    const web: Web
    const sniff: Sniffer
    const unpack: Unpacker

    ghost predicate Valid()
      reads this
    {
      Trees.Valid(fs) && IsCanonical(cwd)
    }

    /** The server starts with the flag down (`ready_flag = False`). */
    constructor (cfg: Config, cwd: Path, web: Web, sniff: Sniffer, unpack: Unpacker, fs: Tree)
      requires Trees.Valid(fs) && IsCanonical(cwd)
      ensures Valid() && !ready
      ensures this.fs == fs && this.cfg == cfg && this.cwd == cwd
      ensures this.web == web && this.sniff == sniff && this.unpack == unpack
    {
      this.fs := fs;
      this.ready := false;
      this.cfg := cfg;
      this.cwd := cwd;
      this.web := web;
      this.sniff := sniff;
      this.unpack := unpack;
    }

    /** The temporary directory, and a part's source (below the fetched content) and target (below home). */
    function TmpPath(): Path
    {
      Canonical(cwd, cfg.tmp)
    }

    function PartSource(part: PartConfig): Path
    {
      Canonical(cwd, JoinAll(cfg.tmp, ["content", part.source]))
    }

    function PartTarget(part: PartConfig): Path
    {
      Canonical(cwd, Join(cfg.home, part.target))
    }

    /** `fetch_content(config.get('app', 'source'))`: the fetch's effects carried out in order until one fails;
        it succeeds when all of them do and the fetch completes. */
    method FetchContent() returns (ok: bool)
      requires Valid()
      modifies this`fs
      ensures Valid()
      ensures var r := Run(old(fs), cwd, unpack, TornadoFetch(cfg, web, sniff, cfg.source, 1));
        fs == r.tree && ok == r.ok
    {
      var plan := TornadoFetch(cfg, web, sniff, cfg.source, 1);
      PerformValid(fs, cwd, unpack, plan.steps);
      var r := Run(fs, cwd, unpack, plan);
      fs := r.tree;
      ok := r.ok;
    }

    /** `deploy_tutorial(part)`: remove the target if it exists, then copy the source there; a missing source
        is only logged. When removing succeeds and copying fails, the target stays removed. */
    method DeployTutorial(part: PartConfig) returns (ok: bool)
      requires Valid()
      modifies this`fs
      ensures Valid()
      ensures ok <==> TutorialPart(old(fs), PartSource(part), PartTarget(part)).Ok?
      ensures ok ==> fs == TutorialPart(old(fs), PartSource(part), PartTarget(part)).value
      ensures !ok ==> fs == old(fs) || fs == RemoveTree(old(fs), PartTarget(part))
    {
      var src, dst := PartSource(part), PartTarget(part);
      if src !in fs {
        return true;
      }
      if dst in fs {
        var cleared := RmTree(fs, dst);
        if cleared.Err? {
          return false;
        }
        RemoveTreeValid(fs, dst);
        fs := cleared.value;
      }
      var copied := CopyTree(fs, src, dst);
      if copied.Err? {
        return false;
      }
      CopyTreeValid(fs, src, dst);
      fs := copied.value;
      ok := true;
    }

    /** `deploy_workspace(part)`: when the source exists, make the target if it is missing and walk the source,
        making each directory at the target and copying each file that is missing there. `dirs` and `files` are
        the order in which the walk listed the source. Whether it succeeds or not, nothing that existed changes. */
    method DeployWorkspace(part: PartConfig) returns (ok: bool, dirs: seq<Path>, files: seq<Path>)
      requires Valid()
      modifies this`fs
      ensures Valid()
      ensures WalkOrder(old(fs), PartSource(part), dirs, files)
      ensures ok <==> TornadoWorkspace(old(fs), PartSource(part), PartTarget(part), dirs, files).Ok?
      ensures ok ==> fs == TornadoWorkspace(old(fs), PartSource(part), PartTarget(part), dirs, files).value
      ensures Extends(old(fs), fs)
    {
      var src, dst := PartSource(part), PartTarget(part);
      var t := fs;
      dirs := EnumerateSet(RelDirs(fs, src));
      files := EnumerateSet(RelFiles(fs, src));
      if src !in fs {
        return true, dirs, files;
      }
      if dst !in fs {
        var made := MakeDirs(fs, dst);
        if made.Err? {
          return false, dirs, files;
        }
        MakeDirsValid(fs, dst);
        fs := made.value;
      }
      if !IsDir(t, src) {
        return true, dirs, files;
      }
      ok := WalkSource(src, dst, dirs + files);
    }

    /** The walk of `deploy_workspace`: each listed entry visited in turn, the first failure ending it. */
    method WalkSource(src: Path, dst: Path, rs: seq<Path>) returns (ok: bool)
      requires Valid()
      modifies this`fs
      ensures Valid() && Extends(old(fs), fs)
      ensures ok <==> Walk(MirrorTree, old(fs), src, dst, rs).Ok?
      ensures ok ==> fs == Walk(MirrorTree, old(fs), src, dst, rs).value
    {
      var i := 0;
      while i < |rs|
        invariant 0 <= i <= |rs|
        invariant Walk(MirrorTree, old(fs), src, dst, rs[..i]) == Ok(fs)
        invariant Valid() && Extends(old(fs), fs)
      {
        var next := Step(MirrorTree, fs, src, dst, rs[i]);
        WalkAdvance(MirrorTree, old(fs), fs, src, dst, rs, i);
        if next.Err? {
          return false;
        }
        fs := next.value;
        i := i + 1;
      }
      assert rs[..i] == rs;
      ok := true;
    }

    /** `deploy_part(name)`: the part's `type` selects the policy; any other type deploys nothing. */
    method DeployPart(name: string) returns (ok: bool)
      requires Valid() && name in cfg.sections
      modifies this`fs
      ensures Valid()
      ensures var part := cfg.sections[name];
        (part.kind == "tutorial" ==>
          (ok <==> TutorialPart(old(fs), PartSource(part), PartTarget(part)).Ok?) &&
          (ok ==> fs == TutorialPart(old(fs), PartSource(part), PartTarget(part)).value)) &&
        (part.kind == "workspace" ==>
          Extends(old(fs), fs) &&
          exists dirs, files :: WalkOrder(old(fs), PartSource(part), dirs, files) &&
            (ok <==> TornadoWorkspace(old(fs), PartSource(part), PartTarget(part), dirs, files).Ok?) &&
            (ok ==> TornadoWorkspace(old(fs), PartSource(part), PartTarget(part), dirs, files) == Ok(fs))) &&
        (part.kind != "tutorial" && part.kind != "workspace" ==> ok && fs == old(fs))
    {
      var part := cfg.sections[name];
      if part.kind == "tutorial" {
        ok := DeployTutorial(part);
      } else if part.kind == "workspace" {
        var dirs, files;
        ok, dirs, files := DeployWorkspace(part);
      } else {
        ok := true;
      }
    }

    /** `if os.path.exists(tmp): shutil.rmtree(tmp)`. */
    method ClearTmp() returns (ok: bool)
      requires Valid()
      modifies this`fs
      ensures Valid()
      ensures ok <==> TmpPath() !in old(fs) || RmTree(old(fs), TmpPath()).Ok?
      ensures ok ==> TmpPath() !in fs && fs == (if TmpPath() in old(fs) then RemoveTree(old(fs), TmpPath()) else old(fs))
      ensures !ok ==> fs == old(fs)
    {
      if TmpPath() in fs {
        var cleared := RmTree(fs, TmpPath());
        if cleared.Err? {
          return false;
        }
        RemoveTreeValid(fs, TmpPath());
        fs := cleared.value;
      }
      ok := true;
    }

    /** The loop over the listed parts: each one that has a section is deployed, in the listed order, until one
        fails. `deployed` lists the parts deployed. */
    method DeployParts(names: seq<string>) returns (ok: bool, deployed: seq<string>)
      requires Valid()
      modifies this`fs
      ensures Valid()
      ensures ok ==> deployed == Configured(names, cfg.sections)
    {
      deployed := [];
      for i := 0 to |names|
        invariant Valid()
        invariant deployed == Configured(names[..i], cfg.sections)
      {
        if names[i] in cfg.sections {
          var done := DeployPart(names[i]);
          if !done {
            return false, deployed;
          }
          deployed := deployed + [names[i]];
        }
        ConfiguredAppend(names[..i], [names[i]], cfg.sections);
        assert names[..i + 1] == names[..i] + [names[i]];
      }
      assert names[..|names|] == names;
      ok := true;
    }

    /** `deploy_content()`: clear the temporary directory, fetch the source, deploy the listed parts that have
        a section in the listed order, clear the temporary directory again and raise the flag. The first step
        that fails ends the deployment with the flag as it was; the flag is never lowered. `deployed` lists the
        parts deployed. */
    method DeployContent() returns (ok: bool, deployed: seq<string>)
      requires Valid()
      modifies this
      ensures Valid()
      ensures ready == (old(ready) || ok)
      ensures ok ==> Run(if TmpPath() in old(fs) then RemoveTree(old(fs), TmpPath()) else old(fs),
                         cwd, unpack, TornadoFetch(cfg, web, sniff, cfg.source, 1)).ok
      ensures ok ==> deployed == Configured(PartNames(cfg.parts), cfg.sections)
      ensures ok ==> TmpPath() !in fs
    {
      deployed := [];
      var cleared := ClearTmp();
      if !cleared {
        return false, deployed;
      }
      var fetched := FetchContent();
      if !fetched {
        return false, deployed;
      }
      var done;
      done, deployed := DeployParts(PartNames(cfg.parts));
      if !done {
        return false, deployed;
      }
      cleared := ClearTmp();
      if !cleared {
        return false, deployed;
      }
      ready := true;
      ok := true;
    }
  }
}
