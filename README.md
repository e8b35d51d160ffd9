# tutorial-server, modelled in Dafny

The tutorial server publishes a tutorial, together with the student's workspace, inside a JupyterHub
environment. It comes in two generations, and this project models the decision logic of both.

- **Tornado server.** `content.py` fetches the configured source into a temporary directory. It then deploys
  each configured part with the *tutorial* policy (replace the target) or the *workspace* policy (add only what
  is missing), and raises a ready flag. `handlers.py` serves the parts' files, redirects the root, zips every
  part for download and redeploys on request. Every handler answers 503 until the flag is up.
- **Pyramid server.** `deployment.py` deploys a tutorial from a URL, an archive or a directory, deploys its
  shipped workspace, and keeps a ready flag with a JSON view and a gate decorator that serves a loading page.
  `views.py`, `views/content.py` and `views/tutorial.py` resolve a request path under the tutorial directory,
  pick a MIME type and assemble the headers.

The filesystem is a map from canonical paths (sequences of names) to regular files and directories. The
`os`/`shutil` operations the servers use are functions on that map:
- `os.path.exists`, `os.makedirs`, `shutil.rmtree`, `shutil.copytree` and `shutil.copyfile`;
- `open(...).write`, `os.rename` and archive extraction.

A failing operation is an `Err`, which stands for the exception the code lets escape.

`os.path.join` is modelled on strings. The path a string names is its lexical normal form (`Paths.Canonical`);
`os.path.abspath` gives that path rendered as a string, with the second leading slash POSIX keeps for a string
starting with exactly two (`Paths.AbsPath`). `Path.resolve(strict=True)` walks the same segments through the tree (`Resolve.StrictResolve`).
Each name is looked up as it is met, so a name below a regular file raises `NotADirectoryError`, and any other
missing name raises `FileNotFoundError`. Both servers test containment by *string prefix*, and the model keeps
that test: a sibling directory whose name extends the base's is accepted.

The fetch logic of both servers is a pure planner (`Content.TornadoFetch`, `Deployment.PyramidDeploy`). The
planner produces the effects in order and says how the fetch ends. An interpreter (`Fetch.Run`) carries the
effects out on the tree. The network, `filetype.guess`, `mimetypes.guess_type` and the archive readers are
function parameters.

The state the code updates in place is held in classes:
- `Content.ContentServer` holds the filesystem and `ready_flag`;
- `Deployment.TutorialDeployment` holds the filesystem and `tutorial_ready`.

Their methods carry out the deployment step by step, with loops for the parts and for the directory walks. The
handlers' download builds its zip entries in a nested loop (`Handlers.DownloadGet`).

Some behaviours of the code that the model keeps:
- Tornado's `AsyncHTTPClient.fetch` raises on a reply outside 200-299, because `raise_error` defaults to true.
  The refresh or start-up deployment therefore fails and the flag stays down (`Content.TornadoClient`).
  Pyramid's `requests.get` does not raise, and a non-200 reply deploys nothing.
- Pyramid's copy branch removes the old `tutorial` before copying, so a copy that raises leaves it removed
  (`Deployment.PyramidCopySound`). An archive without members extracts nothing, not even its destination.
- The download names each entry by cutting `len(home) + 1` characters off the walked path
  (`Handlers.PartEntries`); see "## Findings" for where that differs from the path relative to home.
- Containment is a string-prefix test on the normalised path. It is not path descent, so siblings pass
  (`Views.ResolveSiblingServed`, `Handlers.TutorialGetContained`). Pyramid's `*path` route drops ".." segments
  from the request, so in the Pyramid views such a path can only come from the configured base. In the Tornado
  handler a request reaches it with an encoded "%2E%2E". In `views.py` the prefix is the configured base string
  itself, so a relative base serves nothing (`Views.ResolveRelativeBase`).
- The Pyramid views catch only `FileNotFoundError` and `RuntimeError`. A request that names a path below a
  regular file, such as `index.html/x`, raises `NotADirectoryError` inside `resolve(strict=True)`, which escapes,
  and the server answers 500 (`Views.GetTutorialThroughFile`, `Views.ResolvePathNames`).
- The Tornado tutorial handler compares `abspath` strings, so a request path starting with exactly two slashes,
  such as `//h/t/x` under the part root "/h/t", fails the prefix test and is a 404, although it names a file
  below the root (`Handlers.TutorialGetDoubleSlash`).
- The Tornado tutorial handler answers 500 for an existing directory named without a final '/': the path
  exists, so it passes the handler's test, and then reading it raises (`Handlers.TutorialGetCases`).

## Model

| member | source | states |
|---|---|---|
| Paths.Canonical | src/tutorial_server/handlers.py:78-79 | the path a string names, as the kernel reads it: canonical (plain names only) whenever the working directory is canonical |
| Paths.AbsPath | src/tutorial_server/handlers.py:78-79 | `abspath`'s string names the same path as its argument, and starts with exactly two slashes exactly when the argument does |
| Paths.JoinKeepsRoot | src/tutorial_server/handlers.py:79 | joining a relative name onto an absolute path string keeps its kind of root |
| Paths.LeadPrefix | src/tutorial_server/handlers.py:80 | below a path other than the root, one `abspath` string starts with another exactly when both have the same kind of root and the rendered paths pass the prefix test |
| Paths.Normalize | src/tutorial_server/handlers.py:79 | `normpath` segment by segment: a canonical start with names free of '/' stays canonical |
| Paths.CanonicalOfRender | src/tutorial_server/views/content.py:35 | rendering a canonical path as a string and resolving it again gives the same path |
| Paths.Join | src/tutorial_server/handlers.py:100 | `os.path.join` of two strings; `Paths.JoinName`, `JoinAllNames` and `JoinBelow` state what it gives |
| Paths.JoinName | src/tutorial_server/content.py:121-123 | joining a plain name onto a path string appends exactly that name to its canonical form |
| Paths.JoinAllNames | src/tutorial_server/views.py:58 | `path.join(base, *rel)` with plain names resolves to the base's canonical form followed by those names |
| Paths.RenderPrefix | src/tutorial_server/handlers.py:80 | the string-prefix test holds exactly when the path agrees with the base on all but the base's last name, and its name at that position only begins with the base's last name |
| Paths.JoinBelow | src/tutorial_server/handlers.py:79 | a root's string joined with names separated by '/' resolves to the root followed by those names |
| Paths.SplitOn | src/tutorial_server/content.py:41 | `str.split` on a separator; `Paths.SplitOfJoin` states that it inverts a join |
| Paths.SplitOfJoin | src/tutorial_server/content.py:41 | splitting names that were joined with a separator they do not contain gives the names back |
| Paths.RelNameOfJoin | src/tutorial_server/handlers.py:105 | removing the prefix and the one separator that follows it inverts `os.path.join(prefix, x)` for every prefix and every non-empty relative `x` |
| Paths.RelNameAsWrittenDrops | src/tutorial_server/content.py:147-150 | cutting `len(prefix) + 1` characters loses the first character of `x` when the prefix is empty or ends in '/' |
| Paths.RelNameAgrees | src/tutorial_server/content.py:147-150 | with a non-empty prefix that does not end in '/', cutting by length equals removing the prefix and its separator |
| Resolve.StrictNormalize | src/tutorial_server/views.py:59 | the strict walk over segments: a path it reaches is their lexical normal form, and exists when the walk starts from an entry of a well-formed tree |
| Resolve.StrictResolve | src/tutorial_server/views/content.py:34-35 | `resolve(strict=True)`: a path it reaches is the normalised path of the string, and exists in a well-formed tree |
| Resolve.StrictAppend | src/tutorial_server/views.py:59 | walking two runs of segments is walking the first and going on from where it stopped with the second |
| Resolve.StrictJoinAll | src/tutorial_server/views.py:58-59 | resolving a string joined with plain names is resolving the string and walking on through the names |
| Resolve.StrictNames | src/tutorial_server/views/tutorial.py:19 | plain names walked from a directory of a well-formed tree reach the named path when it exists; otherwise `NotADirectoryError` exactly when one of its proper prefixes is a regular file, and `FileNotFoundError` when none is |
| Trees.MakeDirs | src/tutorial_server/content.py:144 | `makedirs(exist_ok=True)` succeeds exactly when no regular file lies on the way; then the path is a directory, nothing that existed changes, and every new entry is on the way to the path |
| Trees.MakeDirsValid | src/tutorial_server/content.py:144 | making directories keeps a tree well formed |
| Trees.RmTree | src/tutorial_server/content.py:124-126 | `rmtree` succeeds exactly on an existing directory other than the root, and removes exactly the entries below it |
| Trees.RemoveTreeValid | src/tutorial_server/content.py:126 | removing a subtree keeps a tree well formed |
| Trees.CopyTree | src/tutorial_server/content.py:127 | `copytree` succeeds exactly when the source is a directory and the target is absent with no file on its way |
| Trees.RerootAt | src/tutorial_server/content.py:127 | the copy holds at each relative path exactly what the source holds there |
| Trees.CopyTreeValid | src/tutorial_server/content.py:127 | a successful copy keeps a tree well formed |
| Trees.EnumerateSet | src/tutorial_server/content.py:145 | the walk lists every entry of the set exactly once, in an order the model leaves open |
| Policies.ReplaceSubtree | src/tutorial_server/content.py:124-127 | removing the target when it exists, then copying the source to it; `Policies.ReplaceSubtreeSucceeds`, `ReplaceSubtreeExact` and `ReplaceSubtreeValid` state what it does |
| Policies.ReplaceSubtreeSucceeds | src/tutorial_server/content.py:124-127 | with source and target apart, replacing succeeds exactly when the source is a directory and no file is on the way to the target |
| Policies.ReplaceSubtreeExact | src/tutorial_server/content.py:124-127 | after a replacement the target holds exactly the source's entries, so old ones are gone. Everything outside the target is unchanged, apart from the target's missing parent directories |
| Policies.ReplaceSubtreeValid | src/tutorial_server/deployment.py:73-75 | a replacement keeps a tree well formed, even when source and target overlap |
| Policies.MakeDirsIdle | src/tutorial_server/content.py:143-144 | making an existing directory changes nothing |
| Policies.CopyIfMissing | src/tutorial_server/content.py:151-152 | the guarded copy never changes an existing entry and writes the source's bytes where nothing was |
| Policies.Step | src/tutorial_server/content.py:146-152 | one visit of the walk; `Policies.StepFacts` states what it does |
| Policies.StepFacts | src/tutorial_server/content.py:146-152 | one visit keeps every existing entry, adds entries only on the way to its target path, keeps the tree well formed, and places the visited directory or file at the target |
| Policies.Walk | src/tutorial_server/content.py:145-152 | the visits in the listed order, stopping at the first that raises; `Policies.WalkSnoc`, `WalkStopsAtErr`, `WalkCopies` and `WalkSettled` state what it does |
| Policies.WalkSnoc | src/tutorial_server/content.py:145-152 | the walk of a longer list is the walk of the shorter one followed by one more visit, or the earlier failure |
| Policies.WalkStopsAtErr | src/tutorial_server/content.py:145-152 | once a visit raises, the whole walk raises |
| Policies.WalkCopies | src/tutorial_server/content.py:149-152 | a visited file with nothing at its target path ends up there with the source's bytes, provided no other visit makes a directory on that path |
| Policies.WalkSettled | src/tutorial_server/content.py:151 | a walk whose every target is already in place changes nothing |
| Policies.TornadoWorkspace | src/tutorial_server/content.py:140-152 | the Tornado workspace policy; `Policies.TornadoWorkspaceSound`, `TornadoWorkspaceIdempotent` and `WorkspaceMissingSource` state what it does |
| Policies.TornadoWorkspaceSound | src/tutorial_server/content.py:140-152 | for every listing that visits all directories before any file, nothing that existed changes and every source directory exists at the target. Every source file exists there, with the source's bytes when nothing was there before. Every new entry is the target, a directory on the way to it, or the copy of a source directory or file |
| Policies.OnWayToListed | src/tutorial_server/content.py:143-152 | an entry on the way to the target of a source directory or file is on the way to the target itself, or is itself the target of a source directory or file |
| Policies.TornadoWorkspaceIdempotent | src/tutorial_server/content.py:140-152 | deploying the Tornado workspace a second time, with any directories-first listing, changes nothing |
| Policies.PyramidWorkspace | src/tutorial_server/deployment.py:80-89 | the Pyramid workspace policy; `Policies.PyramidWorkspaceSound`, `PyramidWorkspaceIdempotent` and `WorkspaceMissingSource` state what it does |
| Policies.PyramidWorkspaceSound | src/tutorial_server/deployment.py:80-89 | in any walk order, nothing that existed changes. Every source file exists at the target, with the source's bytes when nothing was there. Every new entry is a copied file or a directory on the way to one |
| Policies.PyramidWorkspaceIdempotent | src/tutorial_server/deployment.py:80-89 | deploying the Pyramid workspace a second time, in any walk order, changes nothing |
| Policies.WorkspaceMissingSource | src/tutorial_server/content.py:140-154 | a missing workspace source deploys nothing under either server; a source that is a regular file only makes the Tornado target |
| Fetch.IsUrl | src/tutorial_server/content.py:57 | the URL test; `Fetch.JoinNotUrl` states that joins onto a local directory fail it |
| Fetch.JoinNotUrl | src/tutorial_server/content.py:57 | a path joined onto a directory that is not a URL is not a URL, unless the directory is empty and the joined part already is one |
| Fetch.LocalFormat | src/tutorial_server/content.py:82-96 | a local source is an archive of the first suffix it ends with, and is a directory copy exactly when it ends with none of '.zip', '.tar.bz2', '.tar.gz' |
| Fetch.LocalFormatOfSuffix | src/tutorial_server/content.py:82-93 | the suffixes exclude one another: a name ending in a format's suffix is classified as that format |
| Fetch.SniffedFormatExact | src/tutorial_server/content.py:69-75 | a sniffed type selects an archive format exactly when it is that format's MIME type; anything else is unsupported |
| Fetch.AuthHeaders | src/tutorial_server/content.py:59-61 | the bearer header is sent exactly when both `source.auth` and `source.auth.token` are set, and it carries the token |
| Fetch.WriteFile | src/tutorial_server/content.py:65-66 | writing a file succeeds exactly when its parent is a directory and it is not one, and then stores the bytes |
| Fetch.RenameFile | src/tutorial_server/content.py:77 | renaming succeeds exactly for a regular file moved to a non-directory inside a directory |
| Fetch.RenameValid | src/tutorial_server/content.py:77 | renaming a regular file keeps a tree well formed |
| Fetch.Extract | src/tutorial_server/content.py:82-93 | `extractall` into a path that does not exist yet: an archive without members creates nothing; `Fetch.ApplyValid` states that it keeps a tree well formed |
| Fetch.Apply | src/tutorial_server/content.py:50-96 | one effect of a fetch on the tree; `Fetch.ApplyValid` states that it keeps a tree well formed |
| Fetch.ApplyValid | src/tutorial_server/content.py:50-96 | every single effect of a fetch keeps a tree well formed |
| Fetch.Perform | src/tutorial_server/content.py:50-96 | the effects in order, stopping at the first that raises; `Fetch.PerformValid` states that the tree stays well formed |
| Fetch.Run | src/tutorial_server/content.py:50-96 | a plan carried out, succeeding only when it completes; the plan lemmas of `Content` and `Deployment` state what each plan does |
| Fetch.PerformValid | src/tutorial_server/content.py:50-96 | carrying out a fetch's effects keeps a tree well formed, whether or not they all succeed |
| Fetch.ApplyAway | src/tutorial_server/content.py:50-96 | an effect whose targets all lie below a path changes nothing that is neither below that path nor above it |
| Fetch.PerformAway | src/tutorial_server/content.py:50-96 | effects whose targets all lie below a path change nothing that is neither below that path nor above it, however far they get |
| Content.StripLeft | src/tutorial_server/content.py:41 | `lstrip()` gives a suffix of the input that does not start with white space, and everything it drops is white space |
| Content.StripRight | src/tutorial_server/content.py:41 | `rstrip()` gives a prefix of the input that does not end with white space, and everything it drops is white space |
| Content.Strip | src/tutorial_server/content.py:41 | `strip()` gives a slice of the input with no white space at either end, and everything before and after that slice is white space |
| Content.StripPadded | src/tutorial_server/content.py:41 | stripping a string with no white space at its ends, surrounded by white space, gives exactly that string |
| Content.PartNames | src/tutorial_server/content.py:41 | the part list has at least one name and every name has no white space at its ends; `Content.PartNamesOfItems` states which names they are |
| Content.PiecesOfItems | src/tutorial_server/content.py:41 | comma-separated items without line breaks each give one piece, their stripped form, in order |
| Content.PartNamesOfItems | src/tutorial_server/content.py:41 | items without ',' or line breaks, listed with commas or one per line, are read back stripped, one name each, in order |
| Content.Pieces | src/tutorial_server/content.py:41 | every piece has no white space at its ends; `Content.PiecesOfItems` states which pieces they are |
| Content.PartNamesOfList | src/tutorial_server/content.py:41 | plain names listed with commas are parsed back exactly, in order |
| Content.PartNamesPadded | src/tutorial_server/content.py:41 | plain names with white space around each, as in "tutorial, workspace" or one per line, are read back exactly, in order |
| Content.Configured | src/tutorial_server/content.py:41-43 | the listed parts that have an `app:<part>` section; `Content.ConfiguredMembers` and `Content.ConfiguredAppend` state which ones and in what order |
| Content.ConfiguredMembers | src/tutorial_server/content.py:41-43 | a part is deployed exactly when it is listed and has an `app:<part>` section |
| Content.ConfiguredAppend | src/tutorial_server/content.py:41-43 | the deployed parts keep the listed order |
| Content.TornadoFetch | src/tutorial_server/content.py:50-96 | `fetch_content` as a plan of effects; `Content.TornadoFetchRemote`, `TornadoFetchSniffed`, `LocalFetchFacts`, `TornadoFetchNesting` and `TornadoFetchConfined` state what it does |
| Content.SaveDownload | src/tutorial_server/content.py:63-80 | the handling of a 200 reply; `Content.SaveDownloadNesting` and `TornadoFetchSniffed` state what it does |
| Content.LocalFetch | src/tutorial_server/content.py:81-96 | extraction of a local archive, or a copy of a directory, into the content directory; `Content.LocalFetchFacts` states what it does |
| Content.TornadoClient | src/tutorial_server/content.py:62 | the client yields a reply exactly when the request succeeds with a status in 200-299, and otherwise raises |
| Content.ArchiveFormatKept | src/tutorial_server/content.py:70-78 | the renamed download is extracted as the format its bytes showed |
| Content.ArchiveNotUrl | src/tutorial_server/content.py:71-78 | the renamed download is never a URL while the temporary directory is not one |
| Content.LocalFetchFacts | src/tutorial_server/content.py:81-96 | a local fetch makes no request, writes only the content directory, and completes |
| Content.TornadoFetchNesting | src/tutorial_server/content.py:50-96 | a fetch nests at most once: every depth from 1 on gives the same plan, which never runs out of depth and makes at most one request |
| Content.SaveDownloadNesting | src/tutorial_server/content.py:63-80 | saving a 200 reply first makes the temporary directory; the nested fetch neither requests nor nests |
| Content.TornadoFetchRemote | src/tutorial_server/content.py:57-66 | a URL is requested first with the configured headers. The fetch raises exactly when the request fails or the status is outside 200-299, and writes nothing exactly when the reply is not 200 |
| Content.TornadoFetchSniffed | src/tutorial_server/content.py:63-78 | a 200 reply holding an archive is saved, renamed with its format's suffix and extracted into the content directory, and nothing else happens |
| Content.TmpPaths | src/tutorial_server/content.py:64-96 | the download, the archive and the content directory are names directly inside the temporary directory |
| Content.TornadoFetchConfined | src/tutorial_server/content.py:50-96 | whatever the replies, sniffed types and depth, every effect of a fetch targets the temporary directory or a name directly inside it |
| Content.TornadoFetchAway | src/tutorial_server/content.py:50-96 | however far a fetch gets, every path that is neither inside the temporary directory nor a directory above it is left exactly as it was |
| Content.TutorialPart | src/tutorial_server/content.py:121-129 | the tutorial policy on one part; `Content.TutorialPartSound` states what it leaves |
| Content.TutorialPartSound | src/tutorial_server/content.py:121-129 | a missing source changes nothing. Otherwise the part succeeds exactly when the source is a directory and the target's way is clear, and the target then equals the source while nothing outside it changes |
| Content.ContentServer.constructor | src/tutorial_server/content.py:18-27 | the ready flag starts down |
| Content.ContentServer.FetchContent | src/tutorial_server/content.py:40 | the filesystem becomes what carrying out the fetch plan leaves, and success is the plan's success; an archive without members extracts nothing, so the content directory is not created |
| Content.ContentServer.DeployTutorial | src/tutorial_server/content.py:113-129 | the part succeeds exactly when the tutorial policy does, and then the filesystem is the policy's result. On failure either nothing changed or only the old target was removed |
| Content.ContentServer.DeployWorkspace | src/tutorial_server/content.py:132-154 | the walk lists the source's directories and then its files; for that listing, success and the new filesystem are exactly the workspace policy's. Nothing that existed changes even when it fails |
| Content.ContentServer.WalkSource | src/tutorial_server/content.py:145-152 | the loop over the listed entries computes the walk function and keeps every existing entry |
| Content.ContentServer.DeployPart | src/tutorial_server/content.py:99-110 | type 'tutorial' succeeds exactly when the tutorial policy does and then leaves its result. Type 'workspace' succeeds exactly when the workspace policy does for the listing the walk made, and then leaves its result. Any other type changes nothing |
| Content.ContentServer.ClearTmp | src/tutorial_server/content.py:37-39 | the temporary directory is removed when it exists; on failure nothing changes |
| Content.ContentServer.DeployParts | src/tutorial_server/content.py:41-43 | on success the parts deployed are the listed parts that have a section, in the listed order |
| Content.ContentServer.DeployContent | src/tutorial_server/content.py:30-47 | the flag is raised exactly when the deployment succeeds and is never lowered. Success means the fetch succeeded after the first clear, every configured part was deployed in order, and no temporary directory is left |
| Deployment.PyramidDeploy | src/tutorial_server/deployment.py:48-75 | `deploy_content` as a plan of effects; `Deployment.PyramidRemote`, `PyramidUnnamed`, `PyramidLocal`, `PyramidNesting` and `PyramidCopySound` state what it does |
| Deployment.RemoteDeploy | src/tutorial_server/deployment.py:50-57 | the URL branch; `Deployment.PyramidRemote` and `PyramidUnnamed` state what it does |
| Deployment.Download | src/tutorial_server/deployment.py:52-57 | the request and the handling of its reply; `Deployment.PyramidRemote` and `DownloadNesting` state what it does |
| Deployment.LocalDeploy | src/tutorial_server/deployment.py:58-75 | the local branch; `Deployment.PyramidLocal` and `LocalStable` state what it does |
| Deployment.CopySteps | src/tutorial_server/deployment.py:72-75 | removing the target when it exists, then copying the source to it; `Deployment.PyramidCopySound` states what the two steps leave |
| Deployment.PyramidLocal | src/tutorial_server/deployment.py:58-75 | a local archive is extracted to the temporary `tutorial` directory, which then replaces the home's `tutorial`; anything else replaces it directly. Replacing is two steps: removing the old `tutorial` when it exists, then copying |
| Deployment.ExtractedIsPlain | src/tutorial_server/deployment.py:61-62 | the extracted directory is neither a URL nor an archive name, so the nested call copies it |
| Deployment.PyramidNesting | src/tutorial_server/deployment.py:48-75 | a deployment nests at most twice: every depth from 2 on gives the same plan, which never runs out of depth and makes at most one request |
| Deployment.LocalStable | src/tutorial_server/deployment.py:58-75 | a local source deploys the same way at every depth from 1 on, completing without a request |
| Deployment.DownloadNesting | src/tutorial_server/deployment.py:52-57 | a download nests the same way at every depth from 2 on and makes at most one request |
| Deployment.PyramidRemote | src/tutorial_server/deployment.py:50-57 | for "<url>$$<name>" with no other '$', only the URL is requested. A failed request raises, a non-200 reply deploys nothing, and a 200 reply is saved under the name in the temporary directory and deployed from there |
| Deployment.PyramidUnnamed | src/tutorial_server/deployment.py:51 | a URL source with no '$' at all cannot be split, so the deployment raises before any request |
| Deployment.PyramidCopySound | src/tutorial_server/deployment.py:71-75 | the copy branch succeeds exactly when the source is a directory and the target's way is clear, and then leaves the tree the tutorial policy gives. On failure either nothing changed, or the old target was removed and the copy then raised |
| Deployment.ReplaceOnce | src/tutorial_server/deployment.py:100 | `str.replace` on a page with one placeholder puts exactly the replacement in its place |
| Deployment.RequireTutorialReady | src/tutorial_server/deployment.py:92-102 | the gate decorator; `Deployment.GateSound` states when the view runs and what is served otherwise |
| Deployment.GateSound | src/tutorial_server/deployment.py:92-102 | the wrapped view runs exactly when the tutorial is ready. Otherwise the loading page is served with the ready URL in place of its placeholder |
| Deployment.ReadyJson | src/tutorial_server/deployment.py:26-31 | the ready document; `Deployment.ReadyJsonFaithful` states its form |
| Deployment.ReadyJsonFaithful | src/tutorial_server/deployment.py:26-31 | the ready document differs for the two states of the flag |
| Deployment.TutorialDeployment.constructor | src/tutorial_server/deployment.py:17 | the ready flag starts down |
| Deployment.TutorialDeployment.ReadyView | src/tutorial_server/deployment.py:27-31 | the ready document of the current flag; `Deployment.ReadyJsonFaithful` states its form |
| Deployment.TutorialDeployment.ClearTmp | src/tutorial_server/deployment.py:39-40 | the temporary directory is removed when it exists; on failure nothing changes |
| Deployment.TutorialDeployment.DeployContent | src/tutorial_server/deployment.py:41 | the filesystem becomes what carrying out the deployment plan leaves, and success is the plan's success; a failed copy leaves the old `tutorial` removed, and an archive without members extracts nothing |
| Deployment.TutorialDeployment.DeployWorkspace | src/tutorial_server/deployment.py:78-89 | for the order the walk listed the files, success and the new filesystem are exactly the files-only policy's. Nothing that existed changes even when it fails |
| Deployment.TutorialDeployment.DeployTutorial | src/tutorial_server/deployment.py:34-45 | the flag is raised exactly when every step succeeds and is never lowered. Success means the content plan succeeded after the first clear and no temporary directory is left |
| Mime.GuessMimeType | src/tutorial_server/handlers.py:15-28 | the sniffed type when sniffing succeeds. Otherwise: 'application/gzip' for a gzip encoding, 'application/octet-stream' for any other encoding or no guessed type, and the guessed type when there is no encoding |
| Mime.GuessMimeTypeNamed | src/tutorial_server/handlers.py:15-28 | the Tornado table never yields an empty type, as long as a successful sniff names one |
| Mime.GuessType | src/tutorial_server/views.py:75-94 | the Pyramid table always yields a non-empty type |
| Mime.GuessTypeTable | src/tutorial_server/views.py:85-94 | a non-empty sniffed type other than 'text/text' wins with no encoding. Otherwise the extension guess is returned unchanged when it has a type, and ('text/text', None) when it has none |
| Mime.GuessTypeEmptySniff | src/tutorial_server/views.py:85-94 | an empty sniffed type falls back to ('text/text', None) |
| Mime.HeaderList | src/tutorial_server/views.py:104-106 | exactly [Content-Type], or [Content-Encoding] alone when an encoding was guessed |
| Mime.UrlPrefix | src/tutorial_server/views/content.py:81 | the URL prefix without its last `len(app_prefix)` characters; empty when the application prefix is empty or longer |
| Mime.UrlPrefixStrips | src/tutorial_server/views/content.py:81 | a prefix ending with the application prefix loses exactly that ending |
| Mime.ContentHeaderList | src/tutorial_server/views/content.py:80-85 | exactly [X-URL-Prefix, Content-Type] in that order, or [Content-Encoding] alone when an encoding was guessed |
| Views.FirstIndex | src/tutorial_server/views.py:64-67 | the first index name that is a file in the directory; none before it is one |
| Views.ResolveFrom | src/tutorial_server/views.py:60-72 | a served path exists, passes the string-prefix test and is a regular file |
| Views.ResolveFromCases | src/tutorial_server/views.py:62-72 | a file is served as itself. A directory gets the first index entry that is a file, and a 404 when no entry is one |
| Views.ResolveFromRejects | src/tutorial_server/views.py:60-71 | a resolved path that does not exist, or fails the prefix test, is a 404 |
| Views.ResolvePath | src/tutorial_server/views.py:58-72 | what is served is a regular file, and the resolved request path's string starts with the configured base string; a raised `NotADirectoryError` comes only from the strict resolution |
| Views.ResolvePathNames | src/tutorial_server/views.py:58-72 | for plain names below a base that resolves to a directory: an existing path goes on to the prefix and index tests; otherwise `NotADirectoryError` exactly when a name is looked up inside a regular file, and a 404 exactly when not |
| Views.GetTutorialThroughFile | src/tutorial_server/views.py:97-112 | a request naming a path below a regular file of the home is answered 500, since the view catches neither `NotADirectoryError` nor its base class |
| Views.ResolveSiblingServed | src/tutorial_server/views.py:58-61 | with base "/a", the path "/a/../ab" resolves to the sibling "/ab" and is served |
| Views.ResolveRelativeBase | src/tutorial_server/views.py:58-61 | a relative base serves nothing: every request whose resolution does not raise is a 404 |
| Views.ResolveOfNames | src/tutorial_server/views.py:58-59 | a request of plain names normalises to the base followed by those names |
| Views.TypeOf | src/tutorial_server/views.py:103 | the type of a served file is never empty |
| Views.GetTutorial | src/tutorial_server/views.py:97-112 | the tutorial view; `Views.GetTutorialServes` states its answers |
| Views.GetTutorialServes | src/tutorial_server/views.py:97-112 | 200 exactly when resolution finds a file, with that file's bytes and one type or encoding header; a 500 with nothing when `NotADirectoryError` escapes, and otherwise a 404 with nothing |
| Views.TutorialResolve | src/tutorial_server/views/tutorial.py:15-25 | an empty request means the home itself; what is served is a regular file that passes the prefix test against the home string; a raised `NotADirectoryError` comes only from the strict resolution |
| Views.TutorialResolveAgrees | src/tutorial_server/views/tutorial.py:15-25 | the inline resolution equals `resolve_path` with the single index name "index.html" |
| Views.GetTutorialInline | src/tutorial_server/views/tutorial.py:12-44 | the inline tutorial view; `Views.GetTutorialInlineAgrees` states that it answers as `views.py`'s does |
| Views.GetTutorialInlineAgrees | src/tutorial_server/views/tutorial.py:12-44 | the inline tutorial view answers every request as `views.py`'s does |
| Views.ContentResolve | src/tutorial_server/views/content.py:33-47 | what is served is a regular file, the base resolves strictly (and exists, in a well-formed tree), and the resolved path's string starts with the resolved base's string; a raised `NotADirectoryError` comes from one of the two strict resolutions |
| Views.ContentResolveContained | src/tutorial_server/views/content.py:33-36 | a served path agrees with the resolved base on all but its last name, where its own name begins with the base's |
| Views.ContentResolveNames | src/tutorial_server/views/content.py:33-47 | below a base that resolves to a directory, a request of plain names always passes the prefix test and a file there is served; a missing path raises `NotADirectoryError` exactly when a name is looked up inside a regular file, and is a 404 otherwise |
| Views.ContentView | src/tutorial_server/views/content.py:74-91 | the content view before its gate; `Views.GetContentServes` states its answers |
| Views.GetContent | src/tutorial_server/views/content.py:72-91 | the gated content view; `Views.GetContentServes` states its answers |
| Views.GetContentServes | src/tutorial_server/views/content.py:72-91 | no file is served before the tutorial is ready. Once it is, the resolved file's bytes are served, the URL prefix first among the headers unless an encoding replaced them; a 500 when `NotADirectoryError` escapes, and otherwise a 404 |
| Handlers.RootHead | src/tutorial_server/handlers.py:48-50 | 503 exactly when not ready; otherwise nothing |
| Handlers.RootGet | src/tutorial_server/handlers.py:52-56 | a redirect exactly when ready, to the base path, the default part and a final '/'; otherwise 503 |
| Handlers.LookupName | src/tutorial_server/handlers.py:75-77 | 'index.html' is appended exactly when the path is empty or ends in '/' |
| Handlers.TutorialGet | src/tutorial_server/handlers.py:73-89 | a file is served only when ready, when it exists as a regular file, and when `filepath` starts with `rootpath`; the body is its bytes |
| Handlers.TutorialGetCases | src/tutorial_server/handlers.py:73-89 | 503 whenever not ready, whatever the path. Otherwise 404 when `filepath` does not start with `rootpath` or nothing exists, 500 for a directory, and for a file its bytes with the guessed type and the base path as 'X-URL-prefix' |
| Handlers.TutorialGetDoubleSlash | src/tutorial_server/handlers.py:78-87 | a request path starting with exactly two slashes, below a root other than "/" without a two-slash root, is a 404 whatever it names |
| Handlers.TutorialGetContained | src/tutorial_server/handlers.py:78-80 | a served file agrees with the part root on all but the root's last name, where its own name begins with the root's |
| Handlers.Requested | src/tutorial_server/handlers.py:78-79 | the file a tutorial request names; `Handlers.RequestedBelowRoot`, `TutorialGetNames` and `TutorialGetIndex` state which one |
| Handlers.RequestedBelowRoot | src/tutorial_server/handlers.py:78-80 | the file opened is the one `filepath` names, and it is the request's name joined onto the rendered root, whatever kind of root `rootpath` has |
| Handlers.TutorialGetNames | src/tutorial_server/handlers.py:78-85 | a path of plain names names exactly that file below the part root, and a regular file there is served |
| Handlers.TutorialGetIndex | src/tutorial_server/handlers.py:75-79 | an empty path, or plain names followed by '/', is looked up as that directory's 'index.html' |
| Handlers.EntryName | src/tutorial_server/handlers.py:105 | the intended entry name, the walked path relative to home; `Handlers.EntryNameOf` states its form |
| Handlers.EntryNameAsWritten | src/tutorial_server/handlers.py:105 | the entry name as the handler writes it, `len(home) + 1` characters cut off the walked path; `Handlers.EntryNameAsWrittenDrops` and `EntryNameAgrees` state when it differs |
| Handlers.EntryNameOf | src/tutorial_server/handlers.py:100-105 | for a target with no leading or trailing '/', the file at `rel` is archived as "<name>/<target>/<rel>", whatever the home string |
| Handlers.EntryNameAsWrittenDrops | src/tutorial_server/handlers.py:105 | with a home that is empty or ends in '/', cutting by length eats the target's first character, and the name differs from the intended one |
| Handlers.EntryNameAgrees | src/tutorial_server/handlers.py:105 | with a non-empty home not ending in '/', cutting by length gives the intended name |
| Handlers.PartEntries | src/tutorial_server/handlers.py:102-105 | one entry per listed file, in order, holding the name the handler writes, `len(home) + 1` characters cut off the walked path, and the file's bytes |
| Handlers.PartEntriesIntended | src/tutorial_server/handlers.py:100-105 | with a non-empty home not ending in '/' and a relative target without a final '/', each entry is named "<name>/<target>/<rel>" |
| Handlers.PartFiles | src/tutorial_server/handlers.py:103-105 | the inner loop builds exactly the part's entries |
| Handlers.ZipParts | src/tutorial_server/handlers.py:98-105 | the outer loop lists every file of each configured part once and builds exactly the archive's entries |
| Handlers.ZipEntries | src/tutorial_server/handlers.py:98-105 | the entries of the configured parts in turn; `Handlers.ZipEntriesComplete` and `ZipEntriesSound` state what they hold |
| Handlers.ZipEntriesComplete | src/tutorial_server/handlers.py:98-105 | every file below every configured part is in the archive under the name the handler writes, with its bytes |
| Handlers.ZipEntriesSound | src/tutorial_server/handlers.py:98-105 | every archive entry is a file below a configured part, under the name the handler writes, with its bytes |
| Handlers.DownloadGet | src/tutorial_server/handlers.py:94-111 | 503 when not ready; otherwise a zip named after the application holding the configured parts' entries in the listed order, named as the handler writes them |
| Handlers.RefreshPost | src/tutorial_server/handlers.py:117-122 | when ready, the flag stays up and the answer is nothing or a 500, and nothing only once the temporary directory is gone. When not ready, 503, the filesystem is unchanged and the flag stays down |

## Left out

- Network I/O: the HTTP reply is a parameter of the fetch (`Web`), and is absent when the request itself fails.
- Archive bytes: extraction is a parameter (`Unpacker`) from format and bytes to a tree.
- The tables behind `filetype.guess` and `mimetypes.guess_type`: both are parameters of the MIME decisions.
- Symbolic links: the kernel's lookups follow no link, and `Path.resolve(strict=True)` is the strict walk with no
  link to follow (`os.path.abspath` is lexical in Python as well). The `RuntimeError` of a symlink loop, which the views turn into a 404, cannot arise.
  Of the other errors the strict walk can raise, only `FileNotFoundError` and `NotADirectoryError` are modelled;
  a permission error is not.
- File metadata that `shutil.copy2` keeps: only contents are modelled.
- The order in which `os.walk` lists entries: the Pyramid walk's files may come in any order, and its results
  are proved for every order. The Tornado walk is modelled as every directory before any file, in any order
  within each group. `os.walk`'s own order, each directory's subdirectories and then its files, interleaves the
  two and is not among the orders proved; only the partial tree left by a walk that raises can differ.
- Handlers.DownloadGet: the answer holds the entries as (name, bytes) pairs, named as the handler passes them to
  `ZipFile.write`; the zip encoding is not modelled. `ZipFile.write` normalises each name with
  `os.path.normpath`, which also collapses "." and "..", and then strips a leading '/'; the model does not apply
  that. So a part whose target is "../shared", with home "/h", is passed as "<name>/../shared/a.txt" and stored as
  "shared/a.txt". An empty application name gives "/ws/a.txt", stored as "ws/a.txt".
- Error pages (`write_error`, the static 404/503 HTML and the `${baseurl}` substitution): an error answer is its
  status alone. `DefaultHandler` (404 for every unknown route) is not modelled.
- Start-up and concurrency: the Tornado and Pyramid route tables, `__main__.py`, `views/__init__.py`,
  `views.py:19-38`, `includeme`'s thread, the asyncio event loop and `jupyterhub_ping.py`.
- `config.py`, `old.py` and logging.
- The parse of the part list splits at ',' and at '\n' only, as `str.split` does, and strips with Python's full
  `str.isspace` set, the Unicode white space included, so a '\r' before a line break is stripped.
- Content.ContentServer.DeployWorkspace: the walk, `Policies.TornadoWorkspace`, names each entry by its path
  segments relative to the source. The code cuts `len(source) + 1` characters off the walked path instead
  (content.py:147,150). The two agree when the part's source string is non-empty and does not end in '/'
  (`Paths.RelNameAgrees`); otherwise the code mangles the names (see "## Findings"), and the model does not follow
  it there. Pyramid's cut (deployment.py:86) always agrees, because its source string ends in "workspace".
- Fetch.Extract: extracting a non-empty archive into a path that already exists is an error in the model, where
  `extractall` would merge. Both servers clear the temporary directory first, so they only extract into a fresh
  path.
- Content.TornadoFetchNesting: plans are unfolded to a depth parameter. The lemma proves the depth is never
  exhausted when the temporary directory is not a URL, and nothing is claimed for a temporary directory that
  is one.
- Deployment.PyramidNesting: the same holds, with depth 2, for a temporary directory that is neither empty nor
  a URL.
- Content.ContentServer.DeployContent: states the fetch's success, the parts deployed and the absence of the
  temporary directory, but not the final filesystem as a function of the old one, because the parts' results
  are stated by `DeployTutorial` and `DeployWorkspace` one call at a time.
- Content.ContentServer.DeployParts: states only which parts were deployed on success, not the filesystem they
  leave; what each part leaves is stated by `DeployPart`.
- Deployment.TutorialDeployment.DeployTutorial: states the content plan's success and the absence of the
  temporary directory, not the final filesystem; the content and workspace steps state theirs one call at a
  time.
- Handlers.RefreshPost: does not state the redeployed filesystem; it inherits `DeployContent`'s contract.
- Fetch.Apply: effects name paths by their lexical normal form (`Paths.Canonical`). The kernel resolves ".." through
  the tree instead: after a name that is missing or is not a directory, `os.path.exists` is False and the `os`
  calls raise, and `os.makedirs("a/nope/../b")` also makes "a/nope". The model therefore holds for configured
  path strings (`app.tmp`, `app.home`, a part's `source` and `target`, the name after "$$") in which no ".."
  follows such a name, and does not follow the code for the others.
- Content.ContentServer.DeployTutorial: a part's source and target are taken lexically, as for `Fetch.Apply`, so
  a `source` "nope/../tut" with no "content/nope" is found as "content/tut" and copied, where
  `os.path.exists` is False and the code only logs. The same holds for the workspace parts and for
  `Deployment.TutorialDeployment`'s temporary, source and target paths.
- Views.ContentResolve: that the resolved base exists is stated for well-formed trees (`Trees.Valid`), the only
  kind the servers build; for every tree it states that the strict resolution of the base reaches it.
- Views.ContentResolveNames: stated for a base that resolves to a directory of a well-formed tree. Below a base
  that is a regular file, every non-empty request raises `NotADirectoryError` and is answered 500.
- Views.ResolveRelativeBase: a request that raises `NotADirectoryError` on the way is answered 500 before the
  prefix test, so the lemma promises that nothing is served, and a 404 for every request whose resolution does
  not raise.

## Findings

| source | as written | input that shows it | evidently intended | confidence | as-written member | corrected member |
|---|---|---|---|---|---|---|
| src/tutorial_server/handlers.py:105 | the entry name cuts `len(home) + 1` characters off the walked file path | `app.home` "/h/", target "ws", file "/h/ws/a.txt" is archived as "<name>/s/a.txt" | the path relative to home, "<name>/ws/a.txt" | not executed | Handlers.EntryNameAsWrittenDrops | Handlers.EntryNameOf |
| src/tutorial_server/content.py:147-150 | the relative name cuts `len(source) + 1` characters off the walked path | a part with `source` "" makes the source string ".../content/", so "a.txt" becomes ".txt". Unless the target holds ".txt", `shutil.copyfile` then reads ".../content/.txt", which raises `FileNotFoundError` unless that file exists, and the deployment fails | the path relative to the source, "a.txt" | not executed | Paths.RelNameAsWrittenDrops | Paths.RelNameOfJoin |
