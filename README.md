# fake-fs in Dafny

A model of the fake filesystem of `node-fake-fs`: an in-memory tree of directories and files
that a test builds up with chained calls and then queries. The behaviour modelled is the one its
test suite (`test/fake-fs.js`) fixes. The implementation module the suite loads with
`require('..')` is not part of this model.

- **Builders** (`dir`, `file` and `at`) grow the tree.
  - `dir(path, opts)` works like `mkdir -p`. The `atime`/`mtime`/`ctime` options stamp only the
    directory the call names, and only when that call creates it.
  - `file(path, content | opts)` creates the missing parents the same way, then stores the
    content as bytes, stamped with the options.
  - `at(prefix)` returns a proxy whose `dir` and `file` put `prefix + "/"` before each path.
- **Queries** resolve a path against the tree and never change it.
  - `statSync`/`stat` report the node's type and timestamps.
  - `readdirSync`/`readdir` list a directory's children in the order they were created.
  - `readFileSync`/`readFile` return the stored bytes, or their text under the 'binary' or
    'ascii' encoding.
  - `exists` tells whether the path resolves.
- **Errors**
  - A missing name gives `ENOENT`.
  - A file used as a directory gives `ENOTDIR`.
  - Reading a directory as a file gives `EISDIR`.

Layout, one module per file:

- `paths.dfy` (`Paths`): cutting a path into segments. `"/"` separates segments; empty segments
  and `"."` are dropped, so `"."` and `""` name the root.
- `tree.dfy` (`Tree`): the node arena and its tree invariant `Valid`, resolution (`Walk`), and
  the read views (`StatOf`, `ReaddirOf`, `ReadFileOf`, `ExistsOf`). It also states which error
  each view reports, and the `Extends` relation ("the same tree with more in it").
- `build.dfy` (`Build`): `dir` and `file` as functions of the tree before the call (`MkDirs`,
  `PutFile`), with the builders' properties as lemmas.
- `content.dfy` (`Content`): the forms of content a builder accepts (`FileContent`), and the
  'binary'/'ascii' encodings with their round trips.
- `frame.dfy` (`Frame`): what `dir` and `file` change, stated for every path. A path exists
  afterwards exactly when it existed or is a prefix of the path given. A listing off that path is
  unchanged. The deepest directory on the way that already existed gains exactly the next name.
- `fakefs.dfy` (`FakeFs`): the class `FakeFs`, which holds the arena in a field that the
  builder methods update in place. Resolution and `mkdir -p` are loops over the segments, each
  proved equal to the recursive function that specifies it. The class `Scope` is the proxy that
  `at` returns.
- `scenarios.dfy` (`Scenarios`): the suite's test cases, stated as lemmas about a new
  filesystem.

The model resolves these points where the tests say nothing:

- `dir(p)` on an existing directory changes nothing, and its options are not re-applied.
- A file among the directories `dir` or `file` would walk through makes the call fail with
  `ENOTDIR`, and the tree is left unchanged. For `dir`, this includes `p` itself being a file.
- `file(p)` where `p` is a directory, or the root, fails with `EISDIR`, and the tree is left
  unchanged.
- `file(p)` on an existing file replaces it in place. Its content and timestamps come from the
  new call, and it keeps its position in the parent's listing.
- A timestamp that is not given is `Epoch` (0).
- `".."` is an ordinary name; it does not lead to the parent.

## Model

| member | source | states |
|---|---|---|
| Paths.Segments | test/fake-fs.js:32 | every segment a path is cut into is a name: not empty, not ".", without "/" |
| Paths.JoinSplit | test/fake-fs.js:32 | joining the pieces of a path with "/" gives the path back |
| Paths.SegmentsJoin | test/fake-fs.js:32 | any list of names is exactly the segment list of the path that joins them |
| Paths.SegmentsConcat | test/fake-fs.js:88-95 | the path `prefix + "/" + path` has the segments of `prefix` followed by those of `path`, which is what makes `at(prefix)` equal to spelling the prefix out |
| Tree.Walk | test/fake-fs.js:105-108 | resolution ends at a node or fails with ENOENT or ENOTDIR, never EISDIR; each step goes strictly deeper |
| Tree.Resolve | test/fake-fs.js:105-108 | resolution from the root ends at a node of the tree, and never reports EISDIR |
| Tree.StatOf | test/fake-fs.js:99-109 | the root stats as a directory, only a file reports a size, and stat never reports EISDIR |
| Tree.ReaddirOf | test/fake-fs.js:111-126 | readdir succeeds exactly on the paths that stat as directories, and never reports EISDIR |
| Tree.ReadFileOf | test/fake-fs.js:144-164 | readFile succeeds exactly on the paths that stat as files, giving as many bytes as stat's size; it gives EISDIR exactly on the paths that stat as directories |
| Tree.ExistsOf | test/fake-fs.js:128-142 | exists holds exactly when stat succeeds, and the root always exists |
| Tree.PrefixesAreDirs | test/fake-fs.js:31-33 | every proper prefix of a path that resolves is a directory |
| Tree.ResolveInjective | test/fake-fs.js:112-115 | two different paths never reach the same node: each node is listed under one parent and one name |
| Tree.ErrorSelection | test/fake-fs.js:105-125 | resolution gives ENOENT exactly when some prefix is a directory lacking the next name, and ENOTDIR exactly when some proper prefix is a file |
| Tree.ReadErrors | test/fake-fs.js:105-164 | the error of stat, readdir and readFile, each as an if-and-only-if on the tree; readFile gives EISDIR exactly on a directory; exists holds exactly when stat succeeds |
| Tree.ReaddirListsChildren | test/fake-fs.js:112-115 | a listing has no duplicates, and lists a name exactly when that child exists |
| Tree.ExtendsKeepsStat | test/fake-fs.js:44-49 | adding to a tree keeps the resolution, stat and content of every path that existed |
| Build.AddChild | test/fake-fs.js:112-115 | adding a node keeps the tree invariant, changes nothing that existed and appends the name to the parent's listing |
| Build.MkDirsFrom | test/fake-fs.js:30-50 | creating directories keeps the tree invariant, only adds to the tree, ends at a directory and fails only with ENOTDIR |
| Build.MkDirsFromWalk | test/fake-fs.js:44-49 | creation fails exactly when resolving the same path meets a file; an existing directory is returned unchanged; a missing path ends at a new empty directory stamped with the options; afterwards the path resolves to where creation ended |
| Build.MkDirs | test/fake-fs.js:30-50 | `dir(p)` keeps the tree invariant, only adds to the tree, and fails only with ENOTDIR |
| Build.DirFails | test/fake-fs.js:30-50 | `dir(p)` fails, with ENOTDIR, exactly when resolving `p` meets a file |
| Build.DirMakesDirectories | test/fake-fs.js:31-33 | after `dir(p)`, `p` and every prefix of it stat as directories |
| Build.DirAppliesOptions | test/fake-fs.js:35-42 | `dir(p, opts)` on a missing `p` gives it exactly the timestamps of `opts`; on an existing directory it changes nothing |
| Build.DirIdempotent | test/fake-fs.js:44-49 | repeating `dir(p)` with any options changes nothing |
| Build.DirKeepsExisting | test/fake-fs.js:44-49 | `dir(p)` keeps the resolution, stat (mtime included) and content of every path that existed |
| Build.DirAppendsToListing | test/fake-fs.js:112-115 | a directory created in an existing directory is appended to its listing |
| Build.PutFile | test/fake-fs.js:52-86 | a stored file node holds exactly the given bytes and the timestamps of the options, and the tree invariant holds |
| Build.FileOutcome | test/fake-fs.js:53-55 | `file(p)` fails with EISDIR exactly when `p` is a directory, with ENOTDIR exactly when resolving `p` meets a file, and succeeds exactly when `p` is missing or a file |
| Build.PutFileResolves | test/fake-fs.js:53-55 | after `file(p)`, `p` resolves to the node that was stored |
| Build.FileStoresContent | test/fake-fs.js:71-85 | after `file(p, bytes, opts)`, readFile gives back exactly `bytes`, stat reports a file of that size stamped with `opts`, and every parent is a directory |
| Build.FileKeepsOthers | test/fake-fs.js:57-61 | `file(p)` keeps the resolution, stat and content of every other path that existed |
| Build.FileAppendsToListing | test/fake-fs.js:112-115 | a file created in an existing directory is appended to its listing |
| Content.Encode | test/fake-fs.js:76-84 | text is stored one byte per character, each the character code modulo 256 |
| Content.Decode | test/fake-fs.js:151-154 | reading as text gives one character per byte, by the encoding's byte-to-character map |
| Content.ContentBytes | test/fake-fs.js:63-85 | text content is stored one byte per character, and text that an encoding carries reads back unchanged under it |
| Content.DecodeEncode | test/fake-fs.js:63-66 | text that the encoding can carry reads back unchanged after being stored |
| Content.EncodeDecode | test/fake-fs.js:145-149 | any bytes read as 'binary' text and written back are the same bytes |
| Content.FileTextRoundTrip | test/fake-fs.js:63-66 | a file created with such text reads back, under that encoding, as the same text |
| Frame.AddChildExists | test/fake-fs.js:112-115 | adding one node makes exactly one more path exist: the new node's own |
| Frame.AddChildListings | test/fake-fs.js:112-115 | adding one node appends its name to its parent's listing and changes no other listing |
| Frame.MkDirsFromExists | test/fake-fs.js:30-50 | after creating a path, exactly the paths that existed and the prefixes of the created path exist |
| Frame.MkDirsFromListings | test/fake-fs.js:30-50 | creating a path grows an existing listing only when that directory is a proper prefix of the path whose next path was missing, and then by exactly that next name, at the end |
| Frame.DirFrame | test/fake-fs.js:44-49 | `dir(p)`: a path exists afterwards exactly when it existed or is a prefix of `p`; a listing not on the way to `p` is unchanged; the deepest existing directory on the way gains exactly the next name of `p`, at the end |
| Frame.FileFrameAt | test/fake-fs.js:52-61 | for one path `q` under `file(p)`: `q` exists afterwards exactly when it existed or is a prefix of `p`, and its listing, if it had one, grows only when `q` is a proper prefix of `p` whose next path was missing, and then by that next name |
| Frame.FileFrame | test/fake-fs.js:57-61 | `file(p)`: a path exists afterwards exactly when it existed or is a prefix of `p`; a listing not on the way to `p` is unchanged; the deepest existing directory on the way gains exactly the next name of `p`, at the end |
| FakeFs.FakeFs.constructor | test/fake-fs.js:25-28 | a new filesystem holds only an empty root directory |
| FakeFs.FakeFs.Resolve | test/fake-fs.js:105-108 | the resolution loop gives what `Tree.Resolve` gives on the segments of the path |
| FakeFs.FakeFs.StatSync | test/fake-fs.js:99-109 | stat reports `StatOf` of the path and leaves the tree alone |
| FakeFs.FakeFs.ReaddirSync | test/fake-fs.js:111-126 | readdir reports `ReaddirOf` of the path |
| FakeFs.FakeFs.ReadFileSync | test/fake-fs.js:144-165 | readFile reports `ReadFileOf` of the path |
| FakeFs.FakeFs.ReadFileTextSync | test/fake-fs.js:151-154 | readFile with an encoding gives the decoded content, or readFile's error |
| FakeFs.FakeFs.Exists | test/fake-fs.js:128-142 | exists answers `ExistsOf` of the path, and never fails |
| FakeFs.FakeFs.MakeDirs | test/fake-fs.js:44-49 | the creation loop leaves the tree that `MkDirs` specifies, or leaves it unchanged on failure |
| FakeFs.FakeFs.Dir | test/fake-fs.js:30-50 | `dir` updates the tree to the result of `MkDirs`, or reports its error and leaves the tree unchanged |
| FakeFs.FakeFs.File | test/fake-fs.js:52-86 | `file` updates the tree to the result of `PutFile`, or reports its error and leaves the tree unchanged |
| FakeFs.FakeFs.At | test/fake-fs.js:88-90 | `at(prefix)` gives a proxy over this filesystem with that prefix |
| FakeFs.Scope.Dir | test/fake-fs.js:88-95 | the proxy's `dir` acts on the prefix's segments followed by the path's |
| FakeFs.Scope.File | test/fake-fs.js:88-95 | the proxy's `file` acts on the prefix's segments followed by the path's |
| Scenarios.DirOptionsScenario | test/fake-fs.js:35-42 | `dir('a', {mtime: 10, atime: 30})` stats as a directory with those times |
| Scenarios.PathAB | test/fake-fs.js:48 | the path `a/b` has the segments `a`, `b` |
| Scenarios.PathABC | test/fake-fs.js:32 | the path `a/b/c` has the segments `a`, `b`, `c` |
| Scenarios.RootPath | test/fake-fs.js:113 | the path `.` has no segments, so it names the root |
| Scenarios.MkdirPBelow | test/fake-fs.js:44-49 | `dir(p + q)` below an empty directory `p` succeeds, leaves `p`'s stat alone, and makes every prefix of the path a directory |
| Scenarios.MkdirPScenario | test/fake-fs.js:44-49 | after `dir(a, {mtime: t})` and `dir(a + "/" + b + "/" + c)`, `a` keeps mtime `t`, and `a/b` and `a/b/c` are directories, for any names and time (the test: "a", "b", "c", 100) |
| Scenarios.FileScenario | test/fake-fs.js:53-55 | `file(a + "/" + n)` makes that path a file and `a` a directory, for any names (the test: "a/b.txt") |
| Scenarios.FileParentScenario | test/fake-fs.js:57-61 | `file(a + "/" + n)` after `dir(a, {mtime: t})` leaves `a`'s mtime at `t` (the test: "a", "a/b.txt", 100) |
| Scenarios.FileOptionsScenario | test/fake-fs.js:75-85 | `file(n, {atime: 10, mtime: 20, content: 'a'})` stats with those times and reads back as byte 97 (the test: "hello.txt") |
| Scenarios.StatScenario | test/fake-fs.js:100-103 | `file(a + "/" + b + "/" + c, {ctime: t})` stats with ctime `t` (the test: "a/b/c", 123) |
| Scenarios.ListingScenario | test/fake-fs.js:112-115 | `dir(a).file(n)` then `readdir('.')` gives exactly `[a, n]` for any two different names (the test: "a", "b.txt") |
| Scenarios.MissingPathScenario | test/fake-fs.js:105-159 | on a new filesystem, stat, readdir and readFile of any name give ENOENT, and exists gives false |
| Scenarios.ReaddirFileScenario | test/fake-fs.js:122-125 | readdir of a just-created file gives ENOTDIR |
| Scenarios.ReadDirectoryScenario | test/fake-fs.js:129-164 | a just-created directory exists, and readFile of it gives EISDIR |
| Scenarios.ReadFileScenario | test/fake-fs.js:145-154 | bytes `[1, 2, 3]` read back unchanged; byte 97 read as 'ascii' is "a", for any file names (the tests: "bin", "file.txt") |

## Left out

- The implementation module (`require('..')`) is not part of this model. The behaviour is taken
  from the assertions of `test/fake-fs.js`. The points above where the tests are silent are
  choices of this model.
- Callback delivery of `stat`, `readdir`, `exists` and `readFile`, and the spy helper `Cb`: the
  model gives the asynchronous variants the result of the synchronous ones.
  `FakeFs.FakeFs.Exists` stands for the callback form of `exists`.
- The 'utf8' and 'base64' encodings and Node's `Buffer`: only 'binary' and 'ascii' are modelled.
  For the ASCII text in the tests ('hello'), 'utf8' agrees with them. The base64 case
  (`'TWFu'` as "Man") is not modelled.
- Content.Encode: text is a sequence of Unicode scalar values (Dafny's `char`), while a
  JavaScript string is a sequence of UTF-16 code units. A character above U+FFFF is one `char`
  and one stored byte here, where Node's 'binary' writer stores one byte per code unit, so two.
  Lone surrogates cannot be written at all. For text below U+10000 without surrogates the two
  agree.
- Content.ContentBytes: content is stored as a copied value. The test at
  `test/fake-fs.js:146-148` compares the Buffer that `readFile` hands back with `===` to the one
  given to `file`, so the source keeps the caller's object. Sharing and identity of Buffers, and a
  later change to that Buffer showing through, are not modelled.
- `".."` is not resolved to the parent directory, and absolute paths are not distinguished from
  relative ones: a leading "/" is an empty segment, which is dropped.
- FakeFs.FakeFs.Dir: returns an outcome (pass, or the error) instead of the filesystem object
  for chaining; a chain of calls is a sequence of method calls on the same object.
- FakeFs.FakeFs.File: like `Dir`, returns an outcome instead of the object. Its `content | opts`
  argument is split into a content value and the timestamp options.
- The test framework (mocha's `describe`/`it`/`done`, `should` assertions) and module loading.
- FakeFs.Scope.Dir: returns an outcome instead of the proxy. The chain
  `at('home').file('.gitignore').dir('.local')` at `test/fake-fs.js:90-92` becomes two calls on
  the same proxy. Each call's contract together with `Paths.SegmentsConcat` covers it; there is
  no scenario lemma of its own.
- FakeFs.Scope.File: like `Scope.Dir`, returns an outcome instead of the proxy, so it is not
  chained either.
