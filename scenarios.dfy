/** The fake filesystem's own test cases, stated over the model: each scenario lemma starts from
    a new filesystem, performs the calls a test performs and states what the test expects. */
module Scenarios {
  import opened Wrappers
  import opened Tree
  import opened Build
  import opened Content
  import opened Paths

  /** The path "." has no segments: it names the root. */
  lemma RootPath()
    ensures Segments(".") == []
  {
  }

  lemma TwoNames(x: string, y: string)
    requires IsName(x) && IsName(y)
    ensures Segments(x + "/" + y) == [x, y]
  {
    SegmentsOfName(x);
    SegmentsOfName(y);
    SegmentsConcat(x, y);
  }

  lemma ThreeNames(x: string, y: string, z: string)
    requires IsName(x) && IsName(y) && IsName(z)
    ensures Segments(x + "/" + y + "/" + z) == [x, y, z]
  {
    TwoNames(x, y);
    SegmentsOfName(z);
    SegmentsConcat(x + "/" + y, z);
  }

  /** `dir('a', {mtime: 10, atime: 30})` then `statSync('a')` has those timestamps. */
  lemma DirOptionsScenario()
    ensures var s := MkDirs(Empty(), Segments("a"), TimeOpts(Some(30), Some(10), None));
      && s.Ok?
      && StatOf(s.value.nodes, Segments("a")).Ok?
      && StatOf(s.value.nodes, Segments("a")).value.IsDirectory()
      && StatOf(s.value.nodes, Segments("a")).value.mtime == 10
      && StatOf(s.value.nodes, Segments("a")).value.atime == 30
  {
    SegmentsOfName("a");
    DirAppliesOptions(Empty(), ["a"], TimeOpts(Some(30), Some(10), None));
  }

  /** The test paths `a/b` and `a/b/c`, cut into their segments. */
  lemma PathAB()
    ensures Segments("a/b") == ["a", "b"]
  {
    TwoNames("a", "b");
    assert "a/b" == "a" + "/" + "b";
  }

  lemma PathABC()
    ensures Segments("a/b/c") == ["a", "b", "c"]
  {
    ThreeNames("a", "b", "c");
    assert "a/b/c" == "a" + "/" + "b" + "/" + "c";
  }

  /** `dir(pre + rest)` where `pre` is an empty directory: `pre` stats as before and the whole
      path and each prefix of it are directories. */
  lemma MkdirPBelow(nodes: seq<Node>, pre: seq<string>, rest: seq<string>)
    requires Valid(nodes) && Resolve(nodes, pre).Ok? && rest != []
    requires nodes[Resolve(nodes, pre).value] == EmptyDir(nodes[Resolve(nodes, pre).value].times)
    ensures var s := MkDirs(nodes, pre + rest, NoTimes);
      && s.Ok?
      && StatOf(s.value.nodes, pre) == StatOf(nodes, pre)
      && forall k :: 0 <= k <= |pre + rest| ==>
           StatOf(s.value.nodes, (pre + rest)[..k]).Ok? && StatOf(s.value.nodes, (pre + rest)[..k]).value.IsDirectory()
  {
    var d := Resolve(nodes, pre).value;
    MkDirsAppend(nodes, 0, pre, rest, NoTimes);
    MkDirsFromEmpty(nodes, d, rest, NoTimes);
    DirKeepsExisting(nodes, pre + rest, NoTimes, pre);
    DirMakesDirectories(nodes, pre + rest, NoTimes);
  }

  /** `dir(a, {mtime: t})` then `dir(a + "/" + b + "/" + c)`: `a` keeps `mtime == t`, and `a/b`
      and `a/b/c` are directories. The test uses the names "a", "b", "c" and `t == 100`; the
      lemma holds for any names and time. */
  lemma MkdirPScenario(t: int, a: string, b: string, c: string)
    requires IsName(a) && IsName(b) && IsName(c)
    ensures var s1 := MkDirs(Empty(), Segments(a), TimeOpts(None, Some(t), None));
      && s1.Ok?
      && var s2 := MkDirs(s1.value.nodes, Segments(a + "/" + b + "/" + c), NoTimes);
      && s2.Ok?
      && StatOf(s2.value.nodes, Segments(a)).Ok?
      && StatOf(s2.value.nodes, Segments(a)).value.mtime == t
      && StatOf(s2.value.nodes, Segments(a + "/" + b)).Ok?
      && StatOf(s2.value.nodes, Segments(a + "/" + b)).value.IsDirectory()
      && StatOf(s2.value.nodes, Segments(a + "/" + b + "/" + c)).Ok?
      && StatOf(s2.value.nodes, Segments(a + "/" + b + "/" + c)).value.IsDirectory()
  {
    SegmentsOfName(a);
    TwoNames(a, b);
    ThreeNames(a, b, c);
    var opts := TimeOpts(None, Some(t), None);
    var abc := [a, b, c];
    MkDirsFromWalk(Empty(), 0, [a], opts);
    var n1 := MkDirs(Empty(), [a], opts).value.nodes;
    assert abc == [a] + [b, c];
    MkdirPBelow(n1, [a], [b, c]);
    assert abc[..2] == [a, b] && abc[..3] == abc;
  }

  /** `file(a + "/" + n)` makes that path a file and `a` a directory (the test uses "a/b.txt"). */
  lemma FileScenario(a: string, n: string)
    requires IsName(a) && IsName(n)
    ensures var s := PutFile(Empty(), Segments(a + "/" + n), ContentBytes(NoContent), NoTimes);
      && s.Ok?
      && StatOf(s.value.nodes, Segments(a + "/" + n)).Ok?
      && StatOf(s.value.nodes, Segments(a + "/" + n)).value.IsFile()
      && StatOf(s.value.nodes, Segments(a)).Ok?
      && StatOf(s.value.nodes, Segments(a)).value.IsDirectory()
  {
    TwoNames(a, n);
    SegmentsOfName(a);
    var segs := [a, n];
    assert segs == [a] + [n] && segs[..1] == [a];
    WalkAppend(Empty(), 0, [a], [n]);
    FileOutcome(Empty(), segs, [], NoTimes);
    FileStoresContent(Empty(), segs, [], NoTimes);
  }

  /** `dir(a, {mtime: t})` then `file(a + "/" + n)`: creating the file leaves `a`'s mtime alone
      (the test uses "a", "a/b.txt" and `t == 100`). */
  lemma FileParentScenario(t: int, a: string, n: string)
    requires IsName(a) && IsName(n)
    ensures var s1 := MkDirs(Empty(), Segments(a), TimeOpts(None, Some(t), None));
      && s1.Ok?
      && var s2 := PutFile(s1.value.nodes, Segments(a + "/" + n), ContentBytes(NoContent), NoTimes);
      && s2.Ok?
      && StatOf(s2.value.nodes, Segments(a)).Ok?
      && StatOf(s2.value.nodes, Segments(a)).value.mtime == t
  {
    TwoNames(a, n);
    SegmentsOfName(a);
    var opts := TimeOpts(None, Some(t), None);
    var segs := [a, n];
    MkDirsFromWalk(Empty(), 0, [a], opts);
    DirAppliesOptions(Empty(), [a], opts);
    var s1 := MkDirs(Empty(), [a], opts).value;
    assert segs == [a] + [n];
    WalkAppend(s1.nodes, 0, [a], [n]);
    FileOutcome(s1.nodes, segs, [], NoTimes);
    FileKeepsOthers(s1.nodes, segs, [], NoTimes, [a]);
  }

  /** `file(a + "/" + b + "/" + c, {ctime: t})` then `stat` of that path reports `ctime == t`
      (the test uses "a/b/c" and `t == 123`). */
  lemma StatScenario(t: int, a: string, b: string, c: string)
    requires IsName(a) && IsName(b) && IsName(c)
    ensures var s := PutFile(Empty(), Segments(a + "/" + b + "/" + c), [], TimeOpts(None, None, Some(t)));
      && s.Ok?
      && StatOf(s.value.nodes, Segments(a + "/" + b + "/" + c)).Ok?
      && StatOf(s.value.nodes, Segments(a + "/" + b + "/" + c)).value.ctime == t
  {
    ThreeNames(a, b, c);
    var opts := TimeOpts(None, None, Some(t));
    var abc := [a, b, c];
    assert abc == [a] + [b, c];
    WalkAppend(Empty(), 0, [a], [b, c]);
    FileOutcome(Empty(), abc, [], opts);
    FileStoresContent(Empty(), abc, [], opts);
  }

  /** `file(n, <bytes 1, 2, 3>)` reads back as those bytes, and `file(m, <byte 97>)` read as
      'ascii' is the text "a" (the tests use "bin" and "file.txt"). */
  lemma ReadFileScenario(n: string, m: string)
    requires IsName(n) && IsName(m)
    ensures var s := PutFile(Empty(), Segments(n), [1, 2, 3], NoTimes);
      s.Ok? && ReadFileOf(s.value.nodes, Segments(n)) == Ok([1, 2, 3])
    ensures var s := PutFile(Empty(), Segments(m), [97], NoTimes);
      && s.Ok?
      && ReadFileOf(s.value.nodes, Segments(m)).Ok?
      && Decode(ReadFileOf(s.value.nodes, Segments(m)).value, Ascii) == "a"
  {
    SegmentsOfName(n);
    SegmentsOfName(m);
    FileOutcome(Empty(), [n], [1, 2, 3], NoTimes);
    FileStoresContent(Empty(), [n], [1, 2, 3], NoTimes);
    FileOutcome(Empty(), [m], [97], NoTimes);
    FileStoresContent(Empty(), [m], [97], NoTimes);
    assert DecodeByte(97, Ascii) == 'a';
  }

  /** `file(n, {atime: 10, mtime: 20, content: 'a'})`: stat has those timestamps and the
      content reads back as the single byte 97 (the test uses "hello.txt"). */
  lemma FileOptionsScenario(n: string)
    requires IsName(n)
    ensures var s := PutFile(Empty(), Segments(n), ContentBytes(Text("a")), TimeOpts(Some(10), Some(20), None));
      && s.Ok?
      && StatOf(s.value.nodes, Segments(n)).Ok?
      && StatOf(s.value.nodes, Segments(n)).value.atime == 10
      && StatOf(s.value.nodes, Segments(n)).value.mtime == 20
      && ReadFileOf(s.value.nodes, Segments(n)) == Ok([97])
  {
    SegmentsOfName(n);
    var opts := TimeOpts(Some(10), Some(20), None);
    var b := Encode("a");
    assert b == [97];
    FileOutcome(Empty(), [n], b, opts);
    FileStoresContent(Empty(), [n], b, opts);
  }

  /** `dir(a).file(n).readdir('.')` lists `[a, n]` (the test uses "a" and "b.txt"). */
  lemma ListingScenario(a: string, n: string)
    requires IsName(a) && IsName(n) && a != n
    ensures var s1 := MkDirs(Empty(), Segments(a), NoTimes);
      && s1.Ok?
      && var s2 := PutFile(s1.value.nodes, Segments(n), ContentBytes(NoContent), NoTimes);
      && s2.Ok?
      && ReaddirOf(s2.value.nodes, Segments(".")) == Ok([a, n])
  {
    RootPath();
    SegmentsOfName(a);
    SegmentsOfName(n);
    var sa: seq<string>, sn: seq<string> := [a], [n];
    assert [] + sa == sa && [] + sn == sn;
    DirAppendsToListing(Empty(), [], a, NoTimes);
    var n1 := MkDirs(Empty(), sa, NoTimes).value.nodes;
    assert DirOk(n1, 0);
    assert ContentBytes(NoContent) == [];
    FileAppendsToListing(n1, [], n, [], NoTimes);
    assert sa + sn == [a, n];
  }

  /** On a new filesystem `stat`, `readdir` and `readFile` of a missing path give ENOENT and
      `exists` answers false. The tests use the names "undefined", "a", "foo" and
      "non-existent"; the lemma holds for every name. */
  lemma MissingPathScenario(n: string)
    requires IsName(n)
    ensures StatOf(Empty(), Segments(n)) == Err(ENOENT)
    ensures ReaddirOf(Empty(), Segments(n)) == Err(ENOENT)
    ensures ReadFileOf(Empty(), Segments(n)) == Err(ENOENT)
    ensures !ExistsOf(Empty(), Segments(n))
  {
    SegmentsOfName(n);
  }

  /** `readdir` of a file gives ENOTDIR (the test uses "a.txt"). */
  lemma ReaddirFileScenario(n: string)
    requires IsName(n)
    ensures var s := PutFile(Empty(), Segments(n), ContentBytes(NoContent), NoTimes);
      s.Ok? && ReaddirOf(s.value.nodes, Segments(n)) == Err(ENOTDIR)
  {
    SegmentsOfName(n);
    FileOutcome(Empty(), [n], [], NoTimes);
    FileStoresContent(Empty(), [n], [], NoTimes);
  }

  /** `readFile` of a directory gives EISDIR, and `exists` of a created directory is true (the
      tests use "dir" and "asd"). */
  lemma ReadDirectoryScenario(n: string)
    requires IsName(n)
    ensures var s := MkDirs(Empty(), Segments(n), NoTimes);
      && s.Ok?
      && ReadFileOf(s.value.nodes, Segments(n)) == Err(EISDIR)
      && ExistsOf(s.value.nodes, Segments(n))
  {
    SegmentsOfName(n);
    DirAppliesOptions(Empty(), [n], NoTimes);
  }
}
