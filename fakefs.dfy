/** The fake filesystem object: a tree updated in place by the builders `dir`, `file` and
    `at`, and queried by `statSync`, `readdirSync`, `readFileSync` and `exists`. */
module FakeFs {
  import opened Wrappers
  import opened Tree
  import opened Build
  import opened Content
  import Paths

  class FakeFs {
    /** The node arena; node 0 is the root directory. */
    var nodes: seq<Node>

    ghost predicate Valid()
      reads this
    {
      Tree.Valid(nodes)
    }

    /** A new filesystem holds only its root directory. */
    constructor ()
      ensures Valid() && nodes == Empty()
    {
      nodes := Empty();
    }

    /** Walks the segments of `path` from the root, one step per segment. */
    method Resolve(path: string) returns (r: Result<nat, Errno>)
      requires Valid()
      ensures r == Tree.Resolve(nodes, Paths.Segments(path))
    {
      var segs := Paths.Segments(path);
      var cur: nat, i: nat := 0, 0;
      while i < |segs|
        invariant 0 <= i <= |segs| && cur < |nodes|
        invariant Walk(nodes, cur, segs[i..]) == Tree.Resolve(nodes, segs)
      {
        assert DirOk(nodes, cur);
        match nodes[cur] {
          case File(_, _) =>
            return Err(ENOTDIR);
          case Dir(children, _, _) =>
            if segs[i] !in children {
              return Err(ENOENT);
            }
            cur := children[segs[i]];
        }
        i := i + 1;
      }
      return Ok(cur);
    }

    method StatSync(path: string) returns (r: Result<Stat, Errno>)
      requires Valid()
      ensures r == StatOf(nodes, Paths.Segments(path))
    {
      var found := Resolve(path);
      match found {
        case Ok(i) => r := Ok(StatOfNode(nodes[i]));
        case Err(e) => r := Err(e);
      }
    }

    method ReaddirSync(path: string) returns (r: Result<seq<string>, Errno>)
      requires Valid()
      ensures r == ReaddirOf(nodes, Paths.Segments(path))
    {
      var found := Resolve(path);
      match found {
        case Ok(i) => r := if nodes[i].Dir? then Ok(nodes[i].names) else Err(ENOTDIR);
        case Err(e) => r := Err(e);
      }
    }

    method ReadFileSync(path: string) returns (r: Result<seq<Byte>, Errno>)
      requires Valid()
      ensures r == ReadFileOf(nodes, Paths.Segments(path))
    {
      var found := Resolve(path);
      match found {
        case Ok(i) => r := if nodes[i].File? then Ok(nodes[i].content) else Err(EISDIR);
        case Err(e) => r := Err(e);
      }
    }

    /** `readFileSync(path, encoding)`: the content decoded as text. */
    method ReadFileTextSync(path: string, e: Encoding) returns (r: Result<string, Errno>)
      requires Valid()
      ensures var raw := ReadFileOf(nodes, Paths.Segments(path));
        r == if raw.Ok? then Ok(Decode(raw.value, e)) else Err(raw.error)
    {
      var raw := ReadFileSync(path);
      r := if raw.Ok? then Ok(Decode(raw.value, e)) else Err(raw.error);
    }

    /** `exists(path)` never fails; it tells whether the path resolves. */
    method Exists(path: string) returns (b: bool)
      requires Valid()
      ensures b == ExistsOf(nodes, Paths.Segments(path))
    {
      var found := Resolve(path);
      b := found.Ok?;
    }

    /** The walk shared by `dir` and `file`: creates every missing directory on `segs`. */
    method MakeDirs(segs: seq<string>, opts: TimeOpts) returns (r: Result<nat, Errno>)
      requires Valid()
      modifies this
      ensures Valid()
      ensures var spec := MkDirs(old(nodes), segs, opts);
        if spec.Ok? then r == Ok(spec.value.id) && nodes == spec.value.nodes
        else r == Err(spec.error) && nodes == old(nodes)
    {
      var cur: nat, i: nat := 0, 0;
      while i < |segs|
        invariant 0 <= i <= |segs| && Tree.Valid(nodes) && cur < |nodes|
        invariant MkDirsFrom(nodes, cur, segs[i..], opts) == MkDirs(old(nodes), segs, opts)
        invariant nodes == old(nodes) || nodes[cur] == EmptyDir(nodes[cur].times)
      {
        assert DirOk(nodes, cur);
        assert segs[i..][0] == segs[i] && segs[i..][1..] == segs[i + 1..];
        match nodes[cur] {
          case File(_, _) =>
            return Err(ENOTDIR);
          case Dir(children, _, _) =>
            MkDirsFromStep(nodes, cur, segs[i..], opts);
            if segs[i] in children {
              cur := children[segs[i]];
            } else {
              var stamp := if i == |segs| - 1 then Stamp(opts) else Stamp(NoTimes);
              var added := |nodes|;
              nodes := AddChild(nodes, cur, segs[i], EmptyDir(stamp));
              cur := added;
            }
        }
        i := i + 1;
      }
      if nodes[cur].File? {
        return Err(ENOTDIR);
      }
      return Ok(cur);
    }

    /** `dir(path, opts)`: like `mkdir -p`; `opts` stamps the directory only if it is new. */
    method Dir(path: string, opts: TimeOpts) returns (o: Outcome<Errno>)
      requires Valid()
      modifies this
      ensures Valid()
      ensures var spec := MkDirs(old(nodes), Paths.Segments(path), opts);
        if spec.Ok? then o == Pass && nodes == spec.value.nodes
        else o == Fail(spec.error) && nodes == old(nodes)
    {
      var r := MakeDirs(Paths.Segments(path), opts);
      o := if r.Ok? then Pass else Fail(r.error);
    }

    /** `file(path, content, opts)`: creates the missing parents, then stores the content. */
    method File(path: string, content: FileContent, opts: TimeOpts) returns (o: Outcome<Errno>)
      requires Valid()
      modifies this
      ensures Valid()
      ensures var spec := PutFile(old(nodes), Paths.Segments(path), ContentBytes(content), opts);
        if spec.Ok? then o == Pass && nodes == spec.value.nodes
        else o == Fail(spec.error) && nodes == old(nodes)
    {
      var segs := Paths.Segments(path);
      if segs == [] {
        return Fail(EISDIR);
      }
      var parent := MakeDirs(segs[..|segs| - 1], NoTimes);
      if parent.Err? {
        return Fail(parent.error);
      }
      var p, name := parent.value, segs[|segs| - 1];
      var leaf := Node.File(ContentBytes(content), Stamp(opts));
      assert DirOk(nodes, p);
      ghost var spec := PutFile(old(nodes), segs, ContentBytes(content), opts);
      if name !in nodes[p].children {
        nodes := AddChild(nodes, p, name, leaf);
        assert spec == Ok(Built(nodes, |nodes| - 1));
      } else {
        var c := nodes[p].children[name];
        if nodes[c].Dir? {
          MkDirsUnchangedOrEmpty(old(nodes), segs[..|segs| - 1], NoTimes);
          return Fail(EISDIR);
        }
        nodes := ReplaceFile(nodes, c, leaf);
        assert spec == Ok(Built(nodes, c));
      }
      return Pass;
    }

    /** `at(prefix)`: a builder for the subtree under `prefix`. */
    method At(prefix: string) returns (s: Scope)
      ensures s.fs == this && s.prefix == prefix
    {
      s := new Scope(this, prefix);
    }
  }

  /** The proxy `at(prefix)` returns: its `dir` and `file` put `prefix + "/"` before the path. */
  class Scope {
    const fs: FakeFs
    const prefix: string

    constructor (fs: FakeFs, prefix: string)
      ensures this.fs == fs && this.prefix == prefix
    {
      this.fs := fs;
      this.prefix := prefix;
    }

    /** Acts as `dir` on the segments of `prefix` followed by those of `path`. */
    method Dir(path: string, opts: TimeOpts) returns (o: Outcome<Errno>)
      requires fs.Valid()
      modifies fs
      ensures fs.Valid()
      ensures var spec := MkDirs(old(fs.nodes), Paths.Segments(prefix) + Paths.Segments(path), opts);
        if spec.Ok? then o == Pass && fs.nodes == spec.value.nodes
        else o == Fail(spec.error) && fs.nodes == old(fs.nodes)
    {
      Paths.SegmentsConcat(prefix, path);
      o := fs.Dir(prefix + "/" + path, opts);
    }

    /** Acts as `file` on the segments of `prefix` followed by those of `path`. */
    method File(path: string, content: FileContent, opts: TimeOpts) returns (o: Outcome<Errno>)
      requires fs.Valid()
      modifies fs
      ensures fs.Valid()
      ensures var spec := PutFile(old(fs.nodes), Paths.Segments(prefix) + Paths.Segments(path), ContentBytes(content), opts);
        if spec.Ok? then o == Pass && fs.nodes == spec.value.nodes
        else o == Fail(spec.error) && fs.nodes == old(fs.nodes)
    {
      Paths.SegmentsConcat(prefix, path);
      o := fs.File(prefix + "/" + path, content, opts);
    }
  }
}
