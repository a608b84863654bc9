/** Building the tree: recursive directory creation ("mkdir -p") and file creation, stated as
    functions of the tree before the call, with the properties the builder promises. */
module Build {
  import opened Wrappers
  import opened Tree

  /** A tree after a builder step, and the node the step ended at. */
  datatype Built = Built(nodes: seq<Node>, id: nat)

  /** Adds `leaf` to the arena as the child `name` of directory `parent`, at the end of its listing. */
  function AddChild(nodes: seq<Node>, parent: nat, name: string, leaf: Node): (r: seq<Node>)
    requires Valid(nodes) && parent < |nodes| && nodes[parent].Dir?
    requires name !in nodes[parent].children && Leaf(leaf)
    ensures Valid(r) && Extends(nodes, r)
    ensures |r| == |nodes| + 1 && r[|nodes|] == leaf
    ensures r[parent].Dir? && name in r[parent].children && r[parent].children[name] == |nodes|
    ensures r[parent].names == nodes[parent].names + [name]
    ensures r[parent].children == nodes[parent].children[name := |nodes|]
    ensures forall k :: 0 <= k < |nodes| && k != parent ==> r[k] == nodes[k]
  {
    var d := nodes[parent];
    var r := nodes[parent := Dir(d.children[name := |nodes|], d.names + [name], d.times)] + [leaf];
    AddChildValid(nodes, parent, name, leaf, r);
    r
  }

  lemma AddChildValid(nodes: seq<Node>, parent: nat, name: string, leaf: Node, r: seq<Node>)
    requires Valid(nodes) && parent < |nodes| && nodes[parent].Dir?
    requires name !in nodes[parent].children && Leaf(leaf)
    requires var d := nodes[parent];
      r == nodes[parent := Dir(d.children[name := |nodes|], d.names + [name], d.times)] + [leaf]
    ensures Valid(r) && Extends(nodes, r)
  {
    var d := nodes[parent];
    assert DirOk(nodes, parent);
    forall k | 0 <= k < |r| ensures DirOk(r, k) {
      if k < |nodes| && k != parent {
        assert DirOk(nodes, k);
      }
    }
    forall p: nat, n | Edge(r, p, n) && (p, n) != (parent, name)
      ensures Edge(nodes, p, n) && r[p].children[n] == nodes[p].children[n] < |nodes|
    {
      assert DirOk(nodes, p);
    }
    forall p: nat, n, q: nat, m |
      Edge(r, p, n) && Edge(r, q, m) && r[p].children[n] == r[q].children[m]
      ensures p == q && n == m
    {
      if (p, n) != (parent, name) && (q, m) != (parent, name) {
        assert Edge(nodes, p, n) && Edge(nodes, q, m);
      }
    }
    forall k | 0 <= k < |nodes| ensures NodeExtends(nodes[k], r[k]) {
    }
  }

  /** Puts file node `leaf` in the place of file node `c`; no walk can tell the difference. */
  function ReplaceFile(nodes: seq<Node>, c: nat, leaf: Node): (r: seq<Node>)
    requires Valid(nodes) && c < |nodes| && nodes[c].File? && leaf.File?
    ensures Valid(r) && |r| == |nodes| && r[c] == leaf
    ensures forall k :: 0 <= k < |nodes| && k != c ==> r[k] == nodes[k]
  {
    var r := nodes[c := leaf];
    assert forall k :: 0 <= k < |r| && k != c ==> DirOk(nodes, k) ==> DirOk(r, k);
    assert forall p: nat, n :: Edge(r, p, n) ==> Edge(nodes, p, n);
    r
  }

  lemma {:induction false} WalkReplaceFile(nodes: seq<Node>, c: nat, leaf: Node, x: nat, segs: seq<string>)
    requires Valid(nodes) && c < |nodes| && nodes[c].File? && leaf.File? && x < |nodes|
    ensures Walk(ReplaceFile(nodes, c, leaf), x, segs) == Walk(nodes, x, segs)
    decreases |segs|
  {
    if segs != [] && x != c && nodes[x].Dir? && segs[0] in nodes[x].children {
      assert DirOk(nodes, x);
      WalkReplaceFile(nodes, c, leaf, nodes[x].children[segs[0]], segs[1..]);
    }
  }

  /** Walks `segs` from directory `cur`, creating each missing directory on the way. Only the
      last one created takes the timestamps of `opts`; the ones before get the defaults. A file
      on the way, or at the end, makes the step fail with ENOTDIR. */
  function MkDirsFrom(nodes: seq<Node>, cur: nat, segs: seq<string>, opts: TimeOpts): (r: Result<Built, Errno>)
    requires Valid(nodes) && cur < |nodes|
    ensures r.Ok? ==> Valid(r.value.nodes) && Extends(nodes, r.value.nodes)
    ensures r.Ok? ==> r.value.id < |r.value.nodes| && r.value.nodes[r.value.id].Dir?
    ensures r.Err? ==> r.error == ENOTDIR
    decreases |segs|
  {
    assert DirOk(nodes, cur);
    match nodes[cur]
    case File(_, _) => Err(ENOTDIR)
    case Dir(children, _, _) =>
      if segs == [] then Ok(Built(nodes, cur))
      else if segs[0] in children then
        var r := MkDirsFrom(nodes, children[segs[0]], segs[1..], opts);
        if r.Ok? then ExtendsTransitive(nodes, nodes, r.value.nodes); r else r
      else
        var stamp := if |segs| == 1 then Stamp(opts) else Stamp(NoTimes);
        var grown := AddChild(nodes, cur, segs[0], EmptyDir(stamp));
        var r := MkDirsFrom(grown, |nodes|, segs[1..], opts);
        if r.Ok? then ExtendsTransitive(nodes, grown, r.value.nodes); r else r
  }

  /** One step of directory creation, as the loop that performs it takes it. */
  lemma MkDirsFromStep(nodes: seq<Node>, cur: nat, segs: seq<string>, opts: TimeOpts)
    requires Valid(nodes) && cur < |nodes| && nodes[cur].Dir? && segs != []
    ensures DirOk(nodes, cur)
    ensures segs[0] in nodes[cur].children ==>
      MkDirsFrom(nodes, cur, segs, opts) == MkDirsFrom(nodes, nodes[cur].children[segs[0]], segs[1..], opts)
    ensures segs[0] !in nodes[cur].children ==>
      var stamp := if |segs| == 1 then Stamp(opts) else Stamp(NoTimes);
      MkDirsFrom(nodes, cur, segs, opts) ==
        MkDirsFrom(AddChild(nodes, cur, segs[0], EmptyDir(stamp)), |nodes|, segs[1..], opts)
  {
    assert DirOk(nodes, cur);
  }

  /** `dir(path, opts)` on the segments of `path`. */
  function MkDirs(nodes: seq<Node>, segs: seq<string>, opts: TimeOpts): (r: Result<Built, Errno>)
    requires Valid(nodes)
    ensures r.Ok? ==> Valid(r.value.nodes) && Extends(nodes, r.value.nodes)
    ensures r.Err? ==> r.error == ENOTDIR
  {
    MkDirsFromWalk(nodes, 0, segs, opts);
    MkDirsFrom(nodes, 0, segs, opts)
  }

  /** Creation from an empty directory never fails. */
  lemma {:induction false} MkDirsFromEmpty(nodes: seq<Node>, cur: nat, segs: seq<string>, opts: TimeOpts)
    requires Valid(nodes) && cur < |nodes| && nodes[cur] == EmptyDir(nodes[cur].times)
    ensures MkDirsFrom(nodes, cur, segs, opts).Ok?
    decreases |segs|
  {
    if segs != [] {
      var stamp := if |segs| == 1 then Stamp(opts) else Stamp(NoTimes);
      var grown := AddChild(nodes, cur, segs[0], EmptyDir(stamp));
      MkDirsFromEmpty(grown, |nodes|, segs[1..], opts);
    }
  }

  /** What directory creation does, in terms of the walk of the same segments before it:
      it fails exactly when that walk meets a file; when the path already was a directory it
      changes nothing; when the path was missing it ends at a new empty directory stamped with
      `opts`; and afterwards the path walks to the directory it ended at. */
  lemma {:induction false} MkDirsFromWalk(nodes: seq<Node>, cur: nat, segs: seq<string>, opts: TimeOpts)
    requires Valid(nodes) && cur < |nodes|
    ensures var r := MkDirsFrom(nodes, cur, segs, opts); var w := Walk(nodes, cur, segs);
      && (r.Err? <==> w == Err(ENOTDIR) || (w.Ok? && nodes[w.value].File?))
      && (r.Ok? ==> Walk(r.value.nodes, cur, segs) == Ok(r.value.id))
      && (r.Ok? && w.Ok? ==> r.value == Built(nodes, w.value))
      && (w == Err(ENOENT) ==>
            r.Ok? && |nodes| <= r.value.id && r.value.nodes[r.value.id] == EmptyDir(Stamp(opts)))
    decreases |segs|
  {
    assert DirOk(nodes, cur);
    var r := MkDirsFrom(nodes, cur, segs, opts);
    if nodes[cur].Dir? && segs != [] {
      var children := nodes[cur].children;
      if segs[0] in children {
        MkDirsFromWalk(nodes, children[segs[0]], segs[1..], opts);
        if r.Ok? {
          assert NodeExtends(nodes[cur], r.value.nodes[cur]);
        }
      } else {
        var stamp := if |segs| == 1 then Stamp(opts) else Stamp(NoTimes);
        var grown := AddChild(nodes, cur, segs[0], EmptyDir(stamp));
        MkDirsFromEmpty(grown, |nodes|, segs[1..], opts);
        MkDirsFromWalk(grown, |nodes|, segs[1..], opts);
        assert NodeExtends(grown[cur], r.value.nodes[cur]);
      }
    }
  }

  /** Creating `a + b` from `c`, when `a` already walks to a directory, is creating `b` there. */
  lemma {:induction false} MkDirsAppend(nodes: seq<Node>, c: nat, a: seq<string>, b: seq<string>, opts: TimeOpts)
    requires Valid(nodes) && c < |nodes| && Walk(nodes, c, a).Ok? && nodes[Walk(nodes, c, a).value].Dir?
    ensures MkDirsFrom(nodes, c, a + b, opts) == MkDirsFrom(nodes, Walk(nodes, c, a).value, b, opts)
    decreases |a|
  {
    if a == [] {
      assert a + b == b;
    } else {
      assert (a + b)[0] == a[0] && (a + b)[1..] == a[1..] + b;
      assert DirOk(nodes, c);
      MkDirsAppend(nodes, nodes[c].children[a[0]], a[1..], b, opts);
    }
  }

  /** Directory creation ends at a node that changed nothing or that is a new empty directory. */
  lemma MkDirsUnchangedOrEmpty(nodes: seq<Node>, segs: seq<string>, opts: TimeOpts)
    requires Valid(nodes) && MkDirs(nodes, segs, opts).Ok?
    ensures var b := MkDirs(nodes, segs, opts).value;
      b.nodes == nodes || b.nodes[b.id] == EmptyDir(b.nodes[b.id].times)
  {
    MkDirsFromWalk(nodes, 0, segs, opts);
  }

  /** `file(path, content, opts)` on the segments of `path`: creates the missing parent
      directories with default timestamps, then stores a file holding `bytes` and stamped with
      `opts`, replacing a file already there. The root and an existing directory give EISDIR;
      a file among the parents gives ENOTDIR. */
  function PutFile(nodes: seq<Node>, segs: seq<string>, bytes: seq<Byte>, opts: TimeOpts): (r: Result<Built, Errno>)
    requires Valid(nodes)
    ensures r.Ok? ==> Valid(r.value.nodes) && r.value.id < |r.value.nodes|
    ensures r.Ok? ==> r.value.nodes[r.value.id] == File(bytes, Stamp(opts))
  {
    if segs == [] then Err(EISDIR)
    else
      var parent := MkDirs(nodes, segs[..|segs| - 1], NoTimes);
      if parent.Err? then Err(parent.error)
      else
        var grown, p, name := parent.value.nodes, parent.value.id, segs[|segs| - 1];
        var leaf := File(bytes, Stamp(opts));
        assert DirOk(grown, p);
        if name !in grown[p].children then Ok(Built(AddChild(grown, p, name, leaf), |grown|))
        else
          var c := grown[p].children[name];
          if grown[c].Dir? then Err(EISDIR)
          else Ok(Built(ReplaceFile(grown, c, leaf), c))
  }

  // ---------------------------------------------------------------------------------------
  // Properties of `dir`

  /** `dir(p)` fails, leaving the tree alone, exactly when resolving `p` meets a file;
      the error is then ENOTDIR. */
  lemma DirFails(nodes: seq<Node>, segs: seq<string>, opts: TimeOpts)
    requires Valid(nodes)
    ensures MkDirs(nodes, segs, opts).Err? <==>
      Resolve(nodes, segs) == Err(ENOTDIR) || (Resolve(nodes, segs).Ok? && nodes[Resolve(nodes, segs).value].File?)
    ensures MkDirs(nodes, segs, opts).Err? ==> MkDirs(nodes, segs, opts).error == ENOTDIR
  {
    MkDirsFromWalk(nodes, 0, segs, opts);
  }

  /** After `dir(p)`, `p` and every prefix of it resolve to directories. */
  lemma DirMakesDirectories(nodes: seq<Node>, segs: seq<string>, opts: TimeOpts)
    requires Valid(nodes) && MkDirs(nodes, segs, opts).Ok?
    ensures var after := MkDirs(nodes, segs, opts).value.nodes;
      forall k :: 0 <= k <= |segs| ==>
        StatOf(after, segs[..k]).Ok? && StatOf(after, segs[..k]).value.IsDirectory()
  {
    MkDirsFromWalk(nodes, 0, segs, opts);
    var b := MkDirs(nodes, segs, opts).value;
    PrefixesAreDirs(b.nodes, segs);
    assert segs[..|segs|] == segs;
  }

  /** `dir(p, opts)` on a missing `p` gives it the timestamps of `opts` (the defaults for
      those not given); on an existing directory it changes nothing, so options are not
      reapplied and a second `dir(p)` is a no-op. */
  lemma DirAppliesOptions(nodes: seq<Node>, segs: seq<string>, opts: TimeOpts)
    requires Valid(nodes)
    ensures Resolve(nodes, segs) == Err(ENOENT) ==>
      && MkDirs(nodes, segs, opts).Ok?
      && var t := Stamp(opts);
         StatOf(MkDirs(nodes, segs, opts).value.nodes, segs) == Ok(Stat(true, t.atime, t.mtime, t.ctime, None))
    ensures Resolve(nodes, segs).Ok? && nodes[Resolve(nodes, segs).value].Dir? ==>
      MkDirs(nodes, segs, opts) == Ok(Built(nodes, Resolve(nodes, segs).value))
  {
    MkDirsFromWalk(nodes, 0, segs, opts);
  }

  /** Calling `dir(p)` a second time, with any options, changes nothing and adds no node. */
  lemma DirIdempotent(nodes: seq<Node>, segs: seq<string>, opts: TimeOpts, again: TimeOpts)
    requires Valid(nodes) && MkDirs(nodes, segs, opts).Ok?
    ensures var b := MkDirs(nodes, segs, opts).value;
      MkDirs(b.nodes, segs, again) == Ok(b)
  {
    MkDirsFromWalk(nodes, 0, segs, opts);
    var b := MkDirs(nodes, segs, opts).value;
    MkDirsFromWalk(b.nodes, 0, segs, again);
  }

  /** Creating parents implicitly does not touch what already exists: every path that
      resolved before resolves to the same node, with the same stat and content. */
  lemma DirKeepsExisting(nodes: seq<Node>, segs: seq<string>, opts: TimeOpts, q: seq<string>)
    requires Valid(nodes) && MkDirs(nodes, segs, opts).Ok? && Resolve(nodes, q).Ok?
    ensures var after := MkDirs(nodes, segs, opts).value.nodes;
      && Resolve(after, q) == Resolve(nodes, q)
      && StatOf(after, q) == StatOf(nodes, q)
      && ReadFileOf(after, q) == ReadFileOf(nodes, q)
  {
    ExtendsKeepsStat(nodes, MkDirs(nodes, segs, opts).value.nodes, q);
  }

  /** A directory's listing only grows at its end: creating a missing child of an existing
      directory appends its name to that directory's listing. */
  lemma DirAppendsToListing(nodes: seq<Node>, parent: seq<string>, name: string, opts: TimeOpts)
    requires Valid(nodes) && ReaddirOf(nodes, parent).Ok?
    requires Resolve(nodes, parent + [name]) == Err(ENOENT)
    ensures MkDirs(nodes, parent + [name], opts).Ok?
    ensures ReaddirOf(MkDirs(nodes, parent + [name], opts).value.nodes, parent) ==
      Ok(ReaddirOf(nodes, parent).value + [name])
  {
    var p := Resolve(nodes, parent).value;
    WalkAppend(nodes, 0, parent, [name]);
    MkDirsAppend(nodes, 0, parent, [name], opts);
    var after := MkDirs(nodes, parent + [name], opts).value.nodes;
    assert after == AddChild(nodes, p, name, EmptyDir(Stamp(opts)));
    WalkExtends(nodes, after, 0, parent);
  }

  // ---------------------------------------------------------------------------------------
  // Properties of `file`

  /** `file(p)` fails with EISDIR exactly when `p` is a directory (the root included), with
      ENOTDIR exactly when resolving `p` meets a file before its end, and succeeds otherwise;
      a failed call leaves the tree alone. */
  lemma FileOutcome(nodes: seq<Node>, segs: seq<string>, bytes: seq<Byte>, opts: TimeOpts)
    requires Valid(nodes)
    ensures PutFile(nodes, segs, bytes, opts) == Err(EISDIR) <==>
      Resolve(nodes, segs).Ok? && nodes[Resolve(nodes, segs).value].Dir?
    ensures PutFile(nodes, segs, bytes, opts) == Err(ENOTDIR) <==>
      Resolve(nodes, segs) == Err(ENOTDIR)
    ensures PutFile(nodes, segs, bytes, opts).Ok? <==>
      Resolve(nodes, segs) == Err(ENOENT) || (Resolve(nodes, segs).Ok? && nodes[Resolve(nodes, segs).value].File?)
  {
    if segs != [] {
      var pre, name := segs[..|segs| - 1], segs[|segs| - 1];
      assert segs == pre + [name];
      WalkAppend(nodes, 0, pre, [name]);
      MkDirsFromWalk(nodes, 0, pre, NoTimes);
    }
  }

  lemma AddedChildResolves(nodes: seq<Node>, pre: seq<string>, p: nat, name: string, leaf: Node)
    requires Valid(nodes) && Resolve(nodes, pre) == Ok(p) && nodes[p].Dir?
    requires name !in nodes[p].children && Leaf(leaf)
    ensures Resolve(AddChild(nodes, p, name, leaf), pre + [name]) == Ok(|nodes|)
  {
    var after := AddChild(nodes, p, name, leaf);
    WalkExtends(nodes, after, 0, pre);
    WalkAppend(after, 0, pre, [name]);
  }

  lemma ReplacedFileResolves(nodes: seq<Node>, pre: seq<string>, p: nat, name: string, c: nat, leaf: Node)
    requires Valid(nodes) && Resolve(nodes, pre) == Ok(p) && Edge(nodes, p, name)
    requires nodes[p].children[name] == c && c < |nodes| && nodes[c].File? && leaf.File?
    ensures Resolve(ReplaceFile(nodes, c, leaf), pre + [name]) == Ok(c)
  {
    WalkReplaceFile(nodes, c, leaf, 0, pre + [name]);
    WalkAppend(nodes, 0, pre, [name]);
  }

  /** A successful `file(p)` ends at the node `p` then resolves to. */
  lemma PutFileResolves(nodes: seq<Node>, segs: seq<string>, bytes: seq<Byte>, opts: TimeOpts)
    requires Valid(nodes) && PutFile(nodes, segs, bytes, opts).Ok?
    ensures var b := PutFile(nodes, segs, bytes, opts).value; Resolve(b.nodes, segs) == Ok(b.id)
  {
    var pre, name := segs[..|segs| - 1], segs[|segs| - 1];
    assert segs == pre + [name];
    MkDirsFromWalk(nodes, 0, pre, NoTimes);
    var b := MkDirs(nodes, pre, NoTimes).value;
    assert DirOk(b.nodes, b.id);
    if name !in b.nodes[b.id].children {
      AddedChildResolves(b.nodes, pre, b.id, name, File(bytes, Stamp(opts)));
    } else {
      ReplacedFileResolves(b.nodes, pre, b.id, name, b.nodes[b.id].children[name], File(bytes, Stamp(opts)));
    }
  }

  /** After a successful `file(p, bytes, opts)`, reading `p` gives back exactly `bytes`,
      stat reports a file with the timestamps of `opts`, and every parent is a directory. */
  lemma FileStoresContent(nodes: seq<Node>, segs: seq<string>, bytes: seq<Byte>, opts: TimeOpts)
    requires Valid(nodes) && PutFile(nodes, segs, bytes, opts).Ok?
    ensures var after := PutFile(nodes, segs, bytes, opts).value.nodes; var t := Stamp(opts);
      && ReadFileOf(after, segs) == Ok(bytes)
      && StatOf(after, segs) == Ok(Stat(false, t.atime, t.mtime, t.ctime, Some(|bytes|)))
      && forall k :: 0 <= k < |segs| ==>
           StatOf(after, segs[..k]).Ok? && StatOf(after, segs[..k]).value.IsDirectory()
  {
    PutFileResolves(nodes, segs, bytes, opts);
    PrefixesAreDirs(PutFile(nodes, segs, bytes, opts).value.nodes, segs);
  }

  /** Replacing the file at `segs` leaves every other path as it was. */
  lemma ReplaceKeepsOthers(nodes: seq<Node>, segs: seq<string>, c: nat, leaf: Node, q: seq<string>)
    requires Valid(nodes) && Resolve(nodes, segs) == Ok(c) && nodes[c].File? && leaf.File?
    requires Resolve(nodes, q).Ok? && q != segs
    ensures var after := ReplaceFile(nodes, c, leaf);
      && Resolve(after, q) == Resolve(nodes, q)
      && StatOf(after, q) == StatOf(nodes, q)
      && ReadFileOf(after, q) == ReadFileOf(nodes, q)
  {
    WalkReplaceFile(nodes, c, leaf, 0, q);
    if Resolve(nodes, q).value == c {
      ResolveInjective(nodes, q, segs);
    }
  }

  /** `file(p)` changes nothing reachable by another path: every other path that resolved
      before resolves to the same node, with the same stat and content. */
  lemma FileKeepsOthers(nodes: seq<Node>, segs: seq<string>, bytes: seq<Byte>, opts: TimeOpts, q: seq<string>)
    requires Valid(nodes) && PutFile(nodes, segs, bytes, opts).Ok?
    requires Resolve(nodes, q).Ok? && q != segs
    ensures var after := PutFile(nodes, segs, bytes, opts).value.nodes;
      && Resolve(after, q) == Resolve(nodes, q)
      && StatOf(after, q) == StatOf(nodes, q)
      && ReadFileOf(after, q) == ReadFileOf(nodes, q)
  {
    var pre, name := segs[..|segs| - 1], segs[|segs| - 1];
    MkDirsFromWalk(nodes, 0, pre, NoTimes);
    var b := MkDirs(nodes, pre, NoTimes).value;
    var after := PutFile(nodes, segs, bytes, opts).value.nodes;
    assert DirOk(b.nodes, b.id);
    if name !in b.nodes[b.id].children {
      ExtendsTransitive(nodes, b.nodes, after);
      ExtendsKeepsStat(nodes, after, q);
    } else {
      var c := b.nodes[b.id].children[name];
      MkDirsUnchangedOrEmpty(nodes, pre, NoTimes);
      assert segs == pre + [name];
      WalkAppend(nodes, 0, pre, [name]);
      ReplaceKeepsOthers(nodes, segs, c, File(bytes, Stamp(opts)), q);
    }
  }

  /** Creating a new file in an existing directory appends its name to that directory's listing. */
  lemma FileAppendsToListing(nodes: seq<Node>, parent: seq<string>, name: string, bytes: seq<Byte>, opts: TimeOpts)
    requires Valid(nodes) && ReaddirOf(nodes, parent).Ok?
    requires Resolve(nodes, parent + [name]) == Err(ENOENT)
    ensures PutFile(nodes, parent + [name], bytes, opts).Ok?
    ensures ReaddirOf(PutFile(nodes, parent + [name], bytes, opts).value.nodes, parent) ==
      Ok(ReaddirOf(nodes, parent).value + [name])
  {
    var segs := parent + [name];
    assert segs[..|segs| - 1] == parent && segs[|segs| - 1] == name;
    var p := Resolve(nodes, parent).value;
    WalkAppend(nodes, 0, parent, [name]);
    MkDirsFromWalk(nodes, 0, parent, NoTimes);
    var after := PutFile(nodes, segs, bytes, opts).value.nodes;
    assert after == AddChild(nodes, p, name, File(bytes, Stamp(opts)));
    WalkExtends(nodes, after, 0, parent);
  }
}
