/** What a builder call changes, stated for every path: the paths that exist afterwards, and how
    each directory listing changes. Together with the lemmas of `Build` this says that `dir` and
    `file` touch nothing off the path they are given. */
module Frame {
  import opened Wrappers
  import opened Tree
  import opened Build

  /** What a call that creates the path `s` appends to the listing of directory `q`: the segment
      of `s` after `q`, when `q` is a proper prefix of `s` and that next path did not exist. */
  function Added(nodes: seq<Node>, q: seq<string>, s: seq<string>): seq<string>
    requires Valid(nodes)
  {
    if |q| < |s| && q == s[..|q|] && !ExistsOf(nodes, s[..|q| + 1]) then [s[|q|]] else []
  }

  /** Splitting the first segment off the rest of a path. */
  lemma StepSplit(pre: seq<string>, segs: seq<string>)
    requires segs != []
    ensures (pre + [segs[0]]) + segs[1..] == pre + segs
    ensures (pre + segs)[..|pre| + 1] == pre + [segs[0]]
  {
    assert (pre + segs)[..|pre| + 1] == pre + segs[..1];
  }

  /** The prefix of `s` that ends in `name` determines the shorter prefixes of `s`. */
  lemma PrefixParts(s: seq<string>, pre: seq<string>, name: string, q: seq<string>)
    requires |pre| < |s| && s[..|pre| + 1] == pre + [name]
    ensures s[..|pre|] == pre && s[|pre|] == name
    ensures |q| < |s| && q == s[..|q|] && q != pre ==> s[..|q| + 1] != pre + [name]
  {
    assert s[..|pre|] == s[..|pre| + 1][..|pre|];
  }

  /** The last segment of a non-empty path. */
  lemma LastSplit(segs: seq<string>)
    requires segs != []
    ensures segs == segs[..|segs| - 1] + [segs[|segs| - 1]]
  {
  }

  /** A listing that grew by `x` and then by `y` grew by `x + y`. */
  lemma Regroup(listing: seq<string>, x: seq<string>, y: seq<string>, z: seq<string>)
    requires x + y == z
    ensures (listing + x) + y == listing + z
  {
  }

  /** Every prefix of an existing path exists. */
  lemma PrefixesExist(nodes: seq<Node>, s: seq<string>, q: seq<string>)
    requires Valid(nodes) && ExistsOf(nodes, s) && q <= s
    ensures ExistsOf(nodes, q)
  {
    assert s == q + s[|q|..];
    WalkAppend(nodes, 0, q, s[|q|..]);
  }

  /** The one edge that adding a node creates is the one from `pre` to `name`. */
  lemma NewEdge(nodes: seq<Node>, pre: seq<string>, p: nat, name: string, leaf: Node, q: seq<string>, x: string)
    requires Valid(nodes) && Resolve(nodes, pre) == Ok(p) && nodes[p].Dir?
    requires name !in nodes[p].children && Leaf(leaf)
    requires ExistsOf(nodes, q) && !ExistsOf(nodes, q + [x])
    requires Edge(AddChild(nodes, p, name, leaf), Resolve(nodes, q).value, x)
    ensures q == pre && x == name
  {
    var m := Resolve(nodes, q).value;
    WalkAppend(nodes, 0, q, [x]);
    assert !Edge(nodes, m, x);
    assert m == p;
    ResolveInjective(nodes, q, pre);
  }

  /** A path that exists only after adding a node is the path of that node. */
  lemma {:induction false} AddChildNewPath(nodes: seq<Node>, pre: seq<string>, p: nat, name: string, leaf: Node, q: seq<string>)
    requires Valid(nodes) && Resolve(nodes, pre) == Ok(p) && nodes[p].Dir?
    requires name !in nodes[p].children && Leaf(leaf)
    requires ExistsOf(AddChild(nodes, p, name, leaf), q) && !ExistsOf(nodes, q)
    ensures q == pre + [name]
    decreases |q|
  {
    var r := AddChild(nodes, p, name, leaf);
    var q', x := q[..|q| - 1], q[|q| - 1];
    LastSplit(q);
    WalkLast(r, q', x);
    if ExistsOf(nodes, q') {
      WalkExtends(nodes, r, 0, q');
      NewEdge(nodes, pre, p, name, leaf, q', x);
    } else {
      AddChildNewPath(nodes, pre, p, name, leaf, q');
      AddedChildResolves(nodes, pre, p, name, leaf);
      assert false;
    }
  }

  /** Adding one node makes exactly one more path exist. */
  lemma AddChildExists(nodes: seq<Node>, pre: seq<string>, p: nat, name: string, leaf: Node, q: seq<string>)
    requires Valid(nodes) && Resolve(nodes, pre) == Ok(p) && nodes[p].Dir?
    requires name !in nodes[p].children && Leaf(leaf)
    ensures ExistsOf(AddChild(nodes, p, name, leaf), q) <==> ExistsOf(nodes, q) || q == pre + [name]
  {
    var r := AddChild(nodes, p, name, leaf);
    if ExistsOf(nodes, q) {
      WalkExtends(nodes, r, 0, q);
    }
    if q == pre + [name] {
      AddedChildResolves(nodes, pre, p, name, leaf);
    }
    if ExistsOf(r, q) && !ExistsOf(nodes, q) {
      AddChildNewPath(nodes, pre, p, name, leaf, q);
    }
  }

  /** Adding one node appends its name to its parent's listing and changes no other listing. */
  lemma AddChildListings(nodes: seq<Node>, pre: seq<string>, p: nat, name: string, leaf: Node, q: seq<string>)
    requires Valid(nodes) && Resolve(nodes, pre) == Ok(p) && nodes[p].Dir?
    requires name !in nodes[p].children && Leaf(leaf) && ReaddirOf(nodes, q).Ok?
    ensures ReaddirOf(AddChild(nodes, p, name, leaf), q) ==
      Ok(ReaddirOf(nodes, q).value + if q == pre then [name] else [])
  {
    var r := AddChild(nodes, p, name, leaf);
    var m := Resolve(nodes, q).value;
    WalkExtends(nodes, r, 0, q);
    assert Resolve(r, q) == Ok(m);
    if m == p {
      ResolveInjective(nodes, q, pre);
      assert ReaddirOf(r, q) == Ok(nodes[p].names + [name]);
    } else {
      assert q != pre;
      assert r[m] == nodes[m];
      assert ReaddirOf(r, q) == Ok(nodes[m].names);
      assert ReaddirOf(nodes, q) == Ok(nodes[m].names);
      assert nodes[m].names + [] == nodes[m].names;
    }
  }

  /** How `Added` moves when the first missing directory on the way to `s`, `pre + [name]`, has
      been created: the name it contributed to `pre`'s listing is already there. */
  lemma AddedAfterAdd(nodes: seq<Node>, pre: seq<string>, p: nat, name: string, leaf: Node, s: seq<string>, q: seq<string>)
    requires Valid(nodes) && Resolve(nodes, pre) == Ok(p) && nodes[p].Dir?
    requires name !in nodes[p].children && Leaf(leaf)
    requires |pre| < |s| && s[..|pre| + 1] == pre + [name]
    ensures (if q == pre then [name] else []) + Added(AddChild(nodes, p, name, leaf), q, s) ==
      Added(nodes, q, s)
  {
    var pre' := pre + [name];
    var grown := AddChild(nodes, p, name, leaf);
    WalkAppend(nodes, 0, pre, [name]);
    assert !ExistsOf(nodes, pre');
    AddedChildResolves(nodes, pre, p, name, leaf);
    assert ExistsOf(grown, pre');
    PrefixParts(s, pre, name, q);
    if q == pre {
      assert Added(nodes, q, s) == [name];
      assert Added(grown, q, s) == [];
    } else if |q| < |s| && q == s[..|q|] {
      var next := s[..|q| + 1];
      AddChildExists(nodes, pre, p, name, leaf, next);
      assert next != pre';
      assert Added(grown, q, s) == Added(nodes, q, s);
    } else {
      assert Added(grown, q, s) == [] == Added(nodes, q, s);
    }
  }


  /** Creating `segs` below the directory at `pre`: afterwards exactly the paths that existed and
      the prefixes of `pre + segs` exist. */
  lemma {:induction false} MkDirsFromExists(nodes: seq<Node>, cur: nat, pre: seq<string>, segs: seq<string>, opts: TimeOpts, q: seq<string>)
    requires Valid(nodes) && Resolve(nodes, pre) == Ok(cur) && MkDirsFrom(nodes, cur, segs, opts).Ok?
    ensures ExistsOf(MkDirsFrom(nodes, cur, segs, opts).value.nodes, q) <==> ExistsOf(nodes, q) || q <= pre + segs
    decreases |segs|
  {
    if segs == [] {
      assert pre + segs == pre;
      if q <= pre {
        PrefixesExist(nodes, pre, q);
      }
    } else {
      MkDirsFromStep(nodes, cur, segs, opts);
      var pre' := pre + [segs[0]];
      StepSplit(pre, segs);
      WalkAppend(nodes, 0, pre, [segs[0]]);
      if segs[0] in nodes[cur].children {
        MkDirsFromExists(nodes, nodes[cur].children[segs[0]], pre', segs[1..], opts, q);
      } else {
        var leaf := EmptyDir(if |segs| == 1 then Stamp(opts) else Stamp(NoTimes));
        AddedChildResolves(nodes, pre, cur, segs[0], leaf);
        MkDirsFromExists(AddChild(nodes, cur, segs[0], leaf), |nodes|, pre', segs[1..], opts, q);
        AddChildExists(nodes, pre, cur, segs[0], leaf, q);
      }
    }
  }

  /** Nothing is added on the way to a path that already exists. */
  lemma AddedNothing(nodes: seq<Node>, q: seq<string>, s: seq<string>)
    requires Valid(nodes) && ExistsOf(nodes, s)
    ensures Added(nodes, q, s) == []
  {
    if |q| < |s| && q == s[..|q|] {
      PrefixesExist(nodes, s, s[..|q| + 1]);
    }
  }

  /** Creating `segs` below the directory at `pre`: each listing that existed grows by `Added`. */
  lemma {:induction false} MkDirsFromListings(nodes: seq<Node>, cur: nat, pre: seq<string>, segs: seq<string>, opts: TimeOpts, q: seq<string>)
    requires Valid(nodes) && Resolve(nodes, pre) == Ok(cur) && MkDirsFrom(nodes, cur, segs, opts).Ok?
    requires ReaddirOf(nodes, q).Ok?
    ensures ReaddirOf(MkDirsFrom(nodes, cur, segs, opts).value.nodes, q) ==
      Ok(ReaddirOf(nodes, q).value + Added(nodes, q, pre + segs))
    decreases |segs|
  {
    var listing := ReaddirOf(nodes, q).value;
    if segs == [] {
      assert pre + segs == pre;
      AddedNothing(nodes, q, pre);
      assert listing + [] == listing;
    } else {
      MkDirsFromStep(nodes, cur, segs, opts);
      var pre' := pre + [segs[0]];
      StepSplit(pre, segs);
      WalkAppend(nodes, 0, pre, [segs[0]]);
      if segs[0] in nodes[cur].children {
        MkDirsFromListings(nodes, nodes[cur].children[segs[0]], pre', segs[1..], opts, q);
      } else {
        var leaf := EmptyDir(if |segs| == 1 then Stamp(opts) else Stamp(NoTimes));
        ListingsAddStep(nodes, cur, pre, segs, opts, q, leaf);
      }
    }
  }

  /** The step of `MkDirsFromListings` that creates the directory `pre + [segs[0]]`. */
  lemma {:induction false} ListingsAddStep(nodes: seq<Node>, cur: nat, pre: seq<string>, segs: seq<string>, opts: TimeOpts, q: seq<string>, leaf: Node)
    requires Valid(nodes) && Resolve(nodes, pre) == Ok(cur) && nodes[cur].Dir? && segs != []
    requires segs[0] !in nodes[cur].children && leaf == EmptyDir(if |segs| == 1 then Stamp(opts) else Stamp(NoTimes))
    requires MkDirsFrom(AddChild(nodes, cur, segs[0], leaf), |nodes|, segs[1..], opts).Ok?
    requires ReaddirOf(nodes, q).Ok?
    ensures ReaddirOf(MkDirsFrom(AddChild(nodes, cur, segs[0], leaf), |nodes|, segs[1..], opts).value.nodes, q) ==
      Ok(ReaddirOf(nodes, q).value + Added(nodes, q, pre + segs))
    decreases |segs|, 0
  {
    var s := pre + segs;
    var pre' := pre + [segs[0]];
    StepSplit(pre, segs);
    var grown := AddChild(nodes, cur, segs[0], leaf);
    AddedChildResolves(nodes, pre, cur, segs[0], leaf);
    AddChildListings(nodes, pre, cur, segs[0], leaf, q);
    MkDirsFromListings(grown, |nodes|, pre', segs[1..], opts, q);
    AddedAfterAdd(nodes, pre, cur, segs[0], leaf, s, q);
    Regroup(ReaddirOf(nodes, q).value, if q == pre then [segs[0]] else [], Added(grown, q, s), Added(nodes, q, s));
  }

  /** From how every listing grows, the listings off the path are unchanged and the deepest
      existing directory on the way gains exactly the next name of the path. */
  lemma ListingConsequences(nodes: seq<Node>, after: seq<Node>, segs: seq<string>)
    requires Valid(nodes) && Valid(after)
    requires forall q :: ReaddirOf(nodes, q).Ok? ==>
      ReaddirOf(after, q) == Ok(ReaddirOf(nodes, q).value + Added(nodes, q, segs))
    ensures forall q :: ReaddirOf(nodes, q).Ok? && !(q < segs) ==> ReaddirOf(after, q) == ReaddirOf(nodes, q)
    ensures forall k :: 0 <= k < |segs| && ReaddirOf(nodes, segs[..k]).Ok? && !ExistsOf(nodes, segs[..k + 1]) ==>
      ReaddirOf(after, segs[..k]) == Ok(ReaddirOf(nodes, segs[..k]).value + [segs[k]])
  {
    forall q | ReaddirOf(nodes, q).Ok? && !(q < segs)
      ensures ReaddirOf(after, q) == ReaddirOf(nodes, q)
    {
      assert ReaddirOf(nodes, q).value + [] == ReaddirOf(nodes, q).value;
    }
    forall k | 0 <= k < |segs|
      ensures segs[..k] == segs[..|segs[..k]|] && |segs[..k]| == k
    {
    }
  }

  /** `dir(p)` touches nothing off `p`: afterwards exactly the paths that existed and the
      prefixes of `p` exist; a listing that is not on the way to `p` is unchanged; and the
      deepest existing directory on the way gains exactly the next name of `p`, at the end. */
  lemma DirFrame(nodes: seq<Node>, segs: seq<string>, opts: TimeOpts)
    requires Valid(nodes) && MkDirs(nodes, segs, opts).Ok?
    ensures var after := MkDirs(nodes, segs, opts).value.nodes;
      forall q :: ExistsOf(after, q) <==> ExistsOf(nodes, q) || q <= segs
    ensures var after := MkDirs(nodes, segs, opts).value.nodes;
      forall q :: ReaddirOf(nodes, q).Ok? ==>
        ReaddirOf(after, q) == Ok(ReaddirOf(nodes, q).value + Added(nodes, q, segs))
    ensures var after := MkDirs(nodes, segs, opts).value.nodes;
      forall q :: ReaddirOf(nodes, q).Ok? && !(q < segs) ==> ReaddirOf(after, q) == ReaddirOf(nodes, q)
    ensures var after := MkDirs(nodes, segs, opts).value.nodes;
      forall k :: 0 <= k < |segs| && ReaddirOf(nodes, segs[..k]).Ok? && !ExistsOf(nodes, segs[..k + 1]) ==>
        ReaddirOf(after, segs[..k]) == Ok(ReaddirOf(nodes, segs[..k]).value + [segs[k]])
  {
    var after := MkDirs(nodes, segs, opts).value.nodes;
    assert [] + segs == segs;
    forall q
      ensures ExistsOf(after, q) <==> ExistsOf(nodes, q) || q <= segs
      ensures ReaddirOf(nodes, q).Ok? ==>
        ReaddirOf(after, q) == Ok(ReaddirOf(nodes, q).value + Added(nodes, q, segs))
    {
      MkDirsFromExists(nodes, 0, [], segs, opts, q);
      if ReaddirOf(nodes, q).Ok? {
        MkDirsFromListings(nodes, 0, [], segs, opts, q);
      }
    }
    ListingConsequences(nodes, after, segs);
  }


  // ---------------------------------------------------------------------------------------
  // The frame of `file`

  /** The paths up to `pre + [name]` are those up to `pre` and `pre + [name]` itself. */
  lemma PrefixOfLast(pre: seq<string>, name: string, q: seq<string>)
    ensures q <= pre + [name] <==> q <= pre || q == pre + [name]
  {
    if q <= pre + [name] && |q| <= |pre| {
      assert q == (pre + [name])[..|q|] == pre[..|q|];
    }
  }

  /** When `pre + [name]` is missing, creating it adds to the listings what creating `pre` adds,
      and `name` to the listing of `pre`. */
  lemma AddedLast(nodes: seq<Node>, pre: seq<string>, name: string, q: seq<string>)
    requires Valid(nodes) && !ExistsOf(nodes, pre + [name])
    ensures Added(nodes, q, pre) + (if q == pre then [name] else []) == Added(nodes, q, pre + [name])
  {
    var s := pre + [name];
    if |q| < |pre| && q == pre[..|q|] {
      assert s[..|q|] == q && s[..|q| + 1] == pre[..|q| + 1] && s[|q|] == pre[|q|];
    } else if q == pre {
      assert s[..|q|] == q && s[..|q| + 1] == s;
    }
  }

  /** `file` creating a new file below the directory `dir` made for `pre`. */
  lemma FileAddFrame(nodes: seq<Node>, pre: seq<string>, name: string, leaf: Node, q: seq<string>)
    requires Valid(nodes) && MkDirs(nodes, pre, NoTimes).Ok? && leaf.File?
    requires var b := MkDirs(nodes, pre, NoTimes).value;
      Resolve(b.nodes, pre) == Ok(b.id) && name !in b.nodes[b.id].children
    ensures var b := MkDirs(nodes, pre, NoTimes).value; var after := AddChild(b.nodes, b.id, name, leaf);
      && (ExistsOf(after, q) <==> ExistsOf(nodes, q) || q <= pre + [name])
      && (ReaddirOf(nodes, q).Ok? ==>
            ReaddirOf(after, q) == Ok(ReaddirOf(nodes, q).value + Added(nodes, q, pre + [name])))
  {
    var b := MkDirs(nodes, pre, NoTimes).value;
    assert [] + pre == pre;
    MkDirsFromExists(nodes, 0, [], pre, NoTimes, q);
    AddChildExists(b.nodes, pre, b.id, name, leaf, q);
    PrefixOfLast(pre, name, q);
    if ExistsOf(nodes, pre + [name]) {
      WalkExtends(nodes, b.nodes, 0, pre + [name]);
      WalkLast(b.nodes, pre, name);
      assert false;
    }
    if ReaddirOf(nodes, q).Ok? {
      MkDirsFromListings(nodes, 0, [], pre, NoTimes, q);
      AddChildListings(b.nodes, pre, b.id, name, leaf, q);
      AddedLast(nodes, pre, name, q);
      Regroup(ReaddirOf(nodes, q).value, Added(nodes, q, pre), if q == pre then [name] else [],
        Added(nodes, q, pre + [name]));
    }
  }

  /** `file` replacing the file at `segs`. */
  lemma FileReplaceFrame(nodes: seq<Node>, segs: seq<string>, c: nat, leaf: Node, q: seq<string>)
    requires Valid(nodes) && Resolve(nodes, segs) == Ok(c) && nodes[c].File? && leaf.File?
    ensures var after := ReplaceFile(nodes, c, leaf);
      && (ExistsOf(after, q) <==> ExistsOf(nodes, q) || q <= segs)
      && (ReaddirOf(nodes, q).Ok? ==> ReaddirOf(after, q) == Ok(ReaddirOf(nodes, q).value + Added(nodes, q, segs)))
  {
    var after := ReplaceFile(nodes, c, leaf);
    WalkReplaceFile(nodes, c, leaf, 0, q);
    if q <= segs {
      PrefixesExist(nodes, segs, q);
    }
    if ReaddirOf(nodes, q).Ok? {
      var m := Resolve(nodes, q).value;
      assert after[m] == nodes[m];
      AddedNothing(nodes, q, segs);
      assert nodes[m].names + [] == nodes[m].names;
    }
  }

  /** One path `q` under `file(p)`: whether it exists afterwards, and how its listing changed. */
  lemma FileFrameAt(nodes: seq<Node>, segs: seq<string>, bytes: seq<Byte>, opts: TimeOpts, q: seq<string>)
    requires Valid(nodes) && PutFile(nodes, segs, bytes, opts).Ok?
    ensures var after := PutFile(nodes, segs, bytes, opts).value.nodes;
      && (ExistsOf(after, q) <==> ExistsOf(nodes, q) || q <= segs)
      && (ReaddirOf(nodes, q).Ok? ==> ReaddirOf(after, q) == Ok(ReaddirOf(nodes, q).value + Added(nodes, q, segs)))
  {
    var pre, name := segs[..|segs| - 1], segs[|segs| - 1];
    LastSplit(segs);
    MkDirsFromWalk(nodes, 0, pre, NoTimes);
    var b := MkDirs(nodes, pre, NoTimes).value;
    var leaf := File(bytes, Stamp(opts));
    assert DirOk(b.nodes, b.id);
    if name !in b.nodes[b.id].children {
      FileAddFrame(nodes, pre, name, leaf, q);
    } else {
      MkDirsUnchangedOrEmpty(nodes, pre, NoTimes);
      WalkAppend(nodes, 0, pre, [name]);
      FileReplaceFrame(nodes, segs, b.nodes[b.id].children[name], leaf, q);
    }
  }

  /** `file(p)` touches nothing off `p`: afterwards exactly the paths that existed and the
      prefixes of `p` exist; a listing that is not on the way to `p` is unchanged; and the
      deepest existing directory on the way gains exactly the next name of `p`, at the end. */
  lemma FileFrame(nodes: seq<Node>, segs: seq<string>, bytes: seq<Byte>, opts: TimeOpts)
    requires Valid(nodes) && PutFile(nodes, segs, bytes, opts).Ok?
    ensures var after := PutFile(nodes, segs, bytes, opts).value.nodes;
      forall q :: ExistsOf(after, q) <==> ExistsOf(nodes, q) || q <= segs
    ensures var after := PutFile(nodes, segs, bytes, opts).value.nodes;
      forall q :: ReaddirOf(nodes, q).Ok? ==>
        ReaddirOf(after, q) == Ok(ReaddirOf(nodes, q).value + Added(nodes, q, segs))
    ensures var after := PutFile(nodes, segs, bytes, opts).value.nodes;
      forall q :: ReaddirOf(nodes, q).Ok? && !(q < segs) ==> ReaddirOf(after, q) == ReaddirOf(nodes, q)
    ensures var after := PutFile(nodes, segs, bytes, opts).value.nodes;
      forall k :: 0 <= k < |segs| && ReaddirOf(nodes, segs[..k]).Ok? && !ExistsOf(nodes, segs[..k + 1]) ==>
        ReaddirOf(after, segs[..k]) == Ok(ReaddirOf(nodes, segs[..k]).value + [segs[k]])
  {
    var after := PutFile(nodes, segs, bytes, opts).value.nodes;
    forall q
      ensures ExistsOf(after, q) <==> ExistsOf(nodes, q) || q <= segs
      ensures ReaddirOf(nodes, q).Ok? ==>
        ReaddirOf(after, q) == Ok(ReaddirOf(nodes, q).value + Added(nodes, q, segs))
    {
      FileFrameAt(nodes, segs, bytes, opts, q);
    }
    ListingConsequences(nodes, after, segs);
  }

}
