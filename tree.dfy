/** The in-memory tree: nodes, its invariant, path resolution and the read-side views
    (stat, directory listing, file content, existence) built on resolution. */
module Tree {
  import opened Wrappers

  /** The error codes the read operations report, named as a real filesystem names them. */
  datatype Errno = ENOENT | ENOTDIR | EISDIR

  /** A byte of file content. */
  newtype Byte = x: int | 0 <= x < 256

  /** The timestamp a node gets for a field its creator did not set. */
  const Epoch: int := 0

  datatype Times = Times(atime: int, mtime: int, ctime: int)

  /** The `atime`/`mtime`/`ctime` fields of a builder's options, each optional. */
  datatype TimeOpts = TimeOpts(atime: Option<int>, mtime: Option<int>, ctime: Option<int>)

  const NoTimes := TimeOpts(None, None, None)

  function OrEpoch(t: Option<int>): int {
    match t
    case Some(v) => v
    case None => Epoch
  }

  /** The timestamps a node created with options `o` carries. */
  function Stamp(o: TimeOpts): Times {
    Times(OrEpoch(o.atime), OrEpoch(o.mtime), OrEpoch(o.ctime))
  }

  /** A node is a directory or a file, never both. A directory maps each child name to the
      child's index in the node arena and keeps the names in the order they were added. */
  datatype Node =
    | Dir(children: map<string, nat>, names: seq<string>, times: Times)
    | File(content: seq<Byte>, times: Times)

  function EmptyDir(t: Times): Node {
    Dir(map[], [], t)
  }

  /** A node without children: a file or an empty directory. */
  predicate Leaf(n: Node) {
    n.File? || (n.children == map[] && n.names == [])
  }

  predicate Distinct(s: seq<string>) {
    forall i, j :: 0 <= i < j < |s| ==> s[i] != s[j]
  }

  /** Node `k`, when a directory, lists each child once, lists exactly its children, and
      its children sit later in the arena (so following children never comes back). */
  ghost predicate DirOk(nodes: seq<Node>, k: nat)
    requires k < |nodes|
  {
    nodes[k].Dir? ==>
      && Distinct(nodes[k].names)
      && (forall n :: n in nodes[k].children <==> n in nodes[k].names)
      && (forall n :: n in nodes[k].children ==> k < nodes[k].children[n] < |nodes|)
  }

  /** Directory `p` has a child called `n`. */
  predicate Edge(nodes: seq<Node>, p: nat, n: string) {
    p < |nodes| && nodes[p].Dir? && n in nodes[p].children
  }

  /** Every node has at most one parent entry: the tree owns each node once. */
  ghost predicate SingleOwner(nodes: seq<Node>) {
    forall p: nat, n, q: nat, m ::
      Edge(nodes, p, n) && Edge(nodes, q, m) && nodes[p].children[n] == nodes[q].children[m]
      ==> p == q && n == m
  }

  /** The tree invariant: node 0 is the root directory and the arena forms a tree. */
  ghost predicate Valid(nodes: seq<Node>) {
    && |nodes| > 0
    && nodes[0].Dir?
    && (forall k :: 0 <= k < |nodes| ==> DirOk(nodes, k))
    && SingleOwner(nodes)
  }

  /** A tree holding only the root directory. */
  function Empty(): seq<Node> {
    [EmptyDir(Stamp(NoTimes))]
  }

  /** Walks `segs` from node `cur`: a file on the way gives ENOTDIR, a missing name ENOENT.
      Resolution never reports EISDIR, and every step goes strictly deeper into the arena. */
  function Walk(nodes: seq<Node>, cur: nat, segs: seq<string>): (r: Result<nat, Errno>)
    requires Valid(nodes) && cur < |nodes|
    ensures r.Ok? ==> cur <= r.value < |nodes| && (segs != [] ==> cur < r.value)
    ensures r.Err? ==> r.error != EISDIR
    decreases |segs|
  {
    if segs == [] then Ok(cur)
    else
      assert DirOk(nodes, cur);
      match nodes[cur]
      case File(_, _) => Err(ENOTDIR)
      case Dir(children, _, _) =>
        if segs[0] in children then Walk(nodes, children[segs[0]], segs[1..])
        else Err(ENOENT)
  }

  /** Resolution of a segment list from the root: the empty list is the root itself, and no
      other path leads back to it. */
  function Resolve(nodes: seq<Node>, segs: seq<string>): (r: Result<nat, Errno>)
    requires Valid(nodes)
    ensures r.Ok? ==> r.value < |nodes|
    ensures r.Err? ==> r.error != EISDIR
  {
    Walk(nodes, 0, segs)
  }

  /** The stat view of a node: its type, its timestamps, and for a file its content length. */
  datatype Stat = Stat(directory: bool, atime: int, mtime: int, ctime: int, size: Option<nat>) {
    predicate IsDirectory() { directory }
    predicate IsFile() { !directory }
  }

  function StatOfNode(n: Node): Stat {
    match n
    case Dir(_, _, t) => Stat(true, t.atime, t.mtime, t.ctime, None)
    case File(c, t) => Stat(false, t.atime, t.mtime, t.ctime, Some(|c|))
  }

  /** `statSync`: the root is a directory, only files report a size, and a missing or
      blocked path is never reported as EISDIR. */
  function StatOf(nodes: seq<Node>, segs: seq<string>): (r: Result<Stat, Errno>)
    requires Valid(nodes)
    ensures segs == [] ==> r.Ok? && r.value.IsDirectory()
    ensures r.Ok? ==> (r.value.IsFile() <==> r.value.size.Some?)
    ensures r.Err? ==> r.error != EISDIR
  {
    match Resolve(nodes, segs)
    case Ok(i) => Ok(StatOfNode(nodes[i]))
    case Err(e) => Err(e)
  }

  /** `readdirSync` succeeds exactly on the paths that stat as directories. */
  function ReaddirOf(nodes: seq<Node>, segs: seq<string>): (r: Result<seq<string>, Errno>)
    requires Valid(nodes)
    ensures r.Ok? <==> StatOf(nodes, segs).Ok? && StatOf(nodes, segs).value.IsDirectory()
    ensures r.Err? ==> r.error != EISDIR
  {
    match Resolve(nodes, segs)
    case Ok(i) => if nodes[i].Dir? then Ok(nodes[i].names) else Err(ENOTDIR)
    case Err(e) => Err(e)
  }

  /** `readFileSync` succeeds exactly on the paths that stat as files, giving as many bytes
      as stat reports; it answers EISDIR exactly on the paths that stat as directories. */
  function ReadFileOf(nodes: seq<Node>, segs: seq<string>): (r: Result<seq<Byte>, Errno>)
    requires Valid(nodes)
    ensures r.Ok? <==> StatOf(nodes, segs).Ok? && StatOf(nodes, segs).value.IsFile()
    ensures r.Ok? ==> StatOf(nodes, segs).value.size == Some(|r.value|)
    ensures r == Err(EISDIR) <==> StatOf(nodes, segs).Ok? && StatOf(nodes, segs).value.IsDirectory()
  {
    match Resolve(nodes, segs)
    case Ok(i) => if nodes[i].File? then Ok(nodes[i].content) else Err(EISDIR)
    case Err(e) => Err(e)
  }

  /** `existsSync` holds exactly on the paths that stat succeeds on; the root always exists. */
  function ExistsOf(nodes: seq<Node>, segs: seq<string>): (b: bool)
    requires Valid(nodes)
    ensures b <==> StatOf(nodes, segs).Ok?
    ensures segs == [] ==> b
  {
    Resolve(nodes, segs).Ok?
  }

  // ---------------------------------------------------------------------------------------
  // Resolution lemmas

  /** Walking `a + b` walks `a` and then `b` from wherever `a` ended. */
  lemma {:induction false} WalkAppend(nodes: seq<Node>, c: nat, a: seq<string>, b: seq<string>)
    requires Valid(nodes) && c < |nodes|
    ensures Walk(nodes, c, a + b) ==
      match Walk(nodes, c, a)
      case Ok(m) => Walk(nodes, m, b)
      case Err(e) => Err(e)
    decreases |a|
  {
    if a == [] {
      assert a + b == b;
    } else {
      assert (a + b)[0] == a[0] && (a + b)[1..] == a[1..] + b;
      assert DirOk(nodes, c);
      if nodes[c].Dir? && a[0] in nodes[c].children {
        WalkAppend(nodes, nodes[c].children[a[0]], a[1..], b);
      }
    }
  }

  /** The last step of a successful resolution: the path's parent resolves to a directory
      that has the last segment as a child. */
  lemma WalkLast(nodes: seq<Node>, a: seq<string>, n: string)
    requires Valid(nodes)
    ensures Resolve(nodes, a + [n]).Ok? ==>
      && Resolve(nodes, a).Ok?
      && Edge(nodes, Resolve(nodes, a).value, n)
      && Resolve(nodes, a + [n]).value == nodes[Resolve(nodes, a).value].children[n]
  {
    WalkAppend(nodes, 0, a, [n]);
  }

  /** Every proper prefix of a resolvable path resolves to a directory. */
  lemma PrefixesAreDirs(nodes: seq<Node>, segs: seq<string>)
    requires Valid(nodes) && Resolve(nodes, segs).Ok?
    ensures forall k :: 0 <= k < |segs| ==>
      Resolve(nodes, segs[..k]).Ok? && nodes[Resolve(nodes, segs[..k]).value].Dir?
  {
    forall k | 0 <= k < |segs|
      ensures Resolve(nodes, segs[..k]).Ok? && nodes[Resolve(nodes, segs[..k]).value].Dir?
    {
      assert segs == segs[..k] + segs[k..];
      WalkAppend(nodes, 0, segs[..k], segs[k..]);
    }
  }

  /** Different paths resolve to different nodes: the arena is a tree, not a graph. */
  lemma {:induction false} ResolveInjective(nodes: seq<Node>, a: seq<string>, b: seq<string>)
    requires Valid(nodes) && Resolve(nodes, a).Ok? && Resolve(nodes, a) == Resolve(nodes, b)
    ensures a == b
    decreases |a|
  {
    if a != [] && b != [] {
      var a', x := a[..|a| - 1], a[|a| - 1];
      var b', y := b[..|b| - 1], b[|b| - 1];
      assert a == a' + [x] && b == b' + [y];
      WalkLast(nodes, a', x);
      WalkLast(nodes, b', y);
      ResolveInjective(nodes, a', b');
    }
  }

  /** Directory `m` does not let the walk take the step `s`; the error says why. */
  predicate StepFails(nodes: seq<Node>, m: nat, s: string, e: Errno)
    requires m < |nodes|
  {
    match nodes[m]
    case File(_, _) => e == ENOTDIR
    case Dir(children, _, _) => s !in children && e == ENOENT
  }

  /** A failed walk fails at one step: a prefix walks fine and the next segment is refused. */
  lemma {:induction false} FailingStep(nodes: seq<Node>, c: nat, segs: seq<string>) returns (k: nat)
    requires Valid(nodes) && c < |nodes| && Walk(nodes, c, segs).Err?
    ensures k < |segs| && Walk(nodes, c, segs[..k]).Ok?
    ensures StepFails(nodes, Walk(nodes, c, segs[..k]).value, segs[k], Walk(nodes, c, segs).error)
    decreases |segs|
  {
    assert DirOk(nodes, c);
    if nodes[c].File? || segs[0] !in nodes[c].children {
      k := 0;
    } else {
      var child := nodes[c].children[segs[0]];
      var k' := FailingStep(nodes, child, segs[1..]);
      k := k' + 1;
      assert segs[..k][0] == segs[0] && segs[..k][1..] == segs[1..][..k'];
    }
  }

  /** Prefix `segs[..k]` names a directory that has no child `segs[k]`. */
  ghost predicate MissingAt(nodes: seq<Node>, segs: seq<string>, k: nat)
    requires Valid(nodes) && k < |segs|
  {
    var r := Resolve(nodes, segs[..k]);
    r.Ok? && nodes[r.value].Dir? && segs[k] !in nodes[r.value].children
  }

  /** Prefix `segs[..k]` names a file. */
  ghost predicate FileAt(nodes: seq<Node>, segs: seq<string>, k: nat)
    requires Valid(nodes) && k <= |segs|
  {
    var r := Resolve(nodes, segs[..k]);
    r.Ok? && nodes[r.value].File?
  }

  /** Which error resolution reports is fixed by the tree: ENOENT exactly when some prefix
      is a directory lacking the next name, ENOTDIR exactly when some proper prefix is a file. */
  lemma ErrorSelection(nodes: seq<Node>, segs: seq<string>)
    requires Valid(nodes)
    ensures Resolve(nodes, segs) == Err(ENOENT) <==>
      exists k :: 0 <= k < |segs| && MissingAt(nodes, segs, k)
    ensures Resolve(nodes, segs) == Err(ENOTDIR) <==>
      exists k :: 0 <= k < |segs| && FileAt(nodes, segs, k)
  {
    if Resolve(nodes, segs).Err? {
      var k := FailingStep(nodes, 0, segs);
      assert MissingAt(nodes, segs, k) || FileAt(nodes, segs, k);
    }
    forall k | 0 <= k < |segs| && (MissingAt(nodes, segs, k) || FileAt(nodes, segs, k))
      ensures Resolve(nodes, segs) == if MissingAt(nodes, segs, k) then Err(ENOENT) else Err(ENOTDIR)
    {
      assert segs == segs[..k] + segs[k..];
      WalkAppend(nodes, 0, segs[..k], segs[k..]);
    }
  }

  /** The error each read operation reports, in terms of the tree alone. */
  lemma ReadErrors(nodes: seq<Node>, segs: seq<string>)
    requires Valid(nodes)
    ensures StatOf(nodes, segs) == Err(ENOENT) <==>
      exists k :: 0 <= k < |segs| && MissingAt(nodes, segs, k)
    ensures ReaddirOf(nodes, segs) == Err(ENOENT) <==>
      exists k :: 0 <= k < |segs| && MissingAt(nodes, segs, k)
    ensures ReaddirOf(nodes, segs) == Err(ENOTDIR) <==>
      exists k :: 0 <= k <= |segs| && FileAt(nodes, segs, k)
    ensures ReadFileOf(nodes, segs) == Err(ENOENT) <==>
      exists k :: 0 <= k < |segs| && MissingAt(nodes, segs, k)
    ensures ReadFileOf(nodes, segs) == Err(ENOTDIR) <==>
      exists k :: 0 <= k < |segs| && FileAt(nodes, segs, k)
    ensures ReadFileOf(nodes, segs) == Err(EISDIR) <==>
      Resolve(nodes, segs).Ok? && !FileAt(nodes, segs, |segs|)
    ensures ExistsOf(nodes, segs) <==> StatOf(nodes, segs).Ok?
  {
    ErrorSelection(nodes, segs);
    assert segs[..|segs|] == segs;
    if Resolve(nodes, segs).Ok? && nodes[Resolve(nodes, segs).value].File? {
      assert FileAt(nodes, segs, |segs|);
    }
  }

  /** A listing names each child once, and names exactly the children that resolve. */
  lemma ReaddirListsChildren(nodes: seq<Node>, segs: seq<string>)
    requires Valid(nodes) && ReaddirOf(nodes, segs).Ok?
    ensures Distinct(ReaddirOf(nodes, segs).value)
    ensures forall n :: n in ReaddirOf(nodes, segs).value <==> ExistsOf(nodes, segs + [n])
  {
    var d := Resolve(nodes, segs).value;
    assert DirOk(nodes, d);
    forall n ensures n in nodes[d].names <==> ExistsOf(nodes, segs + [n]) {
      WalkAppend(nodes, 0, segs, [n]);
    }
  }

  // ---------------------------------------------------------------------------------------
  // Growth of a tree

  /** `b` is `a` with more in it: files untouched, directories keep their timestamps and
      children, and their listings only grow at the end. */
  ghost predicate NodeExtends(a: Node, b: Node) {
    match a
    case File(_, _) => b == a
    case Dir(children, names, t) =>
      && b.Dir? && b.times == t && names <= b.names
      && forall n :: n in children ==> n in b.children && b.children[n] == children[n]
  }

  ghost predicate Extends(a: seq<Node>, b: seq<Node>) {
    |a| <= |b| && forall k :: 0 <= k < |a| ==> NodeExtends(a[k], b[k])
  }

  lemma ExtendsTransitive(a: seq<Node>, b: seq<Node>, c: seq<Node>)
    requires Extends(a, b) && Extends(b, c)
    ensures Extends(a, c)
  {
    forall k | 0 <= k < |a| ensures NodeExtends(a[k], c[k]) {
      assert NodeExtends(a[k], b[k]) && NodeExtends(b[k], c[k]);
    }
  }

  /** Growing a tree keeps every walk that succeeded. */
  lemma {:induction false} WalkExtends(a: seq<Node>, b: seq<Node>, c: nat, segs: seq<string>)
    requires Valid(a) && Valid(b) && Extends(a, b) && c < |a| && Walk(a, c, segs).Ok?
    ensures Walk(b, c, segs) == Walk(a, c, segs)
    decreases |segs|
  {
    if segs != [] {
      assert NodeExtends(a[c], b[c]);
      WalkExtends(a, b, a[c].children[segs[0]], segs[1..]);
    }
  }

  /** Growing a tree leaves what stat and readFile report for every existing path alone. */
  lemma ExtendsKeepsStat(a: seq<Node>, b: seq<Node>, segs: seq<string>)
    requires Valid(a) && Valid(b) && Extends(a, b) && Resolve(a, segs).Ok?
    ensures Resolve(b, segs) == Resolve(a, segs)
    ensures StatOf(b, segs) == StatOf(a, segs)
    ensures ReadFileOf(b, segs) == ReadFileOf(a, segs)
  {
    WalkExtends(a, b, 0, segs);
    assert NodeExtends(a[Resolve(a, segs).value], b[Resolve(a, segs).value]);
  }
}
