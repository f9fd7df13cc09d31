/** The vocabulary of the Build engine: the observed view of a fabric, the accepted topology a Build carries, the
    operations of a plan and the step events a run leaves behind. */
module Model {
  import opened Order

  datatype Option<+T> = None | Some(value: T)
  datatype Result<+T, +E> = Ok(value: T) | Err(error: E)

  type NodeId = string
  type MeshId = string
  type Incarnation = string

  const NODE_ADMIN := "node-admin"

  // ---------------------------------------------------------------------------------------------
  // Locations
  // ---------------------------------------------------------------------------------------------

  /** A node's location: its path, then its name within it. */
  datatype PathName = PathName(path: string, name: string)

  predicate PathLess(a: PathName, b: PathName) {
    Less(a.path, b.path) || (a.path == b.path && Less(a.name, b.name))
  }

  lemma PathOrder()
    ensures Strict(PathLess)
  {
    TextOrder();
  }

  /** `s` in path order. */
  function Paths(s: set<PathName>): (r: seq<PathName>)
    ensures forall p :: p in r <==> p in s
    ensures |r| == |s|
    ensures forall i, j :: 0 <= i < j < |r| ==> PathLess(r[i], r[j])
  {
    PathOrder();
    Ascending(s, PathLess)
  }

  /** `s` in text order. */
  function Names(s: set<string>): (r: seq<string>)
    ensures forall n :: n in r <==> n in s
    ensures |r| == |s|
    ensures forall i, j :: 0 <= i < j < |r| ==> Less(r[i], r[j])
  {
    TextOrder();
    Ascending(s, Less)
  }

  predicate NoRepeats<T(==)>(s: seq<T>) {
    forall i, j :: 0 <= i < j < |s| ==> s[i] != s[j]
  }

  lemma NoRepeatsJoin<T>(a: seq<T>, b: seq<T>)
    requires NoRepeats(a) && NoRepeats(b) && forall x :: x in a ==> x !in b
    ensures NoRepeats(a + b)
  {
    forall i, j | 0 <= i < j < |a + b| ensures (a + b)[i] != (a + b)[j] {
      if i < |a| <= j { assert (a + b)[i] in a && (a + b)[j] in b; }
    }
  }

  /** What is gathered repeats nothing when each piece repeats nothing and no two pieces share anything. */
  lemma {:induction false} GatherNoRepeats<A(!new), B>(s: seq<A>, f: A -> seq<B>)
    requires NoRepeats(s) && forall a :: a in s ==> NoRepeats(f(a))
    requires forall a, a', b :: a in s && a' in s && b in f(a) && b in f(a') ==> a == a'
    ensures NoRepeats(Gather(s, f))
  {
    if s != [] {
      var rest, last := s[..|s| - 1], s[|s| - 1];
      assert s == rest + [last];
      GatherNoRepeats(rest, f);
      forall b | b in Gather(rest, f) ensures b !in f(last) {
        GatherHas(rest, f, b);
        var a :| a in rest && b in f(a);
        var k :| 0 <= k < |rest| && rest[k] == a;
        assert s[k] == a && s[|s| - 1] == last;
      }
      NoRepeatsJoin(Gather(rest, f), f(last));
    }
  }

  lemma PathsNoRepeats(s: set<PathName>)
    ensures NoRepeats(Paths(s))
  {
    PathOrder();
  }

  lemma NamesNoRepeats(s: set<string>)
    ensures NoRepeats(Names(s))
  {
    TextOrder();
  }

  lemma SameElements<T>(a: seq<T>, b: seq<T>)
    requires multiset(a) == multiset(b)
    ensures NoRepeats(a) ==> NoRepeats(b)
    ensures forall x :: x in a <==> x in b
    ensures |a| == |b|
  {
    assert |multiset(a)| == |a| && |multiset(b)| == |b|;
    forall x ensures x in a <==> x in b { assert x in a <==> x in multiset(a); assert x in b <==> x in multiset(b); }
    if NoRepeats(a) {
      forall i, j | 0 <= i < j < |b| ensures b[i] != b[j] {
        if b[i] == b[j] {
          Twice(b, i, j);
          OnceEach(a, b[i]);
        }
      }
    }
  }

  lemma Twice<T>(b: seq<T>, i: nat, j: nat)
    requires i < j < |b| && b[i] == b[j]
    ensures multiset(b)[b[i]] >= 2
  {
    assert b == b[..i] + [b[i]] + b[i + 1..j] + [b[j]] + b[j + 1..];
  }

  lemma {:induction false} OnceEach<T>(a: seq<T>, x: T)
    requires NoRepeats(a)
    ensures multiset(a)[x] <= 1
  {
    if a != [] {
      OnceEach(a[1..], x);
      assert a == [a[0]] + a[1..];
      if x == a[0] { assert x !in a[1..] && x !in multiset(a[1..]); }
    }
  }

  predicate LowerOrDigit(c: char) { 'a' <= c <= 'z' || '0' <= c <= '9' }

  predicate ValidSegment(s: string) {
    1 <= |s| <= 64 && forall c :: c in s ==> LowerOrDigit(c) || c in "-_~"
  }

  /** `s` cut at each `.`. */
  function Segments(s: string): (r: seq<string>)
    ensures r != []
  {
    if s == "" then [""]
    else
      var rest := Segments(s[1..]);
      if s[0] == '.' then [""] + rest else [[s[0]] + rest[0]] + rest[1..]
  }

  /** A node's mesh: the first location of its path. */
  function MeshOfPath(path: string): string { Segments(path)[0] }

  predicate ValidPathName(p: PathName) {
    (forall s :: s in Segments(p.path) ==> ValidSegment(s)) && ValidSegment(p.name)
  }

  predicate ValidMeshName(m: string) {
    1 <= |m| <= 64 && LowerOrDigit(m[0]) && forall c :: c in m ==> LowerOrDigit(c) || c == '-'
  }

  /** The segments put back together. */
  function Rejoined(segments: seq<string>): string {
    if segments == [] then "" else if |segments| == 1 then segments[0] else segments[0] + "." + Rejoined(segments[1..])
  }

  /** Cutting a path loses nothing, and no segment holds a `.`. */
  lemma {:induction false} SegmentsRejoin(s: string)
    ensures Rejoined(Segments(s)) == s
    ensures forall x :: x in Segments(s) ==> '.' !in x
  {
    if s != "" {
      SegmentsRejoin(s[1..]);
      var cut, rest := Segments(s), Segments(s[1..]);
      if s[0] == '.' {
        assert cut[1..] == rest;
        assert "" + "." + s[1..] == s;
      } else {
        assert cut[1..] == rest[1..] && cut[0] == [s[0]] + rest[0];
        assert s == [s[0]] + s[1..];
        forall x | x in cut ensures '.' !in x { assert x == cut[0] || x in rest; assert rest[0] in rest; }
      }
    }
  }

  /** And what is put together of dot-free segments is cut back into them. */
  lemma {:induction false} RejoinedSegments(segments: seq<string>)
    requires segments != [] && forall x :: x in segments ==> '.' !in x
    ensures Segments(Rejoined(segments)) == segments
  {
    var first, rest := segments[0], segments[1..];
    assert segments == [first] + rest && first in segments;
    if rest == [] {
      OneSegment(first);
    } else {
      RejoinedSegments(rest);
      SegmentsAfter(first, Rejoined(rest));
    }
  }

  lemma {:induction false} OneSegment(s: string)
    requires '.' !in s
    ensures Segments(s) == [s]
  {
    if s != "" {
      OneSegment(s[1..]);
      assert [s[0]] + s[1..] == s;
    }
  }

  lemma {:induction false} SegmentsAfter(first: string, rest: string)
    requires '.' !in first
    ensures Segments(first + "." + rest) == [first] + Segments(rest)
  {
    var s := first + "." + rest;
    if first == "" {
      assert s[1..] == rest;
    } else {
      SegmentsAfter(first[1..], rest);
      assert s[1..] == first[1..] + "." + rest;
      assert [first[0]] + first[1..] == first;
    }
  }

  const MAX_NODE_TAGS := 32

  predicate ValidTags(tags: set<string>) {
    |tags| <= MAX_NODE_TAGS &&
    forall t :: t in tags ==> 1 <= |t| <= 64 && t[0] != '.' && forall c :: c in t ==> LowerOrDigit(c) || c in "-_.~"
  }

  const LETTERS := "abcdefghijklmnopqrstuvwxyz"
  const DIGITS := "0123456789"

  /** The grammars, character by character: a mesh's name, a path's segment and a node's name, a tag. */
  lemma NamesByCharacter(s: string)
    ensures ValidMeshName(s) <==>
        0 < |s| < 65 && s[0] != '-' && forall i :: 0 <= i < |s| ==> s[i] in LETTERS || s[i] in DIGITS || s[i] == '-'
    ensures ValidSegment(s) <==>
        0 < |s| < 65 && forall i :: 0 <= i < |s| ==> s[i] in LETTERS || s[i] in DIGITS || s[i] in "-_~"
    ensures ValidTags({s}) <==>
        0 < |s| < 65 && s[0] != '.' && forall i ::
          0 <= i < |s| ==> s[i] in LETTERS || s[i] in DIGITS || s[i] in "-_~."
  {
    forall c ensures LowerOrDigit(c) <==> c in LETTERS || c in DIGITS { Letters(c); Digits(c); }
    assert s in {s};
    hide LowerOrDigit;
    assert forall c :: c in s ==> exists i :: 0 <= i < |s| && s[i] == c;
  }

  /** The characters of a segment: 1 to 64 letters, digits, `-`, `_` and `~`. */
  ghost predicate SegmentText(s: string) {
    0 < |s| < 65 && forall i :: 0 <= i < |s| ==> s[i] in LETTERS || s[i] in DIGITS || s[i] in "-_~"
  }

  /** A location is valid exactly when every segment of its path, and its name, is such a text. */
  lemma PathNamesByCharacter(segments: seq<string>, name: string)
    requires segments != [] && forall x :: x in segments ==> '.' !in x
    ensures ValidPathName(PathName(Rejoined(segments), name)) <==>
        (forall x :: x in segments ==> SegmentText(x)) && SegmentText(name)
  {
    hide ValidSegment, Segments, ValidMeshName, ValidTags, Rejoined;
    RejoinedSegments(segments);
    forall x { NamesByCharacter(x); }
  }

  /** A node's tags are at most thirty-two, each a tag. */
  lemma TagsOneByOne(tags: set<string>)
    ensures ValidTags(tags) <==> |tags| < 33 && forall t :: t in tags ==> ValidTags({t})
  {
    hide LowerOrDigit;
    forall t | t in tags ensures |{t}| == 1 && t in {t} {
    }
  }

  lemma Letters(c: char)
    ensures c in LETTERS <==> 'a' <= c <= 'z'
  {
    if 'a' <= c <= 'z' { assert LETTERS[c as int - 97] == c; }
  }

  lemma Digits(c: char)
    ensures c in DIGITS <==> '0' <= c <= '9'
  {
    if '0' <= c <= '9' { assert DIGITS[c as int - 48] == c; }
  }

  // ---------------------------------------------------------------------------------------------
  // The observed view
  // ---------------------------------------------------------------------------------------------

  datatype NodeStatus =
    | Pending | Ready | ConnectionsDeleting | Leaving | PendingReconnect | Reserved5 | Dead | Deleted
    | Withdrawn | Starting | ConnectionsDeleted | Stopping | Stopped | Deleting | Left
  {
    predicate Live() { this in {Pending, Ready, ConnectionsDeleting} }
  }

  datatype ScopeStatus = ScopePending | ScopeReady | ScopeLeaving | ScopeDead

  /** One birth as the view lists it. */
  datatype Node = Node(
    at: PathName, kind: string, mesh: string, id: NodeId, incarnation: Option<Incarnation>,
    status: NodeStatus, isPrimary: bool, isFabricPrimary: bool, stopped: bool)

  /** A mesh as the view lists it; its id `None` until a member has stated it. */
  datatype Mesh = Mesh(id: Option<MeshId>, name: string, status: ScopeStatus)

  /** The first birth listed at `at`. */
  function FirstAt(nodes: seq<Node>, at: PathName): (r: Option<Node>)
    ensures r.Some? ==> r.value in nodes && r.value.at == at
    ensures r.None? ==> forall n :: n in nodes ==> n.at != at
  {
    if nodes == [] then None else if nodes[0].at == at then Some(nodes[0]) else FirstAt(nodes[1..], at)
  }

  /** The first birth listed under `id`. */
  function FirstOf(nodes: seq<Node>, id: NodeId): (r: Option<Node>)
    ensures r.Some? ==> r.value in nodes && r.value.id == id
    ensures r.None? ==> forall n :: n in nodes ==> n.id != id
  {
    if nodes == [] then None else if nodes[0].id == id then Some(nodes[0]) else FirstOf(nodes[1..], id)
  }

  /** The first mesh listed under `name`. */
  function FirstNamed(meshes: seq<Mesh>, name: string): (r: Option<Mesh>)
    ensures r.Some? ==> r.value in meshes && r.value.name == name
    ensures r.None? ==> forall m :: m in meshes ==> m.name != name
  {
    if meshes == [] then None else if meshes[0].name == name then Some(meshes[0]) else FirstNamed(meshes[1..], name)
  }

  datatype View = View(fabricId: string, fabric: string, meshes: seq<Mesh>, nodes: seq<Node>) {
    function At(at: PathName): (r: Option<Node>)
      ensures r.Some? ==> r.value in nodes && r.value.at == at
    {
      FirstAt(nodes, at)
    }

    function Own(id: NodeId): (r: Option<Node>)
      ensures r.Some? ==> r.value in nodes && r.value.id == id
    {
      FirstOf(nodes, id)
    }

    function MeshNamed(name: string): (r: Option<Mesh>)
      ensures r.Some? ==> r.value in meshes && r.value.name == name
    {
      FirstNamed(meshes, name)
    }

    predicate HoldsMesh(name: string) { exists m :: m in meshes && m.name == name }

    /** What every projection of the fabric keeps: a node id and a location name one birth, a name one mesh, and a
        birth's mesh is listed. */
    ghost predicate WellFormed() {
      && (forall n :: n in nodes ==> At(n.at) == Some(n) && Own(n.id) == Some(n))
      && (forall m :: m in meshes ==> MeshNamed(m.name) == Some(m))
      && (forall n :: n in nodes ==> HoldsMesh(n.mesh))
      && NoRepeats(nodes) && NoRepeats(meshes)
    }

    /** The current birth at `n`'s location is `n`'s. */
    predicate Stands(n: Node) { At(n.at).Some? && At(n.at).value.id == n.id }

    predicate DeadMesh(name: string) { exists m :: m in meshes && m.name == name && m.status == ScopeDead }
  }

  // ---------------------------------------------------------------------------------------------
  // The accepted topology
  // ---------------------------------------------------------------------------------------------

  datatype Storage = Ephemeral | PersistentPreserve | PersistentRelease
  datatype Binding = Binding(launchId: string, executable: string, sha256: string, image: Option<string>)

  function StorageOf(kind: string): Storage {
    if kind == NODE_ADMIN then PersistentPreserve else Ephemeral
  }

  /** A node's create spec. */
  datatype Spec = Spec(
    at: PathName, mesh: string, kind: string, storage: Storage, executable: Option<Binding>,
    tags: set<string>, config: map<string, string>)

  function DefaultSpec(at: PathName, mesh: string, kind: string): Spec {
    Spec(at, mesh, kind, StorageOf(kind), None, {}, map[])
  }

  datatype MeshTopology = MeshTopology(name: string, id: MeshId, nodes: set<PathName>, specs: map<PathName, Spec>) {
    /** The nodes the mesh holds a node-admin's spec for. */
    function Admins(): set<PathName> {
      set p | p in nodes && p in specs && specs[p].kind == NODE_ADMIN
    }
  }

  /** The exact birth an operation was pinned to at acceptance. */
  datatype PinnedBirth = PinnedBirth(kind: string, mesh: string, id: NodeId, incarnation: Incarnation) {
    predicate Is(n: Node) {
      n.kind == kind && n.mesh == mesh && n.id == id && n.incarnation == Some(incarnation)
    }
  }

  function PinOf(n: Node): (r: Option<PinnedBirth>)
    ensures r.Some? ==> r.value.Is(n)
  {
    if n.incarnation.Some? then Some(PinnedBirth(n.kind, n.mesh, n.id, n.incarnation.value)) else None
  }

  /** The first value listed under `k`. */
  function Lookup<K(==), V>(s: seq<(K, V)>, k: K): (r: Option<V>)
    ensures r.Some? ==> (k, r.value) in s
    ensures r.None? <==> forall e :: e in s ==> e.0 != k
  {
    if s == [] then None else if s[0].0 == k then Some(s[0].1) else Lookup(s[1..], k)
  }

  /** The complete topology a Build carries. */
  datatype Topology = Topology(
    fabric: string, meshes: map<string, MeshTopology>, provider: Option<string>,
    pinned: seq<(PathName, PinnedBirth)>, created: seq<(PathName, NodeId)>)
  {
    function CreatedId(p: PathName): Option<NodeId> { Lookup(created, p) }

    function PinAt(p: PathName): Option<PinnedBirth> { Lookup(pinned, p) }

    function SpecAt(p: PathName): Option<Spec> { FirstSpec(meshes, Names(meshes.Keys), p) }

    predicate Contains(p: PathName) { SpecAt(p).Some? }

    /** The birth this Build replaces at `p`. */
    function Replaced(p: PathName): Option<PinnedBirth> {
      if Contains(p) && CreatedId(p).Some? then PinAt(p) else None
    }

    /** Every mesh under its own valid name with a node-admin, its nodes and its specs one for one, each spec naming its
        own location and mesh, and no location in two meshes. */
    predicate WellFormed() {
      && (forall m :: m in meshes ==> MeshWellFormed(m, meshes[m]))
      && (forall m, m' :: m in meshes && m' in meshes && m != m' ==> meshes[m].nodes !! meshes[m'].nodes)
    }
  }

  predicate SpecsMatch(name: string, m: MeshTopology) {
    m.nodes == m.specs.Keys && forall p :: p in m.specs ==> m.specs[p].mesh == name && m.specs[p].at == p
  }

  predicate MeshWellFormed(name: string, m: MeshTopology) {
    m.name == name && ValidMeshName(name) && m.Admins() != {} && SpecsMatch(name, m)
  }

  /** The spec the first mesh of `names` that holds `p` states for it. */
  function FirstSpec(meshes: map<string, MeshTopology>, names: seq<string>, p: PathName): (r: Option<Spec>)
    requires forall n :: n in names ==> n in meshes
    ensures r.Some? ==> exists n :: n in names && p in meshes[n].specs && meshes[n].specs[p] == r.value
    ensures r.None? ==> forall n :: n in names ==> p !in meshes[n].specs
  {
    if names == [] then None
    else if p in meshes[names[0]].specs then Some(meshes[names[0]].specs[p])
    else FirstSpec(meshes, names[1..], p)
  }

  /** Specs that sit under their own mesh, no location in two meshes: what `SpecAt` reads exactly. */
  ghost predicate Filed(t: Topology) {
    && (forall m :: m in t.meshes ==> SpecsMatch(m, t.meshes[m]))
    && (forall m, m' :: m in t.meshes && m' in t.meshes && m != m' ==> t.meshes[m].nodes !! t.meshes[m'].nodes)
  }

  lemma SpecAtFiled(t: Topology, m: string, p: PathName)
    requires Filed(t) && m in t.meshes
    ensures p in t.meshes[m].nodes <==> t.Contains(p) && t.SpecAt(p).value.mesh == m
    ensures p in t.meshes[m].nodes ==> t.SpecAt(p) == Some(t.meshes[m].specs[p])
  {
    var r := t.SpecAt(p);
    if p in t.meshes[m].nodes {
      assert m in Names(t.meshes.Keys) && p in t.meshes[m].specs;
      var n :| n in Names(t.meshes.Keys) && p in t.meshes[n].specs && t.meshes[n].specs[p] == r.value;
      assert n == m;
    }
  }

  lemma ContainsFiled(t: Topology, p: PathName)
    requires Filed(t)
    ensures t.Contains(p) <==> exists m :: m in t.meshes && p in t.meshes[m].nodes
  {
    if t.Contains(p) {
      var n :| n in Names(t.meshes.Keys) && p in t.meshes[n].specs && t.meshes[n].specs[p] == t.SpecAt(p).value;
      assert n in t.meshes && p in t.meshes[n].nodes;
    }
    if m :| m in t.meshes && p in t.meshes[m].nodes { SpecAtFiled(t, m, p); }
  }

  // ---------------------------------------------------------------------------------------------
  // Operations, their keys and their step events
  // ---------------------------------------------------------------------------------------------

  datatype Operation =
    | CreateMesh(mesh: string, meshId: MeshId)
    | CreateNode(at: PathName, nodeId: NodeId, mesh: string, kind: string, executable: Option<Binding>)
    | DeleteNode(at: PathName, mesh: string, kind: string, birth: Option<PinnedBirth>)
    | ShutdownMesh(mesh: string, meshId: MeshId)
    | DeleteFabric(fabricId: string)
  {
    function Key(): OpKey {
      match this
      case CreateMesh(_, id) => MeshCreate(id)
      case CreateNode(_, id, _, _, _) => NodeCreate(id)
      case DeleteNode(_, _, _, birth) => if birth.Some? then NodeDelete(birth.value.id) else NodeDeleteUnscoped
      case ShutdownMesh(_, id) => MeshDelete(id)
      case DeleteFabric(id) => FabricDelete(id)
    }
  }

  /** An operation's stable identity. */
  datatype OpKey =
    | MeshCreate(mesh: MeshId) | NodeCreate(node: NodeId) | NodeDelete(node: NodeId) | NodeDeleteUnscoped
    | MeshDelete(mesh: MeshId) | FabricDelete(fabric: string)
  {
    function Action(): string {
      match this
      case MeshCreate(_) => "create-mesh"
      case NodeCreate(_) => "node.create"
      case NodeDelete(_) => "node.delete"
      case NodeDeleteUnscoped => "node.delete"
      case MeshDelete(_) => "mesh.delete"
      case FabricDelete(_) => "fabric.delete"
    }

    /** The key as a step event writes it. */
    function Text(): string {
      match this
      case MeshCreate(id) => Action() + ":" + id
      case NodeCreate(id) => Action() + ":" + id
      case NodeDelete(id) => Action() + ":" + id
      case NodeDeleteUnscoped => Action()
      case MeshDelete(id) => Action() + ":" + id
      case FabricDelete(id) => Action() + ":" + id
    }
  }

  /** Step events compare written keys; writing loses nothing. */
  lemma KeyTextInjective(a: OpKey, b: OpKey)
    requires a.Text() == b.Text()
    ensures a == b
  {
    var t := a.Text();
    assert a.Text()[..11] == b.Text()[..11];
    assert |"create-mesh"| == 11 && |"node.create"| == 11 && |"node.delete"| == 11 && |"mesh.delete"| == 11;
    assert "create-mesh"[0] == 'c' && "node.create"[0] == 'n' && "node.delete"[0] == 'n' && "mesh.delete"[0] == 'm'
        && "fabric.delete"[0] == 'f';
    assert "node.create"[5] == 'c' && "node.delete"[5] == 'd';
    assert t[0] == b.Action()[0] && t[5] == b.Action()[5] && t[0] == a.Action()[0] && t[5] == a.Action()[5];
    if a.FabricDelete? {
      assert a.Text()[14..] == a.fabric && b.Text()[14..] == b.fabric;
    } else if !a.NodeDeleteUnscoped? && !b.NodeDeleteUnscoped? {
      assert a.Text()[12..] == (if a.MeshCreate? || a.MeshDelete? then a.mesh else a.node);
      assert b.Text()[12..] == (if b.MeshCreate? || b.MeshDelete? then b.mesh else b.node);
    }
  }

  /** What a key is written as: its action, then its subject. */
  lemma KeyTexts(id: string)
    ensures MeshCreate(id).Text() == "create-mesh:" + id && NodeCreate(id).Text() == "node.create:" + id
    ensures NodeDelete(id).Text() == "node.delete:" + id && NodeDeleteUnscoped.Text() == "node.delete"
    ensures MeshDelete(id).Text() == "mesh.delete:" + id && FabricDelete(id).Text() == "fabric.delete:" + id
  {
    assert "create-mesh" + ":" == "create-mesh:" && "node.create" + ":" == "node.create:";
    assert "node.delete" + ":" == "node.delete:" && "mesh.delete" + ":" == "mesh.delete:";
    assert "fabric.delete" + ":" == "fabric.delete:";
  }

  datatype Outcome = Complete | Failed(reason: string)

  /** One `rdm.build.step` event. */
  datatype Step = Step(operation: OpKey, step: string, outcome: Outcome)

  predicate Completed(steps: seq<Step>, operation: OpKey, step: string) {
    exists s :: s in steps && s.operation == operation && s.step == step && s.outcome == Complete
  }

  predicate Done(steps: seq<Step>, operation: OpKey) {
    Completed(steps, operation, "Complete")
  }

  predicate Began(steps: seq<Step>, operation: OpKey) {
    exists s :: s in steps && s.operation == operation
  }
}
