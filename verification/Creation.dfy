/** What a Create adds, and exactly when it is accepted. */
module Creation {
  import opened Model
  import opened Changes

  function SpecOf(r: NodeRequest): Spec {
    Spec(r.at, r.mesh, r.kind, if r.storage.Some? then r.storage.value
        else StorageOf(r.kind), r.executable, r.tags, r.config)
  }

  function AddMeshes(t: Topology, added: set<string>, meshes: seq<string>, mint: string -> MeshId): Result<Topology,
      Reject>
    decreases |meshes|
  {
    if meshes == [] then Ok(t)
    else
      var m := meshes[0];
      if !ValidMeshName(m) then Err(InvalidMeshName(m))
      else if m in t.meshes then Err(MeshAlreadyExists(m))
      else if m in added then Err(DuplicateMesh(m))
      else AddMeshes(t.(meshes := t.meshes[m := MeshTopology(m, mint(m), {}, map[])]), added + {m}, meshes[1..], mint)
  }

  /** Why `r` is refused, `named` the locations the request listed before it. */
  function Refusal(t: Topology, named: set<PathName>, r: NodeRequest, v: View,
      replaced: set<PathName>): Option<Reject> {
    if !ValidPathName(r.at) then Some(InvalidNodeName(r.at))
    else if (v.At(r.at).Some? && r.at !in replaced) || r.at in named then Some(NameHeld(r.at))
    else if r.executable.None? then Some(ExecutableMissing(r.at))
    else if !ValidTags(r.tags) then Some(TagsRefused(r.at))
    else if r.mesh !in t.meshes then Some(UnknownMesh(r.mesh))
    else None
  }

  function AddNode(t: Topology, r: NodeRequest): Topology
    requires r.mesh in t.meshes
  {
    var m := t.meshes[r.mesh];
    t.(meshes := t.meshes[r.mesh := m.(nodes := m.nodes + {r.at}, specs := m.specs[r.at := SpecOf(r)])])
  }

  function AddNodes(t: Topology, named: set<PathName>, nodes: seq<NodeRequest>, v: View,
      replaced: set<PathName>): Result<Topology, Reject>
    decreases |nodes|
  {
    if nodes == [] then Ok(t)
    else
      var refusal := Refusal(t, named, nodes[0], v, replaced);
      if refusal.Some? then Err(refusal.value)
      else AddNodes(AddNode(t, nodes[0]), named + {nodes[0].at}, nodes[1..], v, replaced)
  }

  /** The first of `names` whose mesh holds no node-admin. */
  function FirstWithoutAdmin(t: Topology, names: seq<string>): (r: Option<string>)
    requires forall n :: n in names ==> n in t.meshes
    ensures r.None? <==> forall n :: n in names ==> t.meshes[n].Admins() != {}
  {
    if names == [] then None
    else if |t.meshes[names[0]].Admins()| == 0 then Some(names[0])
    else FirstWithoutAdmin(t, names[1..])
  }

  function Listed(meshes: seq<string>): set<string> { set m | m in meshes }

  function Created(next: Topology, meshes: seq<string>, nodes: seq<NodeRequest>, v: View, replaced: set<PathName>,
      mint: string -> MeshId): Result<Topology, Reject> {
    if meshes == [] && nodes == [] then Err(NoNodeListed)
    else
      var grown := AddMeshes(next, {}, meshes, mint);
      if grown.Err? then grown
      else
        var filled := AddNodes(grown.value, {}, nodes, v, replaced);
        if filled.Err? then filled
        else
          MeshesAdded(next, {}, meshes, mint);
          NodesAdded(grown.value, {}, nodes, v, replaced);
          var bare := FirstWithoutAdmin(filled.value, Names(Listed(meshes)));
          if bare.Some? then Err(MeshWithoutAdmin(bare.value)) else filled
  }

  method EnterMeshes(next: Topology, meshes: seq<string>, mint: string -> MeshId) returns (r: Result<Topology, Reject>)
    ensures r == AddMeshes(next, {}, meshes, mint)
  {
    hide ValidMeshName;
    var t, added := next, {};
    for i := 0 to |meshes|
      invariant AddMeshes(next, {}, meshes, mint) == AddMeshes(t, added, meshes[i..], mint)
    {
      var m := meshes[i];
      if !ValidMeshName(m) { return Err(InvalidMeshName(m)); }
      if m in t.meshes { return Err(MeshAlreadyExists(m)); }
      if m in added { return Err(DuplicateMesh(m)); }
      added := added + {m};
      t := t.(meshes := t.meshes[m := MeshTopology(m, mint(m), {}, map[])]);
      assert meshes[i..][1..] == meshes[i + 1..];
    }
    return Ok(t);
  }

  method EnterNodes(grown: Topology, nodes: seq<NodeRequest>, v: View, replaced: set<PathName>)
      returns (r: Result<Topology, Reject>)
    ensures r == AddNodes(grown, {}, nodes, v, replaced)
  {
    hide Refusal, AddNode;
    var t, named := grown, {};
    for i := 0 to |nodes|
      invariant AddNodes(grown, {}, nodes, v, replaced) == AddNodes(t, named, nodes[i..], v, replaced)
    {
      var refusal := Refusal(t, named, nodes[i], v, replaced);
      if refusal.Some? { return Err(refusal.value); }
      RefusalNone(t, named, nodes[i], v, replaced);
      t, named := AddNode(t, nodes[i]), named + {nodes[i].at};
      assert nodes[i..][1..] == nodes[i + 1..];
    }
    return Ok(t);
  }

  /** The addition, in place over the topology, one mesh and then one node at a time. */
  method Add(next: Topology, meshes: seq<string>, nodes: seq<NodeRequest>, v: View, replaced: set<PathName>,
      mint: string -> MeshId)
    returns (r: Result<Topology, Reject>)
    ensures r == Created(next, meshes, nodes, v, replaced, mint)
  {
    hide AddMeshes, AddNodes, Names, FirstWithoutAdmin, ValidMeshName, Filled;
    if meshes == [] && nodes == [] { return Err(NoNodeListed); }
    r := EnterMeshes(next, meshes, mint);
    if r.Err? { return; }
    MeshesAdded(next, {}, meshes, mint);
    NodesAdded(r.value, {}, nodes, v, replaced);
    r := EnterNodes(r.value, nodes, v, replaced);
    if r.Err? { return; }
    var bare := FirstWithoutAdmin(r.value, Names(Listed(meshes)));
    if bare.Some? { return Err(MeshWithoutAdmin(bare.value)); }
  }

  lemma RefusalNone(t: Topology, named: set<PathName>, r: NodeRequest, v: View, replaced: set<PathName>)
    requires Refusal(t, named, r, v, replaced).None?
    ensures r.mesh in t.meshes
  {
  }

  // ---------------------------------------------------------------------------------------------
  // Exactly what a Create adds
  // ---------------------------------------------------------------------------------------------

  /** `t` is `base` with the meshes `meshes` entered empty, each under its minted id. */
  ghost predicate Grown(base: Topology, t: Topology, meshes: seq<string>, mint: string -> MeshId) {
    && t == base.(meshes := t.meshes)
    && t.meshes.Keys == base.meshes.Keys + Listed(meshes)
    && (forall m :: m in base.meshes && m !in meshes ==> t.meshes[m] == base.meshes[m])
    && (forall m :: m in meshes ==> t.meshes[m] == MeshTopology(m, mint(m), {}, map[]))
  }

  lemma {:induction false} MeshesAdded(t: Topology, added: set<string>, meshes: seq<string>, mint: string -> MeshId)
    requires added <= t.meshes.Keys
    ensures AddMeshes(t, added, meshes, mint).Ok? <==>
            NoRepeats(meshes) && forall m :: m in meshes ==> ValidMeshName(m) && m !in t.meshes
    ensures AddMeshes(t, added, meshes, mint).Ok? ==> Grown(t, AddMeshes(t, added, meshes, mint).value, meshes, mint)
    decreases |meshes|
  {
    hide ValidMeshName, Grown, NoRepeats;
    if meshes == [] {
      GrownByNone(t, mint);
    } else {
      var m, rest := meshes[0], meshes[1..];
      assert meshes == [m] + rest;
      OnceSplits(m, rest);
      if ValidMeshName(m) && m !in t.meshes {
        var t' := t.(meshes := t.meshes[m := MeshTopology(m, mint(m), {}, map[])]);
        MeshesAdded(t', added + {m}, rest, mint);
        var r := AddMeshes(t', added + {m}, rest, mint);
        if r.Ok? { GrownByOne(t, m, rest, mint, r.value); }
      }
    }
  }

  lemma GrownByNone(t: Topology, mint: string -> MeshId)
    ensures Grown(t, t, [], mint) && NoRepeats<string>([])
  {
  }

  lemma OnceSplits(m: string, rest: seq<string>)
    ensures NoRepeats([m] + rest) <==> m !in rest && NoRepeats(rest)
  {
    var all := [m] + rest;
    if NoRepeats(all) {
      forall i | 0 <= i < |rest| ensures rest[i] != m { assert all[i + 1] == rest[i] && all[0] == m; }
      forall i, j | 0 <= i < j < |rest| ensures rest[i] != rest[j] {
        assert all[i + 1] == rest[i] && all[j + 1] == rest[j];
      }
    }
  }

  lemma GrownByOne(t: Topology, m: string, rest: seq<string>, mint: string -> MeshId, grown: Topology)
    requires m !in t.meshes && m !in rest
    requires Grown(t.(meshes := t.meshes[m := MeshTopology(m, mint(m), {}, map[])]), grown, rest, mint)
    ensures Grown(t, grown, [m] + rest, mint)
  {
    assert Listed([m] + rest) == {m} + Listed(rest);
  }

  function Asked(nodes: seq<NodeRequest>, mesh: string): set<PathName> {
    set r | r in nodes && r.mesh == mesh :: r.at
  }

  predicate Distinct(nodes: seq<NodeRequest>) {
    forall i, j :: 0 <= i < j < |nodes| ==> nodes[i].at != nodes[j].at
  }

  /** The create spec is the request's, field by field: where it names no storage, its type's. */
  ghost predicate AsAsked(r: NodeRequest, s: Spec) {
    && s.at == r.at && s.mesh == r.mesh && s.kind == r.kind && s.executable == r.executable
    && s.tags == r.tags && s.config == r.config
    && (r.storage.Some? ==> s.storage == r.storage.value)
    && (r.storage.None? ==> s.storage == if r.kind == "node-admin" then PersistentPreserve else Ephemeral)
  }

  lemma SpecAsAsked(r: NodeRequest)
    ensures AsAsked(r, SpecOf(r))
  {
  }

  /** The mesh `m` with the requests for it entered whole, every other entry as it was. */
  ghost predicate Filled(name: string, base: MeshTopology, m: MeshTopology, nodes: seq<NodeRequest>) {
    && m.name == base.name && m.id == base.id
    && m.nodes == base.nodes + Asked(nodes, name)
    && m.specs.Keys == base.specs.Keys + Asked(nodes, name)
    && (forall r :: r in nodes && r.mesh == name ==> AsAsked(r, m.specs[r.at]))
    && (forall p :: p in base.specs && p !in Asked(nodes, name) ==> m.specs[p] == base.specs[p])
  }

  ghost predicate AllFilled(base: Topology, t: Topology, nodes: seq<NodeRequest>) {
    && t == base.(meshes := t.meshes)
    && t.meshes.Keys == base.meshes.Keys
    && forall m :: m in t.meshes ==> Filled(m, base.meshes[m], t.meshes[m], nodes)
  }

  predicate RequestOk(t: Topology, r: NodeRequest, v: View, replaced: set<PathName>) {
    ValidPathName(r.at) && (v.At(r.at).None? || r.at in replaced) && r.executable.Some? && ValidTags(r.tags)
        && r.mesh in t.meshes
  }

  lemma AskedGrows(n: NodeRequest, nodes: seq<NodeRequest>, mesh: string)
    ensures Asked([n] + nodes, mesh) == Asked(nodes, mesh) + if n.mesh == mesh then {n.at} else {}
  {
  }

  lemma FilledGrows(name: string, base: MeshTopology, m: MeshTopology, n: NodeRequest, nodes: seq<NodeRequest>)
    requires Distinct([n] + nodes)
    requires Filled(name,
        if n.mesh == name then base.(nodes := base.nodes + {n.at}, specs := base.specs[n.at := SpecOf(n)])
        else base, m, nodes)
    ensures Filled(name, base, m, [n] + nodes)
  {
    hide SpecOf, Asked, AsAsked;
    SpecAsAsked(n);
    AskedGrows(n, nodes, name);
    FirstElsewhere(n, nodes, name);
  }

  lemma FirstElsewhere(n: NodeRequest, nodes: seq<NodeRequest>, name: string)
    requires Distinct([n] + nodes)
    ensures n.at !in Asked(nodes, name)
  {
    forall r | r in nodes
      ensures r.at != n.at
    {
      var k :| 0 <= k < |nodes| && nodes[k] == r; assert ([n] + nodes)[0] == n && ([n] + nodes)[k + 1] == r;
    }
  }

  lemma {:induction false} NodesAdded(t: Topology, named: set<PathName>, nodes: seq<NodeRequest>, v: View,
      replaced: set<PathName>)
    ensures AddNodes(t, named, nodes, v, replaced).Ok? <==>
            Distinct(nodes) && forall r :: r in nodes ==> RequestOk(t, r, v, replaced) && r.at !in named
    ensures AddNodes(t, named, nodes, v, replaced).Ok? ==>
        AllFilled(t, AddNodes(t, named, nodes, v, replaced).value, nodes)
    decreases |nodes|
  {
    hide RequestOk, Refusal, Distinct, Filled, SpecOf, AsAsked;
    if nodes == [] {
      NothingAsked(t);
    } else {
      var n, rest := nodes[0], nodes[1..];
      assert nodes == [n] + rest;
      RefusalExactly(t, named, n, v, replaced);
      DistinctSplits(n, rest);
      if RequestOk(t, n, v, replaced) && n.at !in named {
        RequestMesh(t, n, v, replaced);
        var t' := AddNode(t, n);
        forall r | r in rest
          ensures RequestOk(t', r, v, replaced) <==> RequestOk(t, r, v, replaced)
        {
          SameMeshes(t, t', r, v, replaced);
        }
        NodesAdded(t', named + {n.at}, rest, v, replaced);
        if AddNodes(t, named, nodes, v, replaced).Ok? {
          var filled := AddNodes(t', named + {n.at}, rest, v, replaced).value;
          forall m | m in t.meshes ensures Filled(m, t.meshes[m], filled.meshes[m], nodes) {
            FilledGrows(m, t.meshes[m], filled.meshes[m], n, rest);
          }
        }
      }
    }
  }

  lemma NothingAsked(t: Topology)
    ensures Distinct([]) && forall m :: m in t.meshes ==> Filled(m, t.meshes[m], t.meshes[m], [])
  {
    forall m | m in t.meshes ensures Filled(m, t.meshes[m], t.meshes[m], []) { assert Asked([], m) == {}; }
  }

  lemma DistinctSplits(n: NodeRequest, rest: seq<NodeRequest>)
    ensures Distinct([n] + rest) <==> Distinct(rest) && forall r :: r in rest ==> r.at != n.at
  {
    var nodes := [n] + rest;
    if Distinct(nodes) {
      forall r | r in rest ensures r.at != n.at { FirstElsewhere(n, rest, r.mesh); assert r.at in Asked(rest, r.mesh); }
      forall i, j | 0 <= i < j < |rest|
        ensures rest[i].at != rest[j].at
      {
        assert nodes[i + 1] == rest[i] && nodes[j + 1] == rest[j];
      }
    }
    if Distinct(rest) && forall r :: r in rest ==> r.at != n.at {
      forall i, j | 0 <= i < j < |nodes| ensures nodes[i].at != nodes[j].at {
        assert nodes[j] == rest[j - 1] && rest[j - 1] in rest;
        if i > 0 { assert nodes[i] == rest[i - 1]; }
      }
    }
  }

  lemma RefusalExactly(t: Topology, named: set<PathName>, r: NodeRequest, v: View, replaced: set<PathName>)
    ensures Refusal(t, named, r, v, replaced).None? <==> RequestOk(t, r, v, replaced) && r.at !in named
  {
  }

  lemma RequestMesh(t: Topology, r: NodeRequest, v: View, replaced: set<PathName>)
    requires RequestOk(t, r, v, replaced)
    ensures r.mesh in t.meshes
  {
  }

  lemma SameMeshes(t: Topology, t': Topology, r: NodeRequest, v: View, replaced: set<PathName>)
    requires t'.meshes.Keys == t.meshes.Keys
    ensures RequestOk(t', r, v, replaced) <==> RequestOk(t, r, v, replaced)
  {
  }

  /** `t` is `next` with the meshes and the nodes the Create lists entered into it, and nothing else touched. */
  ghost predicate AfterCreate(next: Topology, t: Topology, meshes: seq<string>, nodes: seq<NodeRequest>,
      mint: string -> MeshId) {
    && t == next.(meshes := t.meshes)
    && t.meshes.Keys == next.meshes.Keys + Listed(meshes)
    && (forall m :: m in next.meshes ==> Filled(m, next.meshes[m], t.meshes[m], nodes))
    && (forall m :: m in meshes ==> Filled(m, MeshTopology(m, mint(m), {}, map[]), t.meshes[m], nodes))
  }

  predicate MeshesAdmitted(next: Topology, meshes: seq<string>) {
    NoRepeats(meshes) && forall m :: m in meshes ==> ValidMeshName(m) && m !in next.meshes
  }

  predicate RequestAdmitted(next: Topology, meshes: seq<string>, r: NodeRequest, v: View, replaced: set<PathName>) {
    && ValidPathName(r.at) && (v.At(r.at).None? || r.at in replaced) && r.executable.Some? && ValidTags(r.tags)
    && (r.mesh in next.meshes || r.mesh in meshes)
  }

  predicate AdminListed(m: string, nodes: seq<NodeRequest>) {
    exists r :: r in nodes && r.mesh == m && r.kind == NODE_ADMIN
  }

  /** Every mesh once, valid and not held; every location once, valid and free or replaced, with an executable, valid
      tags and a mesh held or listed; and an admin listed for every listed mesh. */
  predicate CreateAdmitted(next: Topology, meshes: seq<string>, nodes: seq<NodeRequest>, v: View,
      replaced: set<PathName>) {
    && (meshes != [] || nodes != [])
    && MeshesAdmitted(next, meshes)
    && Distinct(nodes) && (forall r :: r in nodes ==> RequestAdmitted(next, meshes, r, v, replaced))
    && forall m :: m in meshes ==> AdminListed(m, nodes)
  }

  lemma FilledAdmins(name: string, id: MeshId, m: MeshTopology, nodes: seq<NodeRequest>)
    requires Filled(name, MeshTopology(name, id, {}, map[]), m, nodes)
    ensures m.Admins() != {} <==> AdminListed(name, nodes)
  {
    if r :| r in nodes && r.mesh == name && r.kind == NODE_ADMIN { assert r.at in m.Admins(); }
    if p :| p in m.Admins() { var r :| r in nodes && r.mesh == name && r.at == p; }
  }

  lemma AdmittedOnceGrown(next: Topology, grown: Topology, meshes: seq<string>, nodes: seq<NodeRequest>, v: View,
      replaced: set<PathName>)
    requires grown.meshes.Keys == next.meshes.Keys + Listed(meshes)
    ensures (forall r :: r in nodes ==> RequestAdmitted(next, meshes, r, v, replaced)) <==>
            (forall r :: r in nodes ==> RequestOk(grown, r, v, replaced))
  {
    hide ValidPathName, ValidTags, View.At;
    forall r ensures RequestAdmitted(next, meshes, r, v, replaced) <==> RequestOk(grown, r, v, replaced) {
    }
  }

  lemma AdminsFilled(grown: Topology, t: Topology, meshes: seq<string>, nodes: seq<NodeRequest>, mint: string -> MeshId)
    requires AllFilled(grown, t, nodes) && forall m ::
        m in meshes ==> m in grown.meshes && grown.meshes[m] == MeshTopology(m, mint(m), {}, map[])
    ensures forall m :: m in meshes ==> (t.meshes[m].Admins() != {} <==> AdminListed(m, nodes))
  {
    hide Filled, AdminListed, MeshTopology.Admins;
    forall m | m in meshes { FilledAdmins(m, mint(m), t.meshes[m], nodes); }
  }

  lemma CreatedStages(next: Topology, meshes: seq<string>, nodes: seq<NodeRequest>, v: View, replaced: set<PathName>,
      mint: string -> MeshId)
    requires meshes != [] || nodes != []
    requires AddMeshes(next, {}, meshes, mint).Ok?
    ensures
      var grown := AddMeshes(next, {}, meshes, mint).value;
      var filled := AddNodes(grown, {}, nodes, v, replaced);
      && Grown(next, grown, meshes, mint)
      && (filled.Ok? ==> AllFilled(grown, filled.value, nodes))
      && (Created(next, meshes, nodes, v, replaced, mint).Ok? <==>
          filled.Ok? && forall m :: m in meshes ==> filled.value.meshes[m].Admins() != {})
      && (Created(next, meshes, nodes, v, replaced, mint).Ok? ==>
          Created(next, meshes, nodes, v, replaced, mint) == filled)
  {
    hide AddMeshes, AddNodes, Filled, Distinct, MeshTopology.Admins, FirstWithoutAdmin, ValidMeshName, RequestOk,
        NoRepeats;
    hide Listed, Names;
    var grown := AddMeshes(next, {}, meshes, mint).value;
    MeshesAdded(next, {}, meshes, mint);
    NodesAdded(grown, {}, nodes, v, replaced);
    var filled := AddNodes(grown, {}, nodes, v, replaced);
    if filled.Ok? {
      GrownListed(next, grown, meshes, mint);
      BareListed(filled.value, meshes);
    }
  }

  lemma GrownListed(next: Topology, grown: Topology, meshes: seq<string>, mint: string -> MeshId)
    requires Grown(next, grown, meshes, mint)
    ensures forall m :: m in meshes ==> m in grown.meshes
  {
  }

  lemma BareListed(t: Topology, meshes: seq<string>)
    requires forall m :: m in meshes ==> m in t.meshes
    ensures forall m :: m in Names(Listed(meshes)) ==> m in t.meshes
    ensures FirstWithoutAdmin(t, Names(Listed(meshes))).None? <==>
        forall m :: m in meshes ==> t.meshes[m].Admins() != {}
  {
    assert forall m :: m in Names(Listed(meshes)) <==> m in meshes;
  }

  lemma FilledOverGrown(next: Topology, grown: Topology, t: Topology, meshes: seq<string>, nodes: seq<NodeRequest>,
      mint: string -> MeshId)
    requires Grown(next, grown, meshes, mint) && AllFilled(grown, t, nodes) && forall m ::
        m in meshes ==> m !in next.meshes
    ensures AfterCreate(next, t, meshes, nodes, mint)
  {
    hide Filled;
  }

  /** A Create is accepted exactly when it is admitted as a whole, and adds exactly what it lists. */
  lemma CreatedExactly(next: Topology, meshes: seq<string>, nodes: seq<NodeRequest>, v: View, replaced: set<PathName>,
      mint: string -> MeshId)
    ensures Created(next, meshes, nodes, v, replaced, mint).Ok? <==> CreateAdmitted(next, meshes, nodes, v, replaced)
    ensures Created(next, meshes, nodes, v, replaced, mint).Ok? ==>
            AfterCreate(next, Created(next, meshes, nodes, v, replaced, mint).value, meshes, nodes, mint)
  {
    hide Created, AddMeshes, AddNodes, AllFilled, AfterCreate, Distinct, ValidMeshName, RequestAdmitted, RequestOk,
        AdminListed;
    hide MeshTopology.Admins, NoRepeats;
    MeshesAdded(next, {}, meshes, mint);
    var grown := AddMeshes(next, {}, meshes, mint);
    if grown.Ok? && (meshes != [] || nodes != []) {
      CreatedStages(next, meshes, nodes, v, replaced, mint);
      NodesAdded(grown.value, {}, nodes, v, replaced);
      AdmittedOnceGrown(next, grown.value, meshes, nodes, v, replaced);
      var filled := AddNodes(grown.value, {}, nodes, v, replaced);
      if filled.Ok? {
        AdminsFilled(grown.value, filled.value, meshes, nodes, mint);
        FilledOverGrown(next, grown.value, filled.value, meshes, nodes, mint);
      }
    } else {
      CreatedEarly(next, meshes, nodes, v, replaced, mint);
    }
  }

  // ---------------------------------------------------------------------------------------------
  // Refusals by name
  // ---------------------------------------------------------------------------------------------

  /** `m` is listed where it is held already, or listed before. */
  ghost predicate MeshTwice(t: Topology, meshes: seq<string>, m: string) {
    exists k :: 0 <= k < |meshes| && meshes[k] == m && (m in t.meshes || m in meshes[..k])
  }

  /** A request for `p` is listed where it is held and not replaced, or listed before. */
  ghost predicate PathTwice(named: set<PathName>, nodes: seq<NodeRequest>, v: View, replaced: set<PathName>,
      p: PathName) {
    exists k :: 0 <= k < |nodes| && nodes[k].at == p &&
      ((v.At(p).Some? && p !in replaced) || p in named || exists j :: 0 <= j < k && nodes[j].at == p)
  }

  ghost predicate MeshFault(t: Topology, meshes: seq<string>, why: Reject) {
    match why
    case InvalidMeshName(m) => m in meshes && !ValidMeshName(m)
    case MeshAlreadyExists(m) => MeshTwice(t, meshes, m)
    case _ => false
  }

  ghost predicate NodeFault(t: Topology, named: set<PathName>, nodes: seq<NodeRequest>, v: View,
      replaced: set<PathName>, why: Reject) {
    match why
    case InvalidNodeName(p) => !ValidPathName(p) && exists r :: r in nodes && r.at == p
    case NameHeld(p) => PathTwice(named, nodes, v, replaced, p)
    case ExecutableMissing(p) => exists r :: r in nodes && r.at == p && r.executable == None
    case TagsRefused(p) => exists r :: r in nodes && r.at == p && !ValidTags(r.tags)
    case UnknownMesh(m) => m !in t.meshes && exists r :: r in nodes && r.mesh == m
    case _ => false
  }

  /** `why` is true of the Create: nothing listed, a fault of a listed mesh, a fault of a request over the meshes held
      and listed, or a listed mesh with no node-admin. */
  ghost predicate CreateFault(next: Topology, meshes: seq<string>, nodes: seq<NodeRequest>, v: View,
      replaced: set<PathName>, why: Reject) {
    || (why == NoNodeListed && meshes == [] && nodes == [])
    || MeshFault(next, meshes, why)
    || (NodeFault(next, {}, nodes, v, replaced, why) && (why.UnknownMesh? ==> why.mesh !in meshes))
    || (why.MeshWithoutAdmin? && why.mesh in meshes && forall r ::
            r in nodes && r.mesh == why.mesh ==> r.kind != "node-admin")
  }

  lemma {:induction false} MeshesRefused(t: Topology, added: set<string>, meshes: seq<string>, mint: string -> MeshId)
    requires added <= t.meshes.Keys && AddMeshes(t, added, meshes, mint).Err?
    ensures MeshFault(t, meshes, AddMeshes(t, added, meshes, mint).error)
    decreases |meshes|
  {
    hide ValidMeshName;
    var m, rest := meshes[0], meshes[1..];
    assert meshes == [m] + rest;
    if ValidMeshName(m) && m !in t.meshes {
      var t' := t.(meshes := t.meshes[m := MeshTopology(m, mint(m), {}, map[])]);
      MeshesRefused(t', added + {m}, rest, mint);
      var why := AddMeshes(t', added + {m}, rest, mint).error;
      if why.MeshAlreadyExists? {
        var k :| 0 <= k < |rest| && rest[k] == why.mesh && (why.mesh in t'.meshes || why.mesh in rest[..k]);
        assert meshes[k + 1] == why.mesh && meshes[..k + 1] == [m] + rest[..k];
      }
    } else if ValidMeshName(m) {
      assert meshes[0] == m && m in t.meshes;
    }
  }

  lemma {:induction false} NodesRefused(t: Topology, named: set<PathName>, nodes: seq<NodeRequest>, v: View,
      replaced: set<PathName>)
    requires AddNodes(t, named, nodes, v, replaced).Err?
    ensures NodeFault(t, named, nodes, v, replaced, AddNodes(t, named, nodes, v, replaced).error)
    decreases |nodes|
  {
    hide ValidPathName, ValidTags, View.At, SpecOf;
    var n, rest := nodes[0], nodes[1..];
    assert nodes == [n] + rest;
    assert n in nodes;
    if Refusal(t, named, n, v, replaced).None? {
      var t' := AddNode(t, n);
      assert t'.meshes.Keys == t.meshes.Keys;
      NodesRefused(t', named + {n.at}, rest, v, replaced);
      var why := AddNodes(t', named + {n.at}, rest, v, replaced).error;
      if why.NameHeld? { PathStillTwice(named, n, rest, v, replaced, why.at); }
    } else if Refusal(t, named, n, v, replaced).value.NameHeld? {
      assert nodes[0].at == n.at;
    }
  }

  lemma PathStillTwice(named: set<PathName>, n: NodeRequest, rest: seq<NodeRequest>, v: View, replaced: set<PathName>,
      p: PathName)
    requires PathTwice(named + {n.at}, rest, v, replaced, p)
    ensures PathTwice(named, [n] + rest, v, replaced, p)
  {
    hide View.At;
    var nodes := [n] + rest;
    var k :| 0 <= k < |rest| && rest[k].at == p &&
      ((v.At(p).Some? && p !in replaced) || p in named + {n.at} || exists j :: 0 <= j < k && rest[j].at == p);
    assert nodes[k + 1] == rest[k] && nodes[0] == n;
    if j :| 0 <= j < k && rest[j].at == p { assert nodes[j + 1].at == p; }
    assert nodes[k + 1].at == p && ((v.At(p).Some? && p !in replaced) || p in named || exists j ::
        0 <= j < k + 1 && nodes[j].at == p);
  }

  /** A refused Create is refused by name for a fault it has. */
  lemma CreateRefusedTruly(next: Topology, meshes: seq<string>, nodes: seq<NodeRequest>, v: View,
      replaced: set<PathName>, mint: string -> MeshId)
    requires Created(next, meshes, nodes, v, replaced, mint).Err?
    ensures CreateFault(next, meshes, nodes, v, replaced, Created(next, meshes, nodes, v, replaced, mint).error)
  {
    hide AddMeshes, AddNodes, Names, FirstWithoutAdmin, ValidMeshName, Filled, MeshFault, NodeFault,
        MeshTopology.Admins;
    var grown := AddMeshes(next, {}, meshes, mint);
    if meshes != [] || nodes != [] {
      MeshesAdded(next, {}, meshes, mint);
      if grown.Err? {
        MeshesRefused(next, {}, meshes, mint);
      } else {
        NodesAdded(grown.value, {}, nodes, v, replaced);
        var filled := AddNodes(grown.value, {}, nodes, v, replaced);
        if filled.Err? {
          NodesRefused(grown.value, {}, nodes, v, replaced);
          NodeFaultGrown(next, grown.value, nodes, v, replaced, filled.error);
        } else {
          BareTruly(grown.value, filled.value, meshes, nodes, mint);
        }
      }
    }
  }

  /** A request's fault over more meshes is its fault over fewer, its mesh in neither. */
  lemma NodeFaultGrown(next: Topology, grown: Topology, nodes: seq<NodeRequest>, v: View, replaced: set<PathName>,
      why: Reject)
    requires NodeFault(grown, {}, nodes, v, replaced, why) && next.meshes.Keys <= grown.meshes.Keys
    ensures NodeFault(next, {}, nodes, v, replaced, why) && (why.UnknownMesh? ==> why.mesh !in grown.meshes)
  {
    hide PathTwice, ValidPathName, ValidTags;
  }

  lemma BareTruly(grown: Topology, t: Topology, meshes: seq<string>, nodes: seq<NodeRequest>, mint: string -> MeshId)
    requires AllFilled(grown, t, nodes) && forall m ::
        m in meshes ==> m in grown.meshes && grown.meshes[m] == MeshTopology(m, mint(m), {}, map[])
    ensures (forall m :: m in Names(Listed(meshes)) ==> m in t.meshes)
    ensures
      var bare := FirstWithoutAdmin(t, Names(Listed(meshes)));
      bare.Some? ==> bare.value in meshes && forall r ::
          r in nodes && r.mesh == bare.value ==> r.kind != "node-admin"
  {
    hide Filled, MeshTopology.Admins, Names;
    AdminsFilled(grown, t, meshes, nodes, mint);
    FirstIsBare(t, Names(Listed(meshes)));
  }

  lemma {:induction false} FirstIsBare(t: Topology, names: seq<string>)
    requires forall n :: n in names ==> n in t.meshes
    ensures
      var bare := FirstWithoutAdmin(t, names);
      bare.Some? ==> bare.value in names && t.meshes[bare.value].Admins() == {}
  {
    if names != [] { FirstIsBare(t, names[1..]); }
  }

  lemma CreatedEarly(next: Topology, meshes: seq<string>, nodes: seq<NodeRequest>, v: View, replaced: set<PathName>,
      mint: string -> MeshId)
    requires (meshes == [] && nodes == []) || AddMeshes(next, {}, meshes, mint).Err?
    ensures Created(next, meshes, nodes, v, replaced, mint).Err?
  {
    hide AddMeshes;
  }
}
