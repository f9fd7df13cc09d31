/** Acceptance read off the change and the view themselves: exactly which Creates and Deletes compile, and exactly what
    the topology they compile to holds, field by field. */
module AcceptedFields {
  import opened Model
  import opened Changes
  import opened Records
  import opened Creation
  import opened Deletion
  import opened Compile
  import opened Acceptance
  import opened Continuity

  /** The records hold the mesh: it is not Dead, or a birth of it stands. */
  ghost predicate HeldIn(v: View, m: string) {
    (exists x :: x in v.meshes && x.name == m && x.status != ScopeDead) || exists n :: n in v.nodes && n.mesh == m
  }

  lemma HeldInExactly(v: View, m: string)
    requires v.WellFormed()
    ensures HeldIn(v, m) <==> m in HeldNames(v)
  {
    hide FirstAt, FirstOf, FirstNamed;
    if n :| n in v.nodes && n.mesh == m { assert v.Stands(n); }
  }

  lemma HeldRecords(v: View, accepted: Topology, mint: string -> MeshId)
    requires v.WellFormed()
    ensures forall m :: m in OfRecords(v, accepted, mint).meshes <==> HeldIn(v, m)
  {
    hide HeldIn, HeldNames, View.WellFormed;
    forall m { HeldInExactly(v, m); }
  }

  lemma AtHeld(v: View, p: PathName)
    requires v.WellFormed()
    ensures v.At(p).None? <==> forall n :: n in v.nodes ==> n.at != p
    ensures forall n :: n in v.nodes && n.at == p ==> v.At(p) == Some(n)
  {
  }

  // ---------------------------------------------------------------------------------------------
  // A Create
  // ---------------------------------------------------------------------------------------------

  /** The request stands on its own: a valid free or replaced location, in its holder's mesh, with an executable, valid
      tags and a mesh held or listed. */
  ghost predicate RequestFits(v: View, meshes: seq<string>, replaced: set<PathName>, r: NodeRequest) {
    && ValidPathName(r.at) && r.executable != None && ValidTags(r.tags) && (HeldIn(v, r.mesh) || r.mesh in meshes)
    && forall n :: n in v.nodes && n.at == r.at ==> r.at in replaced && n.mesh == r.mesh
  }

  /** A node-admin of `m` is listed, or stands and is not replaced. */
  ghost predicate AdminLeft(v: View, nodes: seq<NodeRequest>, m: string) {
    || (exists r :: r in nodes && r.mesh == m && r.kind == "node-admin")
    || exists n :: n in v.nodes && n.mesh == m && n.kind == "node-admin" && forall r ::
        r in nodes && r.mesh == m ==> r.at != n.at
  }

  ghost predicate CreateStands(v: View, meshes: seq<string>, nodes: seq<NodeRequest>, replaced: set<PathName>) {
    && (meshes != [] || nodes != []) && NoRepeats(meshes)
    && (forall m :: m in meshes ==> ValidMeshName(m) && !HeldIn(v, m))
    && (forall i, j :: 0 <= i < j < |nodes| ==> nodes[i].at != nodes[j].at)
    && (forall r :: r in nodes ==> RequestFits(v, meshes, replaced, r))
    && (forall m :: m in meshes ==> exists r :: r in nodes && r.mesh == m && r.kind == "node-admin")
    && (forall m :: HeldIn(v, m) ==> ValidMeshName(m) && AdminLeft(v, nodes, m))
  }

  lemma AdminLeftExactly(v: View, nodes: seq<NodeRequest>, m: string)
    ensures AdminLeft(v, nodes, m) <==> AdminStays(v, nodes, m) || AdminListed(m, nodes)
  {
    forall p ensures p !in Asked(nodes, m) <==> forall r :: r in nodes && r.mesh == m ==> r.at != p {
    }
  }

  lemma RequestFitsExactly(v: View, accepted: Topology, mint: string -> MeshId, meshes: seq<string>,
      replaced: set<PathName>, r: NodeRequest)
    requires v.WellFormed()
    ensures RequestFits(v, meshes, replaced, r) <==>
            RequestAdmitted(OfRecords(v, accepted, mint), meshes, r, v, replaced)
                && (v.At(r.at).Some? ==> v.At(r.at).value.mesh == r.mesh)
  {
    hide HeldIn, View.WellFormed, OfRecords, ValidPathName, ValidTags, View.At;
    HeldRecords(v, accepted, mint);
    AtHeld(v, r.at);
    if v.At(r.at).Some? { assert v.At(r.at).value in v.nodes && v.At(r.at).value.at == r.at; }
  }

  /** A Create is accepted exactly when it stands over the view. */
  lemma CreateAcceptedByFields(accepted: Topology, meshes: seq<string>, nodes: seq<NodeRequest>, v: View,
      replaced: set<PathName>, mints: Mints)
    requires v.WellFormed() && Filed(accepted)
    ensures CompileReplacing(accepted, Create(meshes, nodes), v, replaced, mints).Ok? <==>
            CreateStands(v, meshes, nodes, replaced)
  {
    hide CompileReplacing, HeldIn, View.WellFormed, Filed, OfRecords, RequestFits, RequestAdmitted, AdminLeft,
        AdminStays, ValidMeshName, HeldNames, View.At, NoRepeats;
    CreateAcceptedExactly(accepted, meshes, nodes, v, replaced, mints);
    HeldRecords(v, accepted, mints.mesh);
    forall m { HeldInExactly(v, m); }
    forall m { AdminLeftExactly(v, nodes, m); }
    forall r { RequestFitsExactly(v, accepted, mints.mesh, meshes, replaced, r); }
  }

  /** What an accepted Create's topology holds: the records' meshes and the listed ones, each listed node as its request
      asks for it under the id minted for it, each other standing node with the spec it had. */
  lemma CreateLeavesByFields(accepted: Topology, meshes: seq<string>, nodes: seq<NodeRequest>, v: View,
      replaced: set<PathName>, mints: Mints)
    requires v.WellFormed() && Filed(accepted)
        && CompileReplacing(accepted, Create(meshes, nodes), v, replaced, mints).Ok?
    ensures
      var t := CompileReplacing(accepted, Create(meshes, nodes), v, replaced, mints).value;
      && t.fabric == v.fabric && t.provider == accepted.provider && t.pinned == []
      && (forall m :: m in t.meshes <==> HeldIn(v, m) || m in meshes)
      && (forall m :: m in meshes ==> t.meshes[m].id == mints.mesh(m))
      && (forall m, p ::
          m in t.meshes ==>
            (p in t.meshes[m].nodes <==>
                (exists r :: r in nodes && r.mesh == m && r.at == p) || exists n ::
                    n in v.nodes && n.mesh == m && n.at == p))
      && (forall r ::
          r in nodes ==>
            r.mesh in t.meshes && r.at in t.meshes[r.mesh].specs && AsAsked(r, t.meshes[r.mesh].specs[r.at]))
      && (forall r :: r in nodes ==> (r.at, mints.node(r.at)) in t.created)
      && (forall e :: e in t.created ==> exists r :: r in nodes && r.at == e.0)
      && (forall n ::
          n in v.nodes && (forall r :: r in nodes ==> r.at != n.at) ==>
            n.mesh in t.meshes && n.at in t.meshes[n.mesh].specs
                && SpecKept(accepted, n, t.meshes[n.mesh].specs[n.at]))
  {
    hide CompileReplacing, View.WellFormed, Filed, OfRecords, CreateAdmitted, AfterCreate, HeldIn, SpecKept, AsAsked,
        MeshWellFormed;
    var change := Create(meshes, nodes);
    var t, next := CompileReplacing(accepted, change, v, replaced, mints).value, OfRecords(v, accepted, mints.mesh);
    CreateStages(accepted, change, v, replaced, mints);
    RecordsByFields(v, accepted, mints.mesh);
    HeldRecords(v, accepted, mints.mesh);
    CreateFilled(next, t.(created := []), meshes, nodes, mints.mesh);
    forall r | r in nodes { AdmittedMesh(next, meshes, nodes, v, replaced, r); }
    AdmittedNew(next, meshes, nodes, v, replaced);
    CreateMints(accepted, meshes, nodes, v, replaced, mints);
  }

  lemma CreateMints(accepted: Topology, meshes: seq<string>, nodes: seq<NodeRequest>, v: View,
      replaced: set<PathName>, mints: Mints)
    requires v.WellFormed() && Filed(accepted)
        && CompileReplacing(accepted, Create(meshes, nodes), v, replaced, mints).Ok?
    ensures
      var t := CompileReplacing(accepted, Create(meshes, nodes), v, replaced, mints).value;
      && (forall r :: r in nodes ==> (r.at, mints.node(r.at)) in t.created)
      && (forall e :: e in t.created ==> exists r :: r in nodes && r.at == e.0)
  {
    hide CompileReplacing, View.WellFormed, Filed, Lookup;
    var t := CompileReplacing(accepted, Create(meshes, nodes), v, replaced, mints).value;
    forall p { CreatesExactlyWhatIsListed(accepted, Create(meshes, nodes), v, replaced, mints, p); }
    forall r | r in nodes ensures (r.at, mints.node(r.at)) in t.created { assert t.CreatedId(r.at).Some?; }
    forall e | e in t.created ensures exists r :: r in nodes && r.at == e.0 { assert t.CreatedId(e.0).Some?; }
  }

  lemma AdmittedNew(next: Topology, meshes: seq<string>, nodes: seq<NodeRequest>, v: View, replaced: set<PathName>)
    requires CreateAdmitted(next, meshes, nodes, v, replaced)
    ensures forall m :: m in meshes ==> m !in next.meshes
  {
    hide ValidMeshName, RequestAdmitted, AdminListed, Distinct, NoRepeats;
  }

  lemma CreateFilled(next: Topology, t: Topology, meshes: seq<string>, nodes: seq<NodeRequest>, mint: string -> MeshId)
    requires AfterCreate(next, t, meshes, nodes, mint)
    ensures t == next.(meshes := t.meshes) && forall m :: m in t.meshes <==> m in next.meshes || m in meshes
    ensures forall m :: m in meshes ==> t.meshes[m].id == mint(m)
    ensures forall m, p :: m in next.meshes ==>
        (p in t.meshes[m].nodes <==> p in next.meshes[m].nodes || exists r :: r in nodes && r.mesh == m && r.at == p)
    ensures forall m, p :: m in meshes ==>
        (p in t.meshes[m].nodes <==> exists r :: r in nodes && r.mesh == m && r.at == p)
    ensures forall r :: r in nodes && r.mesh in t.meshes ==>
        r.at in t.meshes[r.mesh].specs && AsAsked(r, t.meshes[r.mesh].specs[r.at])
    ensures forall m, p :: m in next.meshes && p in next.meshes[m].specs && (forall r :: r in nodes ==> r.at != p) ==>
        p in t.meshes[m].specs && t.meshes[m].specs[p] == next.meshes[m].specs[p]
  {
    hide AsAsked;
    forall r | r in nodes ensures r.at in Asked(nodes, r.mesh) {
    }
  }

  // ---------------------------------------------------------------------------------------------
  // A Delete
  // ---------------------------------------------------------------------------------------------

  /** The mesh stays: not named, and not Dead or with a birth that is not named. */
  ghost predicate Stays(v: View, meshes: seq<string>, ids: seq<NodeId>, m: string) {
    m !in meshes &&
    ((exists x :: x in v.meshes && x.name == m && x.status != ScopeDead) || exists n ::
        n in v.nodes && n.mesh == m && n.id !in ids)
  }

  ghost predicate DeleteStands(v: View, meshes: seq<string>, ids: seq<NodeId>) {
    && (meshes != [] || ids != []) && NoRepeats(ids) && NoRepeats(meshes)
    && (forall id :: id in ids ==> exists n :: n in v.nodes && n.id == id)
    && (forall m :: m in meshes ==> Stays(v, [], ids, m))
    && (forall m :: Stays(v, meshes, ids, m) ==>
        ValidMeshName(m) && exists n :: n in v.nodes && n.mesh == m && n.kind == "node-admin" && n.id !in ids)
    && ((exists m :: Stays(v, meshes, ids, m)) || forall x :: x in v.meshes ==> x.status == ScopeDead)
  }

  /** A birth's location goes exactly when its id is named. */
  lemma GoneById(v: View, ids: seq<NodeId>, n: Node)
    requires v.WellFormed() && n in v.nodes
    ensures n.at in Gone(v, ids) <==> n.id in ids
  {
    hide Gone, BirthOf, View.WellFormed;
    GoneNamed(v, ids, n.at);
    if x :| x in v.nodes && x.at == n.at && x.id in ids { AtHeld(v, n.at); }
  }

  lemma StaysExactly(v: View, meshes: seq<string>, ids: seq<NodeId>, m: string)
    requires v.WellFormed()
    ensures Stays(v, meshes, ids, m) <==> Acceptance.Left(v, meshes, ids, m)
  {
    hide Gone, FirstAt, FirstOf, FirstNamed, HeldNames;
    HeldInExactly(v, m);
    forall n | n in v.nodes { GoneById(v, ids, n); }
    if x :| x in v.meshes && x.name == m && x.status != ScopeDead { assert v.MeshNamed(m) == Some(x); }
  }

  lemma EmptiedExactly(v: View, accepted: Topology, mint: string -> MeshId, ids: seq<NodeId>, m: string)
    requires v.WellFormed() && Filed(accepted)
    ensures m in Without(OfRecords(v, accepted, mint), Gone(v, ids), v).meshes <==> Stays(v, [], ids, m)
  {
    hide OfRecords, Gone, View.WellFormed, Filed, Stays, Acceptance.Left;
    LeftExactly(v, accepted, mint, [], ids, m);
    StaysExactly(v, [], ids, m);
    var w := Without(OfRecords(v, accepted, mint), Gone(v, ids), v);
    assert w.meshes - (set x: string | x in []) == w.meshes;
  }

  lemma NameableExactly(v: View, accepted: Topology, mint: string -> MeshId, id: NodeId)
    requires v.WellFormed() && Filed(accepted)
    ensures Nameable(OfRecords(v, accepted, mint), {}, id, v) <==> exists n :: n in v.nodes && n.id == id
  {
    hide BirthOf, OfRecords, View.WellFormed, Filed, Topology.SpecAt;
    ListedBirths(v, id);
    if BirthOf(v, id).Some? {
      var n := BirthOf(v, id).value;
      BirthOfListed(v, id, n);
      AtHeld(v, n.at);
      HeldSpec(v, accepted, mint, n.at);
      RecordsFiled(v, accepted, mint);
      ContainsFiled(OfRecords(v, accepted, mint), n.at);
    }
  }

  /** A mesh that stays with a node-admin keeps one of its admins. */
  lemma AdminKeptFrom(v: View, accepted: Topology, mint: string -> MeshId, meshes: seq<string>, ids: seq<NodeId>,
      m: string)
    requires v.WellFormed() && Filed(accepted) && m in OfRecords(v, accepted, mint).meshes
    requires Stays(v, meshes, ids, m) ==> exists n ::
        n in v.nodes && n.mesh == m && n.kind == "node-admin" && n.id !in ids
    ensures AdminKept(OfRecords(v, accepted, mint), m, {}, {} + Gone(v, ids), meshes, v)
  {
    hide Gone, View.WellFormed, Filed, OfRecords, HeldNames;
    var t := OfRecords(v, accepted, mint);
    if m !in meshes && !v.DeadMesh(m) {
      HeldRecords(v, accepted, mint);
      LiveStays(v, meshes, ids, m);
      var n :| n in v.nodes && n.mesh == m && n.kind == "node-admin" && n.id !in ids;
      AtHeld(v, n.at);
      HeldSpec(v, accepted, mint, n.at);
      KeptKind(accepted, n);
      GoneById(v, ids, n);
      assert n.at in t.meshes[m].Admins();
    }
  }

  lemma LiveStays(v: View, meshes: seq<string>, ids: seq<NodeId>, m: string)
    requires v.WellFormed() && HeldIn(v, m) && m !in meshes && !v.DeadMesh(m)
    ensures Stays(v, meshes, ids, m)
  {
    hide FirstAt, FirstOf, FirstNamed;
    if n :| n in v.nodes && n.mesh == m { assert v.HoldsMesh(n.mesh); }
  }

  /** A Delete is accepted exactly when it stands over the view. */
  lemma DeleteAcceptedByFields(accepted: Topology, meshes: seq<string>, ids: seq<NodeId>, v: View,
      replaced: set<PathName>, mints: Mints)
    requires v.WellFormed() && Filed(accepted)
    ensures CompileReplacing(accepted, Delete(meshes, ids), v, replaced, mints).Ok? <==> DeleteStands(v, meshes, ids)
  {
    hide CompileReplacing, View.WellFormed, Filed, OfRecords, Stays, Acceptance.Left, Gone, Nameable, AdminKept,
        ValidMeshName, NoRepeats, Without;
    var next := OfRecords(v, accepted, mints.mesh);
    DeleteAcceptedExactly(accepted, meshes, ids, v, replaced, mints);
    forall id { NameableExactly(v, accepted, mints.mesh, id); }
    forall m { EmptiedExactly(v, accepted, mints.mesh, ids, m); }
    forall m { StaysExactly(v, meshes, ids, m); }
    forall m { LeftExactly(v, accepted, mints.mesh, meshes, ids, m); }
    forall n | n in v.nodes { GoneById(v, ids, n); }
    if DeleteStands(v, meshes, ids) {
      forall m | m in next.meshes ensures AdminKept(next, m, {}, {} + Gone(v, ids), meshes, v) {
        AdminKeptFrom(v, accepted, mints.mesh, meshes, ids, m);
      }
    }
  }

  /** What an accepted Delete's topology holds: the meshes that stay, each with exactly its births that are not named,
      every create spec as it was. */
  lemma DeleteLeavesByFields(accepted: Topology, meshes: seq<string>, ids: seq<NodeId>, v: View,
      replaced: set<PathName>, mints: Mints)
    requires v.WellFormed() && Filed(accepted)
        && CompileReplacing(accepted, Delete(meshes, ids), v, replaced, mints).Ok?
    ensures
      var t := CompileReplacing(accepted, Delete(meshes, ids), v, replaced, mints).value;
      && t.fabric == v.fabric && t.provider == accepted.provider && t.pinned == [] && t.created == []
      && (forall m :: m in t.meshes <==> Stays(v, meshes, ids, m))
      && (forall m, p ::
          m in t.meshes ==>
            (p in t.meshes[m].nodes <==> exists n :: n in v.nodes && n.mesh == m && n.at == p && n.id !in ids))
      && (forall n ::
          n in v.nodes && n.id !in ids && n.mesh !in meshes ==>
            n.mesh in t.meshes && n.at in t.meshes[n.mesh].specs
                && SpecKept(accepted, n, t.meshes[n.mesh].specs[n.at]))
  {
    hide CompileReplacing, View.WellFormed, Filed, OfRecords, Stays, Acceptance.Left, Gone, DeleteAdmitted,
        SpecKept, HeldIn;
    var change := Delete(meshes, ids);
    var t, next := CompileReplacing(accepted, change, v, replaced, mints).value, OfRecords(v, accepted, mints.mesh);
    DeleteStages(accepted, change, v, replaced, mints);
    RecordsByFields(v, accepted, mints.mesh);
    forall m { StaysExactly(v, meshes, ids, m); }
    forall m { LeftExactly(v, accepted, mints.mesh, meshes, ids, m); }
    forall n | n in v.nodes { GoneById(v, ids, n); }
    forall n | n in v.nodes && n.id !in ids && n.mesh !in meshes ensures Stays(v, meshes, ids, n.mesh) {
      BirthStays(v, meshes, ids, n);
    }
  }

  lemma BirthStays(v: View, meshes: seq<string>, ids: seq<NodeId>, n: Node)
    requires n in v.nodes && n.id !in ids && n.mesh !in meshes
    ensures Stays(v, meshes, ids, n.mesh)
  {
  }

  /** A fabric's removal is always accepted: no mesh stays, and nothing is created or pinned. */
  lemma RemovalAccepted(accepted: Topology, v: View, replaced: set<PathName>, mints: Mints)
    requires v.WellFormed() && Filed(accepted)
    ensures CompileReplacing(accepted, RemoveFabric, v, replaced, mints) ==
        Ok(Topology(v.fabric, map[], accepted.provider, [], []))
  {
  }
}
