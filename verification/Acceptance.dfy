/** Exactly which changes an acceptance compiles, in terms of the change and the view it is submitted over. */
module Acceptance {
  import opened Order
  import opened Model
  import opened Changes
  import opened Records
  import opened Validation
  import opened Creation
  import opened Deletion
  import opened Compile

  // ---------------------------------------------------------------------------------------------
  // A Create
  // ---------------------------------------------------------------------------------------------

  /** A birth of mesh `m` that is a node-admin and that no request replaces. */
  ghost predicate AdminStays(v: View, nodes: seq<NodeRequest>, m: string) {
    exists n :: n in v.nodes && n.mesh == m && n.kind == NODE_ADMIN && n.at !in Asked(nodes, m)
  }

  /** Every request for a held location is in the mesh that holds it, and every held mesh has a valid name and is left a
      node-admin. */
  ghost predicate CreateFits(v: View, nodes: seq<NodeRequest>) {
    && (forall r :: r in nodes && v.At(r.at).Some? ==> v.At(r.at).value.mesh == r.mesh)
    && (forall m :: m in HeldNames(v) ==> ValidMeshName(m) && (AdminStays(v, nodes, m) || AdminListed(m, nodes)))
  }

  lemma KeptKind(accepted: Topology, n: Node)
    ensures KeptSpec(accepted, n).kind == n.kind
  {
  }

  /** A held mesh, its requests entered: its specs match, and it has an admin exactly when one stays or is listed. */
  lemma HeldFilled(v: View, accepted: Topology, mint: string -> MeshId, m: string, filled: MeshTopology,
      nodes: seq<NodeRequest>)
    requires v.WellFormed() && Filed(accepted) && Filled(m, HeldMesh(v.nodes, v, accepted, m, mint), filled, nodes)
    ensures SpecsMatch(m, filled) && filled.name == m
    ensures filled.Admins() != {} <==> AdminStays(v, nodes, m) || AdminListed(m, nodes)
  {
    hide Filed, FirstAt, FirstOf, KeptSpec, View.WellFormed;
    var base := HeldMesh(v.nodes, v, accepted, m, mint);
    HeldMeshFiled(v, accepted, m, mint);
    assert forall p :: p in filled.specs ==> filled.specs[p].mesh == m && filled.specs[p].at == p;
    if p :| p in filled.Admins() {
      if p in Asked(nodes, m) {
        var r :| r in nodes && r.mesh == m && r.at == p;
      } else {
        KeptKind(accepted, v.At(p).value);
        assert v.At(p).value in v.nodes;
      }
    }
    if n :| n in v.nodes && n.mesh == m && n.kind == NODE_ADMIN && n.at !in Asked(nodes, m) {
      KeptKind(accepted, n);
      BirthAt(v, n);
      assert n.at in filled.Admins();
    }
    if r :| r in nodes && r.mesh == m && r.kind == NODE_ADMIN {
      assert r.at in Asked(nodes, m) && r.at in filled.Admins();
    }
  }

  lemma BirthAt(v: View, n: Node)
    requires v.WellFormed() && n in v.nodes
    ensures v.At(n.at) == Some(n)
  {
  }

  lemma ListedFilled(m: string, id: MeshId, filled: MeshTopology, nodes: seq<NodeRequest>)
    requires Filled(m, MeshTopology(m, id, {}, map[]), filled, nodes)
    ensures SpecsMatch(m, filled) && filled.name == m && (filled.Admins() != {} <==> AdminListed(m, nodes))
  {
    FilledAdmins(m, id, filled, nodes);
    assert forall p :: p in filled.specs ==> filled.specs[p].mesh == m && filled.specs[p].at == p;
  }

  /** The locations of a mesh once the Create is entered. */
  lemma FilledNodes(v: View, accepted: Topology, mint: string -> MeshId, t: Topology, meshes: seq<string>,
      nodes: seq<NodeRequest>, m: string, p: PathName)
    requires v.WellFormed() && Filed(accepted) && m in t.meshes
    requires AfterCreate(OfRecords(v, accepted, mint), t, meshes, nodes, mint) && forall x ::
        x in meshes ==> x !in HeldNames(v)
    ensures p in t.meshes[m].nodes <==>
        p in Asked(nodes, m) || (m in HeldNames(v) && v.At(p).Some? && v.At(p).value.mesh == m)
  {
    hide Filed, FirstAt, FirstOf, KeptSpec, View.WellFormed, HeldMesh, HeldNames;
    if m in HeldNames(v) { HeldMeshFiled(v, accepted, m, mint); }
  }

  /** No location is in two meshes exactly when every request for a held location is in the mesh that holds it. */
  lemma FilledApart(v: View, accepted: Topology, mint: string -> MeshId, t: Topology, meshes: seq<string>,
      nodes: seq<NodeRequest>)
    requires v.WellFormed() && Filed(accepted) && Distinct(nodes)
    requires AfterCreate(OfRecords(v, accepted, mint), t, meshes, nodes, mint) && forall x ::
        x in meshes ==> x !in HeldNames(v)
    requires forall r :: r in nodes ==> r.mesh in t.meshes
    ensures (forall m, m' ::
        m in t.meshes && m' in t.meshes && m != m' ==> t.meshes[m].nodes !! t.meshes[m'].nodes) <==>
            (forall r :: r in nodes && v.At(r.at).Some? ==> v.At(r.at).value.mesh == r.mesh)
  {
    hide Filed, FirstAt, FirstOf, View.WellFormed, HeldNames, OfRecords, View.At, Distinct, AfterCreate, Asked;
    if forall r :: r in nodes && v.At(r.at).Some? ==> v.At(r.at).value.mesh == r.mesh {
      forall m, m' | m in t.meshes && m' in t.meshes && m != m' ensures t.meshes[m].nodes !! t.meshes[m'].nodes {
        forall p | p in t.meshes[m].nodes ensures p !in t.meshes[m'].nodes {
          OneHolder(v, accepted, mint, t, meshes, nodes, m, m', p);
        }
      }
    }
    if r :| r in nodes && v.At(r.at).Some? && v.At(r.at).value.mesh != r.mesh {
      TwoHolders(v, accepted, mint, t, meshes, nodes, r);
    }
  }

  lemma OneHolder(v: View, accepted: Topology, mint: string -> MeshId, t: Topology, meshes: seq<string>,
      nodes: seq<NodeRequest>, m: string, m': string, p: PathName)
    requires v.WellFormed() && Filed(accepted) && Distinct(nodes) && m in t.meshes && m' in t.meshes && m != m'
        && p in t.meshes[m].nodes
    requires AfterCreate(OfRecords(v, accepted, mint), t, meshes, nodes, mint) && forall x ::
        x in meshes ==> x !in HeldNames(v)
    requires forall r :: r in nodes && v.At(r.at).Some? ==> v.At(r.at).value.mesh == r.mesh
    ensures p !in t.meshes[m'].nodes
  {
    hide Filed, FirstAt, FirstOf, View.WellFormed, HeldNames, OfRecords, View.At, Distinct, AfterCreate;
    FilledNodes(v, accepted, mint, t, meshes, nodes, m, p);
    FilledNodes(v, accepted, mint, t, meshes, nodes, m', p);
    AskedApart(nodes, m, m', p);
  }

  lemma TwoHolders(v: View, accepted: Topology, mint: string -> MeshId, t: Topology, meshes: seq<string>,
      nodes: seq<NodeRequest>, r: NodeRequest)
    requires v.WellFormed() && Filed(accepted) && r in nodes && v.At(r.at).Some? && r.mesh in t.meshes
    requires AfterCreate(OfRecords(v, accepted, mint), t, meshes, nodes, mint) && forall x ::
        x in meshes ==> x !in HeldNames(v)
    ensures v.At(r.at).value.mesh in t.meshes && r.at in t.meshes[v.At(r.at).value.mesh].nodes
        && r.at in t.meshes[r.mesh].nodes
  {
    hide Filed, FirstAt, FirstOf, View.WellFormed, HeldNames, OfRecords, View.At, Distinct, AfterCreate;
    HolderHeld(v, accepted, mint, t, meshes, nodes, r.at);
    FilledNodes(v, accepted, mint, t, meshes, nodes, v.At(r.at).value.mesh, r.at);
    FilledNodes(v, accepted, mint, t, meshes, nodes, r.mesh, r.at);
    assert r.at in Asked(nodes, r.mesh);
  }

  lemma AskedApart(nodes: seq<NodeRequest>, m: string, m': string, p: PathName)
    requires Distinct(nodes) && m != m'
    ensures p in Asked(nodes, m) ==> p !in Asked(nodes, m')
  {
  }

  lemma HolderHeld(v: View, accepted: Topology, mint: string -> MeshId, t: Topology, meshes: seq<string>,
      nodes: seq<NodeRequest>, p: PathName)
    requires v.WellFormed() && v.At(p).Some? && AfterCreate(OfRecords(v, accepted, mint), t, meshes, nodes, mint)
    ensures v.At(p).value.mesh in HeldNames(v) && v.At(p).value.mesh in t.meshes
  {
    hide FirstAt, FirstOf, HeldMesh, Filled;
    HeldNamesAre(v);
    assert v.At(p).value in v.nodes;
  }

  /** Entered, a Create's topology is well formed exactly when the Create fits the view. */
  lemma FitsExactly(v: View, accepted: Topology, mint: string -> MeshId, t: Topology, meshes: seq<string>,
      nodes: seq<NodeRequest>, replaced: set<PathName>)
    requires v.WellFormed() && Filed(accepted)
        && CreateAdmitted(OfRecords(v, accepted, mint), meshes, nodes, v, replaced)
    requires AfterCreate(OfRecords(v, accepted, mint), t, meshes, nodes, mint)
    ensures t.meshes != map[] && (t.WellFormed() <==> CreateFits(v, nodes))
  {
    hide Filed, FirstAt, FirstOf, View.WellFormed, HeldMesh, HeldNames, View.At, Filled, AdminStays, AdminListed,
        ValidMeshName, SpecsMatch, MeshTopology.Admins, Distinct;
    AdmittedIn(v, accepted, mint, t, meshes, nodes, replaced);
    FilledApart(v, accepted, mint, t, meshes, nodes);
    forall m | m in HeldNames(v)
      ensures MeshWellFormed(m, t.meshes[m]) <==> ValidMeshName(m) && (AdminStays(v, nodes, m) || AdminListed(m, nodes))
    {
      HeldFilled(v, accepted, mint, m, t.meshes[m], nodes);
    }
    forall m | m in meshes ensures MeshWellFormed(m, t.meshes[m]) { ListedFilled(m, mint(m), t.meshes[m], nodes); }
  }

  lemma AdmittedIn(v: View, accepted: Topology, mint: string -> MeshId, t: Topology, meshes: seq<string>,
      nodes: seq<NodeRequest>, replaced: set<PathName>)
    requires CreateAdmitted(OfRecords(v, accepted, mint), meshes, nodes, v, replaced)
    requires AfterCreate(OfRecords(v, accepted, mint), t, meshes, nodes, mint)
    ensures t.meshes.Keys == HeldNames(v) + Listed(meshes) && t.meshes != map[] && Distinct(nodes)
    ensures forall r :: r in nodes ==> r.mesh in t.meshes
    ensures forall m :: m in meshes ==> m !in HeldNames(v) && ValidMeshName(m) && AdminListed(m, nodes)
  {
    hide HeldMesh, HeldNames, Filled, ValidMeshName, ValidPathName, ValidTags, View.At, Distinct, AdminListed;
    if meshes != [] { assert meshes[0] in t.meshes; } else { assert nodes[0] in nodes && nodes[0].mesh in t.meshes; }
  }

  /** A Create is compiled exactly when it is admitted and fits the view. */
  lemma CreateAcceptedExactly(accepted: Topology, meshes: seq<string>, nodes: seq<NodeRequest>, v: View,
      replaced: set<PathName>, mints: Mints)
    requires v.WellFormed() && Filed(accepted)
    ensures CompileReplacing(accepted, Create(meshes, nodes), v, replaced, mints).Ok? <==>
            CreateAdmitted(OfRecords(v, accepted, mints.mesh), meshes, nodes, v, replaced) && CreateFits(v, nodes)
  {
    hide Created, Filed, Validate, Mint, CreatedPaths, View.WellFormed, MeshWellFormed, Filled, OfRecords,
        CreateAdmitted, CreateFits;
    var next := OfRecords(v, accepted, mints.mesh);
    CreatedExactly(next, meshes, nodes, v, replaced, mints.mesh);
    if CreateAdmitted(next, meshes, nodes, v, replaced) {
      var t := Created(next, meshes, nodes, v, replaced, mints.mesh).value;
      FitsExactly(v, accepted, mints.mesh, t, meshes, nodes, replaced);
      ValidateExactly(t);
    }
  }

  // ---------------------------------------------------------------------------------------------
  // A Delete
  // ---------------------------------------------------------------------------------------------

  /** A mesh the Delete leaves: held, not listed, and not a deleted mesh whose every birth it names. */
  ghost predicate Left(v: View, meshes: seq<string>, ids: seq<NodeId>, m: string) {
    && m in HeldNames(v) && m !in meshes
    && (v.DeadMesh(m) ==>
        (forall n :: n in v.nodes ==> n.mesh != m) || exists n :: n in v.nodes && n.mesh == m && n.at !in Gone(v, ids))
  }

  /** Every mesh the Delete leaves has a valid name and a node-admin it does not name. */
  ghost predicate DeleteFits(v: View, meshes: seq<string>, ids: seq<NodeId>) {
    forall m :: Left(v, meshes, ids, m) ==>
      ValidMeshName(m) && exists n :: n in v.nodes && n.mesh == m && n.kind == NODE_ADMIN && n.at !in Gone(v, ids)
  }

  lemma LeftExactly(v: View, accepted: Topology, mint: string -> MeshId, meshes: seq<string>, ids: seq<NodeId>,
      m: string)
    requires v.WellFormed() && Filed(accepted)
    ensures m in AfterDelete(OfRecords(v, accepted, mint), meshes, ids, v).meshes <==> Left(v, meshes, ids, m)
  {
    hide Filed, FirstAt, FirstOf, KeptSpec, View.WellFormed, Gone, View.DeadMesh, HeldNames, HeldMesh, View.At;
    if m in HeldNames(v) {
      HeldMeshFiled(v, accepted, m, mint);
      var held := HeldMesh(v.nodes, v, accepted, m, mint).nodes;
      forall n | n in v.nodes && n.mesh == m ensures n.at in held { BirthAt(v, n); }
      forall p | p in held
        ensures v.At(p).Some? && v.At(p).value in v.nodes && v.At(p).value.at == p && v.At(p).value.mesh == m
      {
        HeldBirth(v, p);
      }
    }
  }

  lemma HeldBirth(v: View, p: PathName)
    requires v.At(p).Some?
    ensures v.At(p).value in v.nodes && v.At(p).value.at == p
  {
  }

  /** A mesh left is well formed exactly when its name is valid and it is left a node-admin. */
  lemma LeftFits(v: View, accepted: Topology, mint: string -> MeshId, meshes: seq<string>, ids: seq<NodeId>, m: string)
    requires v.WellFormed() && Filed(accepted) && m in AfterDelete(OfRecords(v, accepted, mint), meshes, ids, v).meshes
    ensures
      var left := AfterDelete(OfRecords(v, accepted, mint), meshes, ids, v).meshes[m];
      MeshWellFormed(m, left) <==>
          ValidMeshName(m) && exists n :: n in v.nodes && n.mesh == m && n.kind == NODE_ADMIN && n.at !in Gone(v, ids)
  {
    hide Filed, FirstAt, FirstOf, KeptSpec, View.WellFormed, Gone, View.DeadMesh, HeldNames, View.At, ValidMeshName,
        StandingIn;
    var base := HeldMesh(v.nodes, v, accepted, m, mint);
    var left := AfterDelete(OfRecords(v, accepted, mint), meshes, ids, v).meshes[m];
    assert left == Cut(base, Gone(v, ids));
    HeldMeshFiled(v, accepted, m, mint);
    CutAdmins(base, Gone(v, ids));
    if p :| p in left.Admins() {
      HeldBirth(v, p);
      KeptKind(accepted, v.At(p).value);
    }
    if n :| n in v.nodes && n.mesh == m && n.kind == NODE_ADMIN && n.at !in Gone(v, ids) {
      BirthAt(v, n);
      KeptKind(accepted, n);
      assert n.at in left.Admins();
    }
  }

  /** A Delete is compiled exactly when it is admitted and what it leaves fits. */
  lemma DeleteAcceptedExactly(accepted: Topology, meshes: seq<string>, ids: seq<NodeId>, v: View,
      replaced: set<PathName>, mints: Mints)
    requires v.WellFormed() && Filed(accepted)
    ensures CompileReplacing(accepted, Delete(meshes, ids), v, replaced, mints).Ok? <==>
            DeleteAdmitted(OfRecords(v, accepted, mints.mesh), meshes, ids, v) && DeleteFits(v, meshes, ids)
  {
    hide Removed, Validate, Mint, CreatedPaths, View.WellFormed, MeshWellFormed, OfRecords, DeleteAdmitted,
        AfterDelete, Left, ValidMeshName, Gone;
    var next := OfRecords(v, accepted, mints.mesh);
    RecordsFiled(v, accepted, mints.mesh);
    RemovedExactly(next, meshes, ids, v);
    if DeleteAdmitted(next, meshes, ids, v) {
      var t := AfterDelete(next, meshes, ids, v);
      forall m
        ensures m in t.meshes <==> Left(v, meshes, ids, m)
      {
        LeftExactly(v, accepted, mints.mesh, meshes, ids, m);
      }
      forall m | m in t.meshes
        ensures MeshWellFormed(m, t.meshes[m]) <==>
            ValidMeshName(m) && exists n :: n in v.nodes && n.mesh == m && n.kind == NODE_ADMIN && n.at !in Gone(v, ids)
      {
        LeftFits(v, accepted, mints.mesh, meshes, ids, m);
      }
      LeftApart(next, meshes, ids, v);
      ValidateExactly(t);
    }
  }

  lemma LeftApart(next: Topology, meshes: seq<string>, ids: seq<NodeId>, v: View)
    requires Filed(next)
    ensures
      var t := AfterDelete(next, meshes, ids, v);
      forall m, m' :: m in t.meshes && m' in t.meshes && m != m' ==> t.meshes[m].nodes !! t.meshes[m'].nodes
  {
    hide Gone, View.DeadMesh;
  }
}
