/** What stays the same from Build to Build: a standing node's create spec, a kept mesh's id; and what never comes back:
    a removed mesh's id. */
module Continuity {
  import opened Model
  import opened Changes
  import opened Records
  import opened Validation
  import opened Creation
  import opened Deletion
  import opened Compile

  // ---------------------------------------------------------------------------------------------
  // One acceptance, stage by stage
  // ---------------------------------------------------------------------------------------------

  /** What a Create enters, over what the records hold. */
  lemma CreateStages(accepted: Topology, change: Change, v: View, replaced: set<PathName>, mints: Mints)
    requires v.WellFormed() && Filed(accepted) && change.Create?
        && CompileReplacing(accepted, change, v, replaced, mints).Ok?
    ensures
      var t := CompileReplacing(accepted, change, v, replaced, mints).value;
      && AfterCreate(OfRecords(v, accepted, mints.mesh), t.(created := []), change.meshes, change.nodes, mints.mesh)
      && CreateAdmitted(OfRecords(v, accepted, mints.mesh), change.meshes, change.nodes, v, replaced)
      && t.created == Mint([], Paths(CreatedPaths(change)), mints.node) && t.pinned == []
      && (t.meshes == map[] || t.WellFormed())
  {
    hide Created, Filed, Validate, Mint, CreatedPaths, View.WellFormed, MeshWellFormed, Filled, HeldMesh, HeldNames,
        CreateAdmitted;
    AcceptedWellFormed(accepted, change, v, replaced, mints);
    CreatedExactly(OfRecords(v, accepted, mints.mesh), change.meshes, change.nodes, v, replaced, mints.mesh);
  }

  /** What a Delete leaves, of what the records hold. */
  lemma DeleteStages(accepted: Topology, change: Change, v: View, replaced: set<PathName>, mints: Mints)
    requires v.WellFormed() && Filed(accepted) && change.Delete?
        && CompileReplacing(accepted, change, v, replaced, mints).Ok?
    ensures
      var t := CompileReplacing(accepted, change, v, replaced, mints).value;
      && t == AfterDelete(OfRecords(v, accepted, mints.mesh), change.meshes, change.ids, v)
      && DeleteAdmitted(OfRecords(v, accepted, mints.mesh), change.meshes, change.ids, v)
      && t.created == [] && t.pinned == []
      && (t.meshes == map[] || t.WellFormed())
  {
    hide Removed, Filed, Validate, View.WellFormed, MeshWellFormed, HeldMesh, HeldNames, DeleteAdmitted, Gone;
    RecordsFiled(v, accepted, mints.mesh);
    AcceptedWellFormed(accepted, change, v, replaced, mints);
    RemovedExactly(OfRecords(v, accepted, mints.mesh), change.meshes, change.ids, v);
    NothingCreated(change);
  }

  lemma NothingCreated(change: Change)
    requires !change.Create?
    ensures Paths(CreatedPaths(change)) == []
  {
  }

  lemma HeldSpec(v: View, accepted: Topology, mint: string -> MeshId, p: PathName)
    requires v.WellFormed() && Filed(accepted)
    ensures v.At(p).Some? ==>
              var n := v.At(p).value;
              n.mesh in OfRecords(v, accepted, mint).meshes && p in OfRecords(v, accepted, mint).meshes[n.mesh].nodes
              && p in OfRecords(v, accepted, mint).meshes[n.mesh].specs
              && OfRecords(v, accepted, mint).meshes[n.mesh].specs[p] == KeptSpec(accepted, n)
    ensures forall m ::
        m in OfRecords(v, accepted, mint).meshes && p in OfRecords(v, accepted, mint).meshes[m].nodes ==>
              v.At(p).Some? && v.At(p).value.mesh == m
  {
    hide KeptSpec, HeldId, Filed;
    forall m { HeldMeshFiled(v, accepted, m, mint); }
    if v.At(p).Some? { HeldNamesAre(v); }
  }

  /** Accepted, a Create names a held path only under the mesh that holds it: a replacement under another mesh is
      refused. */
  lemma ReplacedInItsOwnMesh(accepted: Topology, change: Change, v: View, replaced: set<PathName>, mints: Mints,
      r: NodeRequest)
    requires v.WellFormed() && Filed(accepted) && change.Create? && r in change.nodes && v.At(r.at).Some?
    ensures CompileReplacing(accepted, change, v, replaced, mints).Ok? ==>
        v.At(r.at).value.mesh == r.mesh && r.at in replaced
  {
    if CompileReplacing(accepted, change, v, replaced, mints).Ok? {
      hide CompileReplacing, Filed, OfRecords, CreateAdmitted, View.WellFormed, MeshWellFormed, View.At;
      CreateStages(accepted, change, v, replaced, mints);
      var t := CompileReplacing(accepted, change, v, replaced, mints).value;
      HeldSpec(v, accepted, mints.mesh, r.at);
      AdmittedMesh(OfRecords(v, accepted, mints.mesh), change.meshes, change.nodes, v, replaced, r);
      assert r.at in Asked(change.nodes, r.mesh);
      assert r.at in t.meshes[r.mesh].nodes;
      assert r.at in t.meshes[v.At(r.at).value.mesh].nodes;
    }
  }

  lemma AdmittedMesh(next: Topology, meshes: seq<string>, nodes: seq<NodeRequest>, v: View, replaced: set<PathName>,
      r: NodeRequest)
    requires CreateAdmitted(next, meshes, nodes, v, replaced) && r in nodes
    ensures r.mesh in next.meshes || r.mesh in meshes
    ensures v.At(r.at).Some? ==> r.at in replaced
  {
  }

  // ---------------------------------------------------------------------------------------------
  // The node ids minted at acceptance
  // ---------------------------------------------------------------------------------------------

  ghost predicate KeysOnce<K(!new), V(!new)>(s: seq<(K, V)>) {
    forall i, j :: 0 <= i < j < |s| ==> s[i].0 != s[j].0
  }

  lemma {:induction false} LookupAppend<K, V>(s: seq<(K, V)>, k: K, v: V, p: K)
    ensures Lookup(s + [(k, v)], p) == if Lookup(s, p).Some? then Lookup(s, p) else if p == k then Some(v) else None
  {
    if s != [] {
      LookupAppend(s[1..], k, v, p);
      assert (s + [(k, v)])[1..] == s[1..] + [(k, v)];
    }
  }

  lemma {:induction false} MintedAt(created: seq<(PathName, NodeId)>, paths: seq<PathName>, mint: PathName -> NodeId,
      p: PathName)
    ensures Lookup(Mint(created, paths, mint), p) ==
            if Lookup(created, p).Some? then Lookup(created, p) else if p in paths then Some(mint(p)) else None
    ensures KeysOnce(created) ==> KeysOnce(Mint(created, paths, mint))
    decreases |paths|
  {
    hide KeysOnce;
    if paths != [] {
      var q := paths[0];
      var grown := if Lookup(created, q).Some? then created else created + [(q, mint(q))];
      LookupAppend(created, q, mint(q), p);
      if Lookup(created, q).None? && KeysOnce(created) { AppendOnce(created, q, mint(q)); }
      MintedAt(grown, paths[1..], mint, p);
      assert p in paths <==> p == q || p in paths[1..];
    }
  }

  lemma AppendOnce(created: seq<(PathName, NodeId)>, q: PathName, id: NodeId)
    requires Lookup(created, q).None? && KeysOnce(created)
    ensures KeysOnce(created + [(q, id)])
  {
  }

  /** A Build creates exactly the locations its change lists, each under the id minted for it. */
  lemma CreatesExactlyWhatIsListed(accepted: Topology, change: Change, v: View, replaced: set<PathName>, mints: Mints,
      p: PathName)
    requires v.WellFormed() && Filed(accepted) && CompileReplacing(accepted, change, v, replaced, mints).Ok?
    ensures
      var t := CompileReplacing(accepted, change, v, replaced, mints).value;
      t.CreatedId(p) == if change.Create? && (exists r :: r in change.nodes && r.at == p) then Some(mints.node(p))
          else None
  {
    hide Mint, Filed, AfterCreate, OfRecords;
    if change.Create? {
      CreateStages(accepted, change, v, replaced, mints);
      MintedAt([], Paths(CreatedPaths(change)), mints.node, p);
      ListedValid(OfRecords(v, accepted, mints.mesh), change.meshes, change.nodes, v, replaced);
    } else if change.Delete? {
      DeleteStages(accepted, change, v, replaced, mints);
    } else {
      RecordsCreateNothing(v, accepted, mints.mesh);
    }
  }

  lemma RecordsCreateNothing(v: View, accepted: Topology, mint: string -> MeshId)
    ensures OfRecords(v, accepted, mint).created == [] && OfRecords(v, accepted, mint).pinned == []
  {
  }

  lemma ListedValid(next: Topology, meshes: seq<string>, nodes: seq<NodeRequest>, v: View, replaced: set<PathName>)
    requires CreateAdmitted(next, meshes, nodes, v, replaced)
    ensures forall p :: p in CreatedPaths(Create(meshes, nodes)) <==> exists r :: r in nodes && r.at == p
  {
  }

  // ---------------------------------------------------------------------------------------------
  // Builds in sequence
  // ---------------------------------------------------------------------------------------------

  datatype Acceptance = Acceptance(change: Change, view: View, replaced: set<PathName>, mints: Mints)

  /** Each topology is what its Build was accepted with, over the one before it. */
  ghost predicate History(ts: seq<Topology>, builds: seq<Acceptance>) {
    |ts| == |builds| + 1 && Filed(ts[0]) &&
    forall i :: 0 <= i < |builds| ==> Next(ts[i], builds[i], ts[i + 1])
  }

  ghost predicate Next(t: Topology, b: Acceptance, t': Topology) {
    b.view.WellFormed() && Filed(t) && CompileReplacing(t, b.change, b.view, b.replaced, b.mints) == Ok(t')
  }

  ghost predicate Lists(b: Acceptance, p: PathName) {
    b.change.Create? && exists r :: r in b.change.nodes && r.at == p
  }

  /** The view holds the node at `p` with the type and mesh of its accepted spec, and the Build neither names it nor
      drops it. */
  ghost predicate Untouched(t: Topology, b: Acceptance, t': Topology, p: PathName) {
    && t.Contains(p) && t'.Contains(p) && !Lists(b, p)
    && b.view.At(p).Some? && b.view.At(p).value.kind == t.SpecAt(p).value.kind
        && b.view.At(p).value.mesh == t.SpecAt(p).value.mesh
  }

  /** The records carry an untouched node's accepted spec, in its own mesh and no other. */
  lemma CarriedByRecords(t: Topology, b: Acceptance, t': Topology, p: PathName)
    requires Next(t, b, t') && Untouched(t, b, t', p)
    ensures
      var next := OfRecords(b.view, t, b.mints.mesh);
      forall m :: m in next.meshes && p in next.meshes[m].nodes ==>
        p in next.meshes[m].specs && Some(next.meshes[m].specs[p]) == t.SpecAt(p)
  {
    hide Filed, OfRecords, View.WellFormed, View.At, Topology.SpecAt, CompileReplacing;
    HeldSpec(b.view, t, b.mints.mesh, p);
    StillItsSpec(t, b.view.At(p).value, p);
  }

  lemma SpecKeptOnce(t: Topology, b: Acceptance, t': Topology, p: PathName)
    requires Next(t, b, t') && Untouched(t, b, t', p)
    ensures t'.SpecAt(p) == t.SpecAt(p)
  {
    hide Filed, OfRecords, View.WellFormed, View.At, Topology.SpecAt, CompileReplacing, AfterCreate, AfterDelete;
    CarriedByRecords(t, b, t', p);
    AcceptedWellFormed(t, b.change, b.view, b.replaced, b.mints);
    OwnedByItsMesh(t', p);
    KeptInNext(t, b, t', t'.SpecAt(p).value.mesh, p);
  }

  /** A location the next topology holds and the Build does not list was in the records, as it is now. */
  lemma KeptInNext(t: Topology, b: Acceptance, t': Topology, m: string, p: PathName)
    requires Next(t, b, t') && !Lists(b, p) && m in t'.meshes && p in t'.meshes[m].nodes && p in t'.meshes[m].specs
    ensures
      var next := OfRecords(b.view, t, b.mints.mesh);
      m in next.meshes && p in next.meshes[m].nodes
          && (p in next.meshes[m].specs ==> t'.meshes[m].specs[p] == next.meshes[m].specs[p])
  {
    hide Filed, OfRecords, View.WellFormed, View.At, Topology.SpecAt, CompileReplacing, AfterCreate, AfterDelete,
        DeleteAdmitted;
    match b.change {
      case Create(meshes, nodes) =>
        CreateStages(t, b.change, b.view, b.replaced, b.mints);
        FilledElsewhere(OfRecords(b.view, t, b.mints.mesh), t', meshes, nodes, b.mints.mesh, m, p);
      case Delete(meshes, ids) =>
        DeleteStages(t, b.change, b.view, b.replaced, b.mints);
        CutElsewhere(OfRecords(b.view, t, b.mints.mesh), meshes, ids, b.view, m, p);
      case RemoveFabric =>
        RemovedWhole(t, b, t');
    }
  }

  lemma StillItsSpec(t: Topology, n: Node, p: PathName)
    requires Filed(t) && t.Contains(p) && n.at == p && n.kind == t.SpecAt(p).value.kind
        && n.mesh == t.SpecAt(p).value.mesh
    ensures t.SpecAt(p) == Some(KeptSpec(t, n))
  {
  }

  lemma FilledElsewhere(next: Topology, t: Topology, meshes: seq<string>, nodes: seq<NodeRequest>,
      mint: string -> MeshId, m: string, p: PathName)
    requires AfterCreate(next, t.(created := []), meshes, nodes, mint) && m in t.meshes && p in t.meshes[m].nodes
        && p in t.meshes[m].specs
    requires forall r :: r in nodes ==> r.at != p
    requires forall x :: x in meshes ==> x !in next.meshes
    ensures m in next.meshes && p in next.meshes[m].nodes
        && (p in next.meshes[m].specs ==> t.meshes[m].specs[p] == next.meshes[m].specs[p])
  {
    assert p !in Asked(nodes, m);
  }

  lemma CutElsewhere(next: Topology, meshes: seq<string>, ids: seq<NodeId>, v: View, m: string, p: PathName)
    requires m in AfterDelete(next, meshes, ids, v).meshes && p in AfterDelete(next, meshes, ids, v).meshes[m].nodes
    ensures m in next.meshes && p in next.meshes[m].nodes && p !in Gone(v, ids)
    ensures p in next.meshes[m].specs ==>
        AfterDelete(next, meshes, ids, v).meshes[m].specs[p] == next.meshes[m].specs[p]
  {
    hide Gone;
  }

  lemma RemovedWhole(t: Topology, b: Acceptance, t': Topology)
    requires Next(t, b, t') && b.change.RemoveFabric?
    ensures t'.meshes == map[]
  {
  }

  /** Over any run of Builds that leaves a standing node alone, its whole create spec never changes. */
  lemma {:induction false} SpecContinuity(ts: seq<Topology>, builds: seq<Acceptance>, p: PathName, i: nat, j: nat)
    requires History(ts, builds) && i <= j <= |builds|
    requires forall k :: i <= k < j ==> Untouched(ts[k], builds[k], ts[k + 1], p)
    ensures ts[j].SpecAt(p) == ts[i].SpecAt(p)
    decreases j - i
  {
    hide Next, Untouched, Topology.SpecAt, Filed;
    if i < j {
      SpecContinuity(ts, builds, p, i, j - 1);
      SpecKeptOnce(ts[j - 1], builds[j - 1], ts[j], p);
    }
  }

  /** The mesh is accepted, the records hold it, and state its accepted id or none. */
  ghost predicate MeshCarried(t: Topology, b: Acceptance, t': Topology, m: string) {
    && m in t.meshes && m in t'.meshes && m in HeldNames(b.view)
    && (b.view.MeshNamed(m).Some? && b.view.MeshNamed(m).value.id.Some? ==>
        b.view.MeshNamed(m).value.id.value == t.meshes[m].id)
  }

  lemma MeshIdKeptOnce(t: Topology, b: Acceptance, t': Topology, m: string)
    requires Next(t, b, t') && MeshCarried(t, b, t', m)
    ensures t'.meshes[m].id == t.meshes[m].id
  {
    hide Filed, View.WellFormed, CompileReplacing, DeleteAdmitted, Gone, Filled, CreateAdmitted;
    match b.change {
      case Create(meshes, nodes) =>
        CreateStages(t, b.change, b.view, b.replaced, b.mints);
        FilledId(OfRecords(b.view, t, b.mints.mesh), t', meshes, nodes, b.mints.mesh, m);
      case Delete(meshes, ids) =>
        DeleteStages(t, b.change, b.view, b.replaced, b.mints);
      case RemoveFabric =>
        RemovedWhole(t, b, t');
    }
  }

  lemma FilledId(next: Topology, t: Topology, meshes: seq<string>, nodes: seq<NodeRequest>, mint: string -> MeshId,
      m: string)
    requires AfterCreate(next, t.(created := []), meshes, nodes, mint)
    ensures m in next.meshes ==> m in t.meshes && t.meshes[m].id == next.meshes[m].id
    ensures m in meshes ==> m in t.meshes && t.meshes[m].id == mint(m)
  {
  }

  /** Over any run of Builds that keeps a mesh, its id never changes. */
  lemma {:induction false} MeshIdContinuity(ts: seq<Topology>, builds: seq<Acceptance>, m: string, i: nat, j: nat)
    requires History(ts, builds) && i <= j <= |builds| && m in ts[i].meshes
    requires forall k :: i <= k < j ==> MeshCarried(ts[k], builds[k], ts[k + 1], m)
    ensures m in ts[j].meshes && ts[j].meshes[m].id == ts[i].meshes[m].id
    decreases j - i
  {
    hide Next, HeldNames, Filed;
    if i < j {
      MeshIdContinuity(ts, builds, m, i, j - 1);
      MeshIdKeptOnce(ts[j - 1], builds[j - 1], ts[j], m);
    }
  }

  /** No id minted at an acceptance was held by a mesh of an earlier topology. */
  ghost predicate FreshMeshIds(ts: seq<Topology>, builds: seq<Acceptance>)
    requires |ts| == |builds| + 1
  {
    forall i, k, m, m' :: 0 <= i <= k < |builds| && m in ts[i].meshes ==> builds[k].mints.mesh(m') != ts[i].meshes[m].id
  }

  /** A mesh a Build creates enters under an id no mesh ever had before it: a mesh removed and created again is a new
      mesh. */
  lemma RecreatedMeshIsNew(ts: seq<Topology>, builds: seq<Acceptance>, m: string, k: nat)
    requires History(ts, builds) && FreshMeshIds(ts, builds) && k < |builds|
    requires builds[k].change.Create? && m in builds[k].change.meshes
    ensures m in ts[k + 1].meshes && ts[k + 1].meshes[m].id == builds[k].mints.mesh(m)
    ensures forall i, m' :: 0 <= i <= k && m' in ts[i].meshes ==> ts[i].meshes[m'].id != ts[k + 1].meshes[m].id
  {
    hide Filed, View.WellFormed, CompileReplacing, AfterCreate, OfRecords, CreateAdmitted;
    var b := builds[k];
    assert Next(ts[k], b, ts[k + 1]);
    CreateStages(ts[k], b.change, b.view, b.replaced, b.mints);
    FilledId(OfRecords(b.view, ts[k], b.mints.mesh), ts[k + 1], b.change.meshes, b.change.nodes, b.mints.mesh, m);
  }
}
