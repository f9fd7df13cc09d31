/** Acceptance: one submitted change applied once to the topology the fabric-primary's records hold now, yielding the
    complete next topology or a refusal by name. */
module Compile {
  import opened Model
  import opened Changes
  import opened Records
  import opened Validation
  import opened Creation
  import opened Deletion

  /** The ids `paths` are created under: those already named, then a fresh one for each path without one. */
  function Mint(
    created: seq<(PathName, NodeId)>, paths: seq<PathName>, mint: PathName -> NodeId): seq<(PathName, NodeId)>
    decreases |paths|
  {
    if paths == [] then created
    else
      var grown := if Lookup(created, paths[0]).Some? then created else created + [(paths[0], mint(paths[0]))];
      Mint(grown, paths[1..], mint)
  }

  method MintCreated(created: seq<(PathName, NodeId)>, paths: seq<PathName>, mint: PathName -> NodeId)
      returns (r: seq<(PathName, NodeId)>)
    ensures r == Mint(created, paths, mint)
  {
    r := created;
    for i := 0 to |paths|
      invariant Mint(created, paths, mint) == Mint(r, paths[i..], mint)
    {
      if Lookup(r, paths[i]).None? { r := r + [(paths[i], mint(paths[i]))]; }
      assert paths[i..][1..] == paths[i + 1..];
    }
  }

  /** The locations a Create adds. */
  function CreatedPaths(change: Change): set<PathName> {
    if change.Create? then set r | r in change.nodes && ValidPathName(r.at) :: r.at else {}
  }

  /** What the randomness of an acceptance is asked for: a mesh's id by name, a node's id by location. */
  datatype Mints = Mints(mesh: string -> MeshId, node: PathName -> NodeId)

  function Finish(t: Topology, change: Change, mints: Mints): Result<Topology, Reject> {
    if t.meshes != map[] && Validate(t).Err? then Err(Validate(t).error)
    else Ok(t.(created := Mint(t.created, Paths(CreatedPaths(change)), mints.node)))
  }

  function CompileReplacing(accepted: Topology, change: Change, v: View, replaced: set<PathName>,
      mints: Mints): Result<Topology, Reject>
    requires v.WellFormed() && Filed(accepted)
  {
    RecordsFiled(v, accepted, mints.mesh);
    var next := OfRecords(v, accepted, mints.mesh);
    if change.RemoveFabric? then Ok(next.(meshes := map[]))
    else
      var changed := if change.Create? then Created(next, change.meshes, change.nodes, v, replaced, mints.mesh)
                     else Removed(next, change.meshes, change.ids, v);
      if changed.Err? then changed else Finish(changed.value, change, mints)
  }

  method Accept(accepted: Topology, change: Change, v: View, replaced: set<PathName>, mints: Mints)
      returns (r: Result<Topology, Reject>)
    requires v.WellFormed() && Filed(accepted)
    ensures r == CompileReplacing(accepted, change, v, replaced, mints)
  {
    hide Created, Removed, OfRecords, Filed, Validate, Mint, CreatedPaths;
    RecordsFiled(v, accepted, mints.mesh);
    var next := Compose(v, accepted, mints.mesh);
    match change {
      case RemoveFabric => return Ok(next.(meshes := map[]));
      case Create(meshes, nodes) => r := Add(next, meshes, nodes, v, replaced, mints.mesh);
      case Delete(meshes, ids) => r := Remove(next, meshes, ids, v);
    }
    if r.Err? { return; }
    if r.value.meshes != map[] {
      var checked := Check(r.value);
      if checked.Err? { return Err(checked.error); }
    }
    var created := MintCreated(r.value.created, Paths(CreatedPaths(change)), mints.node);
    r := Ok(r.value.(created := created));
  }

  // ---------------------------------------------------------------------------------------------
  // What every accepted topology is
  // ---------------------------------------------------------------------------------------------

  /** Every topology a Build is accepted with is well formed, or holds no mesh at all. */
  lemma AcceptedWellFormed(accepted: Topology, change: Change, v: View, replaced: set<PathName>, mints: Mints)
    requires v.WellFormed() && Filed(accepted) && CompileReplacing(accepted, change, v, replaced, mints).Ok?
    ensures
      var t := CompileReplacing(accepted, change, v, replaced, mints).value;
      (t.meshes == map[] || t.WellFormed()) && Filed(t)
  {
    hide Created, Removed, OfRecords, Validate, Mint, CreatedPaths, View.WellFormed, MeshWellFormed;
    var t := CompileReplacing(accepted, change, v, replaced, mints).value;
    if t.meshes != map[] {
      RecordsFiled(v, accepted, mints.mesh);
      var next := OfRecords(v, accepted, mints.mesh);
      var changed := if change.Create? then Created(next, change.meshes, change.nodes, v, replaced, mints.mesh).value
                     else Removed(next, change.meshes, change.ids, v).value;
      ValidateExactly(changed);
      assert t.meshes == changed.meshes;
      WellFormedFiled(t);
    }
  }
}
