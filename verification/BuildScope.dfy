/** What acceptance gives a Build, and what a Create touches: only what it names, from acceptance through every plan. */
module BuildScope {
  import opened Order
  import opened Model
  import opened Changes
  import opened Records
  import opened Creation
  import opened Deletion
  import opened Compile
  import opened Continuity
  import opened Planner
  import opened PlanShape
  import opened PlanKeys

  /** The birth the view holds at each of `paths`, pinned; `None` where one holds no incarnation to pin. */
  function Pins(v: View, paths: seq<PathName>): (r: Option<seq<(PathName, PinnedBirth)>>)
    ensures r.Some? ==>
        forall e :: e in r.value ==> e.0 in paths && v.At(e.0).Some? && PinOf(v.At(e.0).value) == Some(e.1)
    ensures r.Some? ==>
        forall p ::
          p in paths && v.At(p).Some? ==> PinOf(v.At(p).value).Some? && (p, PinOf(v.At(p).value).value) in r.value
  {
    if paths == [] then Some([])
    else
      assert paths == paths[..|paths| - 1] + [paths[|paths| - 1]];
      var before, n := Pins(v, paths[..|paths| - 1]), v.At(paths[|paths| - 1]);
      if before.None? then None
      else if n.None? then before
      else if PinOf(n.value).None? then None
      else Some(before.value + [(paths[|paths| - 1], PinOf(n.value).value)])
  }

  lemma {:induction false} PinsFailExactly(v: View, paths: seq<PathName>)
    ensures Pins(v, paths).None? <==> exists p :: p in paths && v.At(p).Some? && v.At(p).value.incarnation == None
  {
    hide FirstAt;
    if paths != [] {
      var n := |paths| - 1;
      PinsFailExactly(v, paths[..n]);
      assert paths == paths[..n] + [paths[n]];
    }
  }

  /** The pins' paths are in the order of `paths`. */
  ghost predicate InPathOrder(paths: seq<PathName>, pins: seq<(PathName, PinnedBirth)>) {
    forall i, j, a, b ::
        0 <= i < j < |pins| && 0 <= a < |paths| && 0 <= b < |paths| && paths[a] == pins[i].0
          && paths[b] == pins[j].0 ==>
          a < b
  }

  lemma {:induction false} PinsInOrder(v: View, paths: seq<PathName>)
    requires NoRepeats(paths) && Pins(v, paths).Some?
    ensures InPathOrder(paths, Pins(v, paths).value)
  {
    hide FirstAt, View.At, PinOf;
    if paths != [] {
      var n := |paths| - 1;
      PinsInOrder(v, paths[..n]);
      assert paths == paths[..n] + [paths[n]];
      NextInOrder(paths[..n], Pins(v, paths[..n]).value, Pins(v, paths).value, paths[n]);
    }
  }

  lemma NextInOrder(paths: seq<PathName>, before: seq<(PathName, PinnedBirth)>, pins: seq<(PathName, PinnedBirth)>,
      p: PathName)
    requires InPathOrder(paths, before) && p !in paths && forall e :: e in before ==> e.0 in paths
    requires pins == before || (|pins| == |before| + 1 && pins[..|before|] == before && pins[|before|].0 == p)
    ensures InPathOrder(paths + [p], pins)
  {
    var all := paths + [p];
    forall i, j, a, b | 0 <= i < j < |pins| && 0 <= a < |all| && 0 <= b < |all| && all[a] == pins[i].0
        && all[b] == pins[j].0 ensures a < b {
      assert pins[i] == before[i] && before[i] in before && a < |paths|;
      if j < |before| { assert pins[j] == before[j] && before[j] in before && b < |paths|; }
    }
  }

  /** Pinning fails exactly when some path's birth has no incarnation; else the births are pinned in the paths' order,
      each with its type, mesh, id and incarnation. */
  lemma PinsByFields(v: View, paths: seq<PathName>)
    ensures Pins(v, paths).None? <==> exists p :: p in paths && v.At(p).Some? && v.At(p).value.incarnation == None
    ensures Pins(v, paths).Some? ==>
        forall e ::
          e in Pins(v, paths).value ==>
            && v.At(e.0).Some? && e.1.kind == v.At(e.0).value.kind && e.1.mesh == v.At(e.0).value.mesh
            && e.1.id == v.At(e.0).value.id && Some(e.1.incarnation) == v.At(e.0).value.incarnation
    ensures Pins(v, paths).Some? && NoRepeats(paths) ==> InPathOrder(paths, Pins(v, paths).value)
  {
    hide FirstAt, Pins, InPathOrder;
    PinsFailExactly(v, paths);
    if Pins(v, paths).Some? && NoRepeats(paths) { PinsInOrder(v, paths); }
  }

  method PinBirths(v: View, paths: seq<PathName>) returns (r: Option<seq<(PathName, PinnedBirth)>>)
    ensures r == Pins(v, paths)
  {
    hide View.At, PinOf;
    var pinned := [];
    for i := 0 to |paths|
      invariant Pins(v, paths[..i]) == Some(pinned)
    {
      assert paths[..i + 1][..i] == paths[..i];
      var n := v.At(paths[i]);
      if n.Some? {
        if PinOf(n.value).None? {
          PinsFail(v, paths, i + 1);
          return None;
        }
        pinned := pinned + [(paths[i], PinOf(n.value).value)];
      }
    }
    assert paths[..|paths|] == paths;
    return Some(pinned);
  }

  lemma {:induction false} PinsFail(v: View, paths: seq<PathName>, i: nat)
    requires i <= |paths| && Pins(v, paths[..i]).None?
    ensures Pins(v, paths).None?
    decreases |paths| - i
  {
    if i < |paths| {
      assert paths[..i + 1][..i] == paths[..i];
      PinsFail(v, paths, i + 1);
    } else {
      assert paths[..i] == paths;
    }
  }

  function Among(paths: seq<PathName>): set<PathName> { set p | p in paths }

  /** The locations a change deletes or replaces, in the order their births are pinned. */
  function Deleting(v: View, change: Change, replaced: seq<PathName>): seq<PathName> {
    if change.Delete? then DeletedAt(v, change.ids) else replaced
  }

  function DeletedAt(v: View, ids: seq<NodeId>): (r: seq<PathName>)
    ensures forall p :: p in r <==> p in Gone(v, ids)
  {
    if ids == [] then []
    else
      assert ids == [ids[0]] + ids[1..];
      (if BirthOf(v, ids[0]).Some? then [BirthOf(v, ids[0]).value.at] else []) + DeletedAt(v, ids[1..])
  }

  /** The topology of the Build `change` is accepted as, its pins with it. */
  ghost predicate AcceptedAs(accepted: Topology, change: Change, v: View, replaced: seq<PathName>, mints: Mints,
      t: Topology) {
    && v.WellFormed() && Filed(accepted)
    && Pins(v, Deleting(v, change, replaced)).Some?
    && CompileReplacing(accepted, change, v, Among(replaced), mints) == Ok(t.(pinned := []))
    && t.pinned == Pins(v, Deleting(v, change, replaced)).value
  }

  /** What a plan of a Create may hold: its own meshes, its listed nodes under the ids minted for them, and deletes of
      the births pinned at the paths it replaces; a shutdown only of a mesh the records did not hold when it was
      accepted and it does not list. */
  ghost predicate WithinCreate(change: Change, v: View, replaced: seq<PathName>, mints: Mints, op: Operation)
    requires change.Create?
  {
    match op
    case CreateMesh(m, _) => m in HeldNames(v) || m in change.meshes
    case CreateNode(at, id, mesh, kind, executable) =>
      id == mints.node(at) && exists r ::
          r in change.nodes && r.at == at && r.mesh == mesh && r.kind == kind && r.executable == executable
    case DeleteNode(at, _, _, birth) =>
        at in replaced && v.At(at).Some? && birth.Some? && birth == PinOf(v.At(at).value)
    case ShutdownMesh(m, _) => m !in HeldNames(v) && m !in change.meshes
    case DeleteFabric(_) => false
  }

  lemma CreateMeshes(accepted: Topology, change: Change, v: View, replaced: seq<PathName>, mints: Mints, t: Topology)
    requires AcceptedAs(accepted, change, v, replaced, mints, t) && change.Create?
    ensures t.meshes != map[] && t.WellFormed() && t.meshes.Keys == HeldNames(v) + Listed(change.meshes)
  {
    hide Filed, View.WellFormed, CompileReplacing, Filled, HeldMesh, MeshWellFormed, Distinct, ValidMeshName,
        AdminListed, View.At;
    CreateStages(accepted, change, v, Among(replaced), mints);
    if change.meshes == [] {
      AdmittedMesh(OfRecords(v, accepted, mints.mesh), change.meshes, change.nodes, v, Among(replaced),
          change.nodes[0]);
    } else {
      assert change.meshes[0] in t.meshes;
    }
  }

  /** A listed path holds the spec of the request that lists it. */
  lemma ListedSpec(accepted: Topology, change: Change, v: View, replaced: seq<PathName>, mints: Mints, t: Topology,
      m: string, p: PathName)
    requires AcceptedAs(accepted, change, v, replaced, mints, t) && change.Create?
    requires m in t.meshes && p in t.meshes[m].nodes && p in t.meshes[m].specs && t.CreatedId(p).Some? && t.WellFormed()
    ensures t.CreatedId(p) == Some(mints.node(p))
    ensures exists r :: r in change.nodes && r.at == p && r.mesh == m && AsAsked(r, t.meshes[m].specs[p])
  {
    hide Filed, View.WellFormed, CompileReplacing, OfRecords, MeshWellFormed, AsAsked;
    var compiled := t.(pinned := []);
    CreatesExactlyWhatIsListed(accepted, change, v, Among(replaced), mints, p);
    assert compiled.CreatedId(p) == t.CreatedId(p);
    var r :| r in change.nodes && r.at == p;
    CreateStages(accepted, change, v, Among(replaced), mints);
    AdmittedMesh(OfRecords(v, accepted, mints.mesh), change.meshes, change.nodes, v, Among(replaced), r);
    RequestFiled(OfRecords(v, accepted, mints.mesh), compiled.(created := []), change.meshes, change.nodes,
        mints.mesh, r);
    OneMesh(t, p, m, r.mesh);
  }

  lemma RequestFiled(next: Topology, t: Topology, meshes: seq<string>, nodes: seq<NodeRequest>,
      mint: string -> MeshId, r: NodeRequest)
    requires AfterCreate(next, t, meshes, nodes, mint) && r in nodes && (r.mesh in next.meshes || r.mesh in meshes)
    ensures r.mesh in t.meshes && r.at in t.meshes[r.mesh].nodes && r.at in t.meshes[r.mesh].specs
        && AsAsked(r, t.meshes[r.mesh].specs[r.at])
  {
    assert r.at in Asked(nodes, r.mesh);
  }

  /** Over every view, history and pass, a Create plans within what it names. */
  lemma CreateTouchesOnlyItsOwn(
    accepted: Topology, change: Change, v: View, replaced: seq<PathName>, mints: Mints, t: Topology,
    v': View, open: set<string>, held: set<string>, steps: seq<Step>, created: set<PathName>, op: Operation)
    requires AcceptedAs(accepted, change, v, replaced, mints, t) && change.Create? && t.WellFormed()
    requires op in BuildPlan(t, v', open, held, steps, created)
    ensures WithinCreate(change, v, replaced, mints, op)
  {
    hide BuildPlan, AcceptedAs, ReplacementStep, Topology.WellFormed, Done, Topology.SpecAt, Extra, CreateDue,
        Topology.Replaced, View.HoldsMesh, HeldNames, View.At, PinOf;
    CreateMeshes(accepted, change, v, replaced, mints, t);
    PlanReads(t, v', open, held, steps, created, op);
    if op.CreateNode? {
      ListedSpec(accepted, change, v, replaced, mints, t, op.mesh, op.at);
    } else if op.DeleteNode? {
      PinnedAtAcceptance(accepted, change, v, replaced, mints, t, op.at, op.birth.value);
    }
  }

  /** A Create shuts a mesh down exactly when a later view lists it and acceptance neither held nor was asked for it:
      over the meshes it was accepted on, none. */
  lemma CreateShutsExactly(
    accepted: Topology, change: Change, v: View, replaced: seq<PathName>, mints: Mints, t: Topology,
    v': View, open: set<string>, held: set<string>, steps: seq<Step>, created: set<PathName>, m: Mesh)
    requires AcceptedAs(accepted, change, v, replaced, mints, t) && change.Create? && t.WellFormed()
    requires v'.WellFormed() && m in v'.meshes && m.id.Some?
    ensures ShutdownMesh(m.name, m.id.value) in BuildPlan(t, v', open, held, steps, created) <==>
            m.name !in HeldNames(v) && m.name !in change.meshes && (m.status != ScopeDead || m.name in open)
  {
    hide BuildPlan, AcceptedAs, Topology.WellFormed, View.HoldsMesh, HeldNames, IsReplacement, IsOrdinaryCreate,
        IsExtraDelete, Topology.SpecAt;
    var op := ShutdownMesh(m.name, m.id.value);
    CreateMeshes(accepted, change, v, replaced, mints, t);
    PlanHas(t, v', open, held, steps, created, op);
    if op in BuildPlan(t, v', open, held, steps, created) {
      PlanReads(t, v', open, held, steps, created, op);
    }
    assert v'.MeshNamed(m.name) == Some(m);
    if Going(t, m, open) { assert op in ShutdownAt(v')(m.name); }
  }

  /** One pass of a Build: the view it planned over, the meshes held unheard, the paths its atlas holds creates at, and
      the step events it left. */
  datatype BuildPass = BuildPass(view: View, held: set<string>, created: set<PathName>, events: seq<Step>)

  function Past(passes: seq<BuildPass>): seq<Step> {
    if passes == [] then [] else Past(passes[..|passes| - 1]) + passes[|passes| - 1].events
  }

  /** What the pass plans after `past`: the open deletes are those its own history leaves open. */
  function PassPlan(t: Topology, p: BuildPass, past: seq<Step>): seq<Operation>
    requires t.WellFormed()
  {
    BuildPlan(t, p.view, OpenDeletes(p.view, past), p.held, past, p.created)
  }

  ghost predicate PassPlans(t: Topology, p: BuildPass, past: seq<Step>, key: OpKey)
    requires t.WellFormed()
  {
    exists op :: op in PassPlan(t, p, past) && op.Key() == key
  }

  /** A run of the Build: each pass records steps of operations it planned on the history before it, and of no other. */
  ghost predicate OwnRun(t: Topology, passes: seq<BuildPass>)
    requires t.WellFormed()
  {
    forall i, e ::
        0 <= i < |passes| && e in passes[i].events ==> PassPlans(t, passes[i], Past(passes[..i]), e.operation)
  }

  /** Every mesh of the view is Dead, was held at acceptance, or is listed. */
  ghost predicate KnownMeshes(change: Change, v: View, v': View)
    requires change.Create?
  {
    forall m :: m in v'.meshes && m.status != ScopeDead ==> m.name in HeldNames(v) || m.name in change.meshes
  }

  ghost predicate NoMeshDelete(steps: seq<Step>) { forall e :: e in steps ==> !e.operation.MeshDelete? }

  lemma NothingOpen(v: View, steps: seq<Step>)
    requires NoMeshDelete(steps)
    ensures OpenDeletes(v, steps) == {}
  {
  }

  /** With no mesh.delete in its history and no mesh it does not know, a Create plans no shutdown. */
  lemma NoShutdownYet(
    accepted: Topology, change: Change, v: View, replaced: seq<PathName>, mints: Mints, t: Topology, p: BuildPass,
        past: seq<Step>, op: Operation)
    requires AcceptedAs(accepted, change, v, replaced, mints, t) && change.Create? && t.WellFormed()
    requires NoMeshDelete(past) && KnownMeshes(change, v, p.view) && op in PassPlan(t, p, past)
    ensures !op.ShutdownMesh?
  {
    hide BuildPlan, AcceptedAs, Topology.WellFormed, View.HoldsMesh, Topology.SpecAt, CreateDue, Extra,
        ReplacementStep, HeldNames, OpenDeletes;
    CreateMeshes(accepted, change, v, replaced, mints, t);
    NothingOpen(p.view, past);
    PlanReads(t, p.view, {}, p.held, past, p.created, op);
  }

  /** Over every run of a Create whose views list no live mesh that acceptance neither held nor listed, no pass ever
      plans a shutdown. */
  lemma {:induction false} CreateNeverShuts(
    accepted: Topology, change: Change, v: View, replaced: seq<PathName>, mints: Mints, t: Topology,
        passes: seq<BuildPass>)
    requires AcceptedAs(accepted, change, v, replaced, mints, t) && change.Create? && t.WellFormed()
        && OwnRun(t, passes)
    requires forall p :: p in passes ==> KnownMeshes(change, v, p.view)
    ensures NoMeshDelete(Past(passes))
    ensures forall i, op :: 0 <= i < |passes| && op in PassPlan(t, passes[i], Past(passes[..i])) ==> !op.ShutdownMesh?
  {
    hide AcceptedAs, Topology.WellFormed, PassPlan, KnownMeshes;
    if passes != [] {
      var n := |passes| - 1;
      var rest, last := passes[..n], passes[n];
      RunBefore(t, passes);
      CreateNeverShuts(accepted, change, v, replaced, mints, t, rest);
      forall op | op in PassPlan(t, last, Past(rest)) ensures !op.ShutdownMesh? {
        NoShutdownYet(accepted, change, v, replaced, mints, t, last, Past(rest), op);
      }
      forall i, op | 0 <= i < |passes| && op in PassPlan(t, passes[i], Past(passes[..i])) ensures !op.ShutdownMesh? {
        if i < n { assert rest[i] == passes[i] && rest[..i] == passes[..i]; }
      }
      forall e | e in last.events ensures !e.operation.MeshDelete? {
        assert PassPlans(t, passes[n], Past(passes[..n]), e.operation);
        var op :| op in PassPlan(t, passes[n], Past(passes[..n])) && op.Key() == e.operation;
      }
    }
  }

  lemma RunBefore(t: Topology, passes: seq<BuildPass>)
    requires t.WellFormed() && passes != [] && OwnRun(t, passes)
    ensures OwnRun(t, passes[..|passes| - 1])
  {
    hide PassPlans, Topology.WellFormed;
    var rest := passes[..|passes| - 1];
    forall i, e | 0 <= i < |rest| && e in rest[i].events
      ensures PassPlans(t, rest[i], Past(rest[..i]), e.operation)
    {
      assert rest[i] == passes[i] && rest[..i] == passes[..i];
    }
  }

  lemma PinnedAtAcceptance(accepted: Topology, change: Change, v: View, replaced: seq<PathName>, mints: Mints,
      t: Topology, p: PathName, b: PinnedBirth)
    requires AcceptedAs(accepted, change, v, replaced, mints, t) && (p, b) in t.pinned
    ensures p in Deleting(v, change, replaced) && v.At(p).Some? && PinOf(v.At(p).value) == Some(b)
  {
    hide View.At, PinOf, CompileReplacing, Filed, View.WellFormed;
    var e := (p, b);
    assert e in Pins(v, Deleting(v, change, replaced)).value;
  }

  // ---------------------------------------------------------------------------------------------
  // What acceptance gives every Build
  // ---------------------------------------------------------------------------------------------

  lemma {:induction false} PinsOnce(v: View, paths: seq<PathName>)
    requires Pins(v, paths).Some? && NoRepeats(paths)
    ensures NoRepeats(Pins(v, paths).value)
  {
    hide View.At, PinOf;
    if paths != [] {
      var rest, last := paths[..|paths| - 1], paths[|paths| - 1];
      PinsOnce(v, rest);
      assert last !in rest;
      assert forall e :: e in Pins(v, rest).value ==> e.0 in rest;
    }
  }

  lemma {:induction false} DeletedOnce(v: View, ids: seq<NodeId>)
    requires NoRepeats(ids)
    ensures NoRepeats(DeletedAt(v, ids))
  {
    hide View.At, FirstAt, FirstOf;
    if ids != [] {
      DeletedOnce(v, ids[1..]);
      assert ids[0] !in ids[1..];
      var birth := BirthOf(v, ids[0]);
      if birth.Some? {
        forall id | id in ids[1..] && BirthOf(v, id).Some? ensures BirthOf(v, id).value.at != birth.value.at {
          assert BirthOf(v, id) == v.At(BirthOf(v, id).value.at) && birth == v.At(birth.value.at)
              && BirthOf(v, id) != birth;
        }
        assert birth.value.at !in Gone(v, ids[1..]);
        NoRepeatsJoin([birth.value.at], DeletedAt(v, ids[1..]));
      } else {
        assert DeletedAt(v, ids) == DeletedAt(v, ids[1..]);
      }
    }
  }

  /** One birth is pinned at one path. */
  lemma PinnedApart(v: View, paths: seq<PathName>, e: (PathName, PinnedBirth), e': (PathName, PinnedBirth))
    requires v.WellFormed() && Pins(v, paths).Some? && e in Pins(v, paths).value && e' in Pins(v, paths).value
    requires e.0 == e'.0 || e.1.id == e'.1.id
    ensures e == e'
  {
    hide FirstAt, FirstOf;
    var n, n' := v.At(e.0).value, v.At(e'.0).value;
    assert v.Own(n.id) == Some(n) && v.Own(n'.id) == Some(n');
  }

  /** A mesh id is of one mesh: in the accepted topology, in the view, and between the two. */
  ghost predicate MeshIdsKnown(accepted: Topology, v: View) {
    && (forall x, y ::
        x in accepted.meshes && y in accepted.meshes && accepted.meshes[x].id == accepted.meshes[y].id ==> x == y)
    && MeshIdsOnce(v)
    && (forall m, x :: m in v.meshes && x in accepted.meshes && m.id == Some(accepted.meshes[x].id) ==> m.name == x)
  }

  /** What is minted is new: no two of it alike, and none of it an id of the view or of the accepted topology. */
  ghost predicate FreshMints(accepted: Topology, v: View, mints: Mints) {
    && (forall p, q :: mints.node(p) == mints.node(q) ==> p == q)
    && (forall p, n :: n in v.nodes ==> mints.node(p) != n.id)
    && (forall x, y :: mints.mesh(x) == mints.mesh(y) ==> x == y)
    && (forall x, m :: m in v.meshes ==> m.id != Some(mints.mesh(x)))
    && (forall x, y :: y in accepted.meshes ==> accepted.meshes[y].id != mints.mesh(x))
  }

  /** A mesh's id is the held one, or for a mesh the Build creates the minted one. */
  lemma MeshIdOf(accepted: Topology, change: Change, v: View, replaced: seq<PathName>, mints: Mints, t: Topology,
      m: string)
    requires AcceptedAs(accepted, change, v, replaced, mints, t) && m in t.meshes
    ensures t.meshes[m].id == if m in HeldNames(v) then HeldId(v, accepted, m, mints.mesh) else mints.mesh(m)
  {
    hide CompileReplacing, HeldId, Filled, HeldNames, Gone, View.DeadMesh, Filed, View.WellFormed, View.At, Pins,
        StandingIn;
    var next := OfRecords(v, accepted, mints.mesh);
    if change.Create? {
      CreateStages(accepted, change, v, Among(replaced), mints);
      FilledId(next, t.(pinned := []), change.meshes, change.nodes, mints.mesh, m);
    } else if change.Delete? {
      DeleteStages(accepted, change, v, Among(replaced), mints);
    } else {
      RemovedEmpty(accepted, change, v, Among(replaced), mints);
    }
  }

  lemma RemovedEmpty(accepted: Topology, change: Change, v: View, replaced: set<PathName>, mints: Mints)
    requires v.WellFormed() && Filed(accepted) && change.RemoveFabric?
    ensures CompileReplacing(accepted, change, v, replaced, mints).Ok? &&
            CompileReplacing(accepted, change, v, replaced, mints).value.meshes == map[]
  {
  }

  lemma HeldIdsApart(accepted: Topology, v: View, mints: Mints, x: string, y: string)
    requires v.WellFormed() && MeshIdsKnown(accepted, v) && FreshMints(accepted, v, mints) && x != y
    ensures HeldId(v, accepted, x, mints.mesh) != HeldId(v, accepted, y, mints.mesh)
    ensures HeldId(v, accepted, x, mints.mesh) != mints.mesh(y) && mints.mesh(x) != mints.mesh(y)
  {
    hide View.WellFormed, FirstNamed;
  }

  /** No two meshes of an accepted Build are under one id. */
  lemma MeshIdsApart(accepted: Topology, change: Change, v: View, replaced: seq<PathName>, mints: Mints, t: Topology,
      x: string, y: string)
    requires AcceptedAs(accepted, change, v, replaced, mints, t) && MeshIdsKnown(accepted, v)
        && FreshMints(accepted, v, mints)
    requires x in t.meshes && y in t.meshes && t.meshes[x].id == t.meshes[y].id
    ensures x == y
  {
    hide HeldId, HeldNames, MeshIdsKnown, FreshMints, CompileReplacing, Pins, Filed;
    MeshIdOf(accepted, change, v, replaced, mints, t, x);
    MeshIdOf(accepted, change, v, replaced, mints, t, y);
    if x != y {
      HeldIdsApart(accepted, v, mints, x, y);
      HeldIdsApart(accepted, v, mints, y, x);
    }
  }

  /** Every accepted Build is identified: each path and birth pinned once, each path and node id created once, each mesh
      under its own id. */
  lemma AcceptedIdentified(accepted: Topology, change: Change, v: View, replaced: seq<PathName>, mints: Mints,
      t: Topology)
    requires AcceptedAs(accepted, change, v, replaced, mints, t) && NoRepeats(replaced)
    requires MeshIdsKnown(accepted, v) && FreshMints(accepted, v, mints)
    ensures Identified(t)
  {
    hide View.At, CompileReplacing, View.WellFormed, Filed, Pins, MeshWellFormed, MeshIdsKnown;
    forall x, y | x in t.meshes && y in t.meshes && t.meshes[x].id == t.meshes[y].id ensures x == y {
      MeshIdsApart(accepted, change, v, replaced, mints, t, x, y);
    }
    var paths := Deleting(v, change, replaced);
    if change.Delete? {
      DeleteStages(accepted, change, v, Among(replaced), mints);
      AdmittedIdsOnce(OfRecords(v, accepted, mints.mesh), change.meshes, change.ids, v);
      DeletedOnce(v, change.ids);
    }
    PinsOnce(v, paths);
    forall e: (PathName, PinnedBirth), e': (PathName, PinnedBirth) | e in t.pinned && e' in t.pinned
        && (e.0 == e'.0 || e.1.id == e'.1.id) ensures e == e' {
      PinnedApart(v, paths, e, e');
    }
    forall e: (PathName, NodeId) | e in t.created ensures e.1 == mints.node(e.0) {
      CreatedByMint(accepted, change, v, replaced, mints, t, e);
    }
  }

  lemma AdmittedIdsOnce(next: Topology, meshes: seq<string>, ids: seq<NodeId>, v: View)
    requires DeleteAdmitted(next, meshes, ids, v)
    ensures NoRepeats(ids)
  {
  }

  lemma CreatedByMint(accepted: Topology, change: Change, v: View, replaced: seq<PathName>, mints: Mints, t: Topology,
      e: (PathName, NodeId))
    requires AcceptedAs(accepted, change, v, replaced, mints, t) && e in t.created
    ensures e.1 == mints.node(e.0)
  {
    hide View.At, View.WellFormed, Filed, Pins, MeshWellFormed, CompileReplacing, OfRecords;
    CreatedAre(accepted, change, v, Among(replaced), mints);
    MintedIds([], Paths(CreatedPaths(change)), mints.node, e);
  }

  lemma CreatedAre(accepted: Topology, change: Change, v: View, replaced: set<PathName>, mints: Mints)
    requires v.WellFormed() && Filed(accepted) && CompileReplacing(accepted, change, v, replaced, mints).Ok?
    ensures CompileReplacing(accepted, change, v, replaced, mints).value.created == Mint([],
        Paths(CreatedPaths(change)), mints.node)
  {
    hide View.WellFormed, Filed, OfRecords, Paths;
    if change.Create? {
      CreateStages(accepted, change, v, replaced, mints);
    } else {
      NothingCreated(change);
      RecordsCreateNothing(v, accepted, mints.mesh);
      if change.Delete? { DeleteStages(accepted, change, v, replaced, mints); }
    }
  }

  lemma {:induction false} MintedIds(created: seq<(PathName, NodeId)>, paths: seq<PathName>, mint: PathName -> NodeId,
      e: (PathName, NodeId))
    requires e in Mint(created, paths, mint)
    ensures e in created || e.1 == mint(e.0)
    decreases |paths|
  {
    if paths != [] {
      MintedIds(if Lookup(created, paths[0]).Some? then created
          else created + [(paths[0], mint(paths[0]))], paths[1..], mint, e);
    }
  }
}
