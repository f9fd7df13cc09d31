/** Repeated planning ends: with an executor that realises each operation as documented, every pass that completes
    anything shrinks the work still owed, and nothing owed is the empty plan. */
module Convergence {
  import opened Model
  import opened Planner
  import opened PlanShape
  import opened PlanKeys

  /** The paths whose create this Build completed. */
  function CreatedBy(t: Topology, steps: seq<Step>): set<PathName> {
    set e | e in t.created && Done(steps, NodeCreate(e.1)) :: e.0
  }

  /** The plan of a drive's pass. */
  function PlanFor(t: Topology, v: View, steps: seq<Step>): seq<Operation>
    requires t.WellFormed()
  {
    BuildPlan(t, v, OpenDeletes(v, steps), {}, steps, CreatedBy(t, steps))
  }

  // ---------------------------------------------------------------------------------------------
  // The work still owed
  // ---------------------------------------------------------------------------------------------

  function MeshesOwed(t: Topology, v: View): set<OpKey> {
    set m | m in t.meshes && !v.HoldsMesh(m) :: MeshCreate(t.meshes[m].id)
  }

  predicate Replacing(t: Topology, p: PathName, steps: seq<Step>) {
    t.Replaced(p).Some? && t.CreatedId(p).Some? && !Done(steps, NodeCreate(t.CreatedId(p).value))
  }

  function ReplacesOwed(t: Topology, steps: seq<Step>): set<OpKey> {
    (set e | e in t.pinned && Replacing(t, e.0, steps) && !Done(steps, NodeDelete(e.1.id)) :: NodeDelete(e.1.id))
    + (set e | e in t.pinned && Replacing(t, e.0, steps) :: NodeCreate(t.CreatedId(e.0).value))
  }

  predicate Due(t: Topology, m: string, p: PathName, v: View, steps: seq<Step>)
    requires m in t.meshes
  {
    p in t.meshes[m].nodes && CreateDue(t, m, p, v, {}, steps)
  }

  function CreatesOwed(t: Topology, v: View, steps: seq<Step>): set<OpKey> {
    set m, p | m in t.meshes && p in t.meshes[m].nodes && Due(t, m, p, v, steps) :: NodeCreate(t.CreatedId(p).value)
  }

  predicate DeleteDue(t: Topology, n: Node, steps: seq<Step>) {
    Extra(t, n, CreatedBy(t, steps)) && t.PinAt(n.at).Some? && !Done(steps, NodeDelete(t.PinAt(n.at).value.id))
  }

  function DeletesOwed(t: Topology, v: View, steps: seq<Step>): set<OpKey> {
    set n | n in v.nodes && DeleteDue(t, n, steps) :: NodeDelete(t.PinAt(n.at).value.id)
  }

  function ShutdownsOwed(t: Topology, v: View, steps: seq<Step>): set<OpKey> {
    set m | m in v.meshes && Going(t, m, OpenDeletes(v, steps)) && m.id.Some? :: MeshDelete(m.id.value)
  }

  /** The keys of every operation this Build still owes. */
  function Owed(t: Topology, v: View, steps: seq<Step>): set<OpKey> {
    MeshesOwed(t, v) + ReplacesOwed(t, steps) + CreatesOwed(t, v, steps) + DeletesOwed(t, v, steps) + ShutdownsOwed(t,
        v, steps)
  }

  /** What a plan holds is owed. */
  lemma PlannedIsOwed(t: Topology, v: View, steps: seq<Step>, op: Operation)
    requires t.WellFormed() && v.WellFormed() && op in PlanFor(t, v, steps)
    ensures op.Key() in Owed(t, v, steps)
  {
    hide BuildPlan, ReplacementStep, Topology.WellFormed, Done, Topology.SpecAt, Extra, CreateDue, Topology.Replaced,
        View.HoldsMesh, OpenDeletes, CreatedBy, Going;
    hide FirstAt, FirstOf, MeshesOwed, ReplacesOwed, CreatesOwed, DeletesOwed, ShutdownsOwed, StepOf, IsMeshCreate,
        IsShutdown;
    PlanReads(t, v, OpenDeletes(v, steps), {}, steps, CreatedBy(t, steps), op);
    if name, r :|
        name in t.meshes && ReplacementStep(t, name, steps) == Some(op) && StepOf(t, name, r, steps, op)
          && t.Replaced(r.at).Some? {
      StepIsOwed(t, name, r, steps, op);
    } else if name :| name in t.meshes && CreateSays(t, name, op) && CreateDue(t, name, op.at, v, {}, steps) {
      CreateIsOwed(t, v, name, steps, op);
    } else {
      OtherIsOwed(t, v, steps, op);
    }
  }

  lemma StepIsOwed(t: Topology, name: string, r: Replacement, steps: seq<Step>, op: Operation)
    requires name in t.meshes && StepOf(t, name, r, steps, op) && t.Replaced(r.at).Some?
    ensures op.Key() in ReplacesOwed(t, steps)
  {
    hide Topology.SpecAt, Done, Topology.Replaced;
  }

  lemma CreateIsOwed(t: Topology, v: View, name: string, steps: seq<Step>, op: Operation)
    requires name in t.meshes && CreateSays(t, name, op) && CreateDue(t, name, op.at, v, {}, steps)
    ensures op.Key() in CreatesOwed(t, v, steps)
  {
    hide Topology.SpecAt, Done, CreateDue;
    assert Due(t, name, op.at, v, steps);
  }

  lemma OtherIsOwed(t: Topology, v: View, steps: seq<Step>, op: Operation)
    requires v.WellFormed()
    requires
      || IsMeshCreate(t, v, op)
      || (DeleteSays(t, steps, op) && exists n :: n in v.nodes && n.at == op.at && Extra(t, n, CreatedBy(t, steps)))
      || IsShutdown(t, v, OpenDeletes(v, steps), op)
    ensures op.Key() in MeshesOwed(t, v) + DeletesOwed(t, v, steps) + ShutdownsOwed(t, v, steps)
  {
    hide Topology.SpecAt, Done, Extra, View.HoldsMesh, OpenDeletes, CreatedBy, Going;
  }

  lemma {:induction false} Queued(t: Topology, m: string, pins: seq<(PathName, PinnedBirth)>,
      e: (PathName, PinnedBirth))
    requires m in t.meshes && e in pins && e.0 in t.meshes[m].nodes && t.CreatedId(e.0).Some?
    ensures Replacement(e.0, e.1, t.CreatedId(e.0).value) in Queue(t, m, pins)
  {
    hide Lookup;
    if e != pins[0] { Queued(t, m, pins[1..], e); }
  }

  lemma StepPlanned(t: Topology, v: View, steps: seq<Step>, e: (PathName, PinnedBirth)) returns (op: Operation)
    requires t.WellFormed() && e in t.pinned && Replacing(t, e.0, steps)
    ensures IsReplacement(t, steps, op)
  {
    hide Topology.WellFormed, Done, Lookup, StepFrom, Topology.SpecAt;
    var m := MeshOf(t, e.0);
    var q := Queue(t, m, t.pinned);
    Queued(t, m, t.pinned, e);
    MeshSpecs(t, m);
    StepIsHeads(t, m, t.pinned, steps);
    op := ReplacementStep(t, m, steps).value;
  }

  lemma MeshOf(t: Topology, p: PathName) returns (m: string)
    requires t.WellFormed() && t.Contains(p)
    ensures m in t.meshes && p in t.meshes[m].nodes
  {
    ContainsFiled(t, p);
    m :| m in t.meshes && p in t.meshes[m].nodes;
  }

  lemma MeshSpecs(t: Topology, m: string)
    requires t.WellFormed() && m in t.meshes
    ensures t.meshes[m].nodes == t.meshes[m].specs.Keys
  {
  }

  /** Whatever is owed, something is planned. */
  lemma OwedIsPlanned(t: Topology, v: View, steps: seq<Step>, key: OpKey) returns (op: Operation)
    requires t.WellFormed() && v.WellFormed() && key in Owed(t, v, steps)
    ensures op in PlanFor(t, v, steps)
  {
    hide BuildPlan, ReplacementStep, Topology.WellFormed, Done, Topology.SpecAt, Extra, CreateDue, Topology.Replaced,
        View.HoldsMesh, OpenDeletes, CreatedBy, Going;
    hide FirstAt, FirstOf, IsReplacement, Replacing;
    if key in MeshesOwed(t, v) {
      var m :| m in t.meshes && !v.HoldsMesh(m) && key == MeshCreate(t.meshes[m].id);
      op := CreateMesh(m, t.meshes[m].id);
    } else if key in ReplacesOwed(t, steps) {
      var e :| e in t.pinned && Replacing(t, e.0, steps);
      op := StepPlanned(t, v, steps, e);
    } else if key in CreatesOwed(t, v, steps) {
      var m, p :| m in t.meshes && p in t.meshes[m].nodes && Due(t, m, p, v, steps);
      Named(t, m, p);
      DueNamed(t, m, p, v, steps);
      op := CreateAt(t, m, v, {}, steps)(p)[0];
      assert CreatesHere(t, m, p, v, {}, steps, op);
    } else if key in DeletesOwed(t, v, steps) {
      var n :| n in v.nodes && DeleteDue(t, n, steps);
      op := DeleteOf(n.at, t.PinAt(n.at).value);
      assert op in DeleteAt(t, steps)(n.at);
    } else {
      var m :| m in v.meshes && Going(t, m, OpenDeletes(v, steps)) && m.id.Some?;
      op := ShutdownMesh(m.name, m.id.value);
      assert op in ShutdownAt(v)(m.name);
    }
    PlanHas(t, v, OpenDeletes(v, steps), {}, steps, CreatedBy(t, steps), op);
  }

  lemma DueNamed(t: Topology, m: string, p: PathName, v: View, steps: seq<Step>)
    requires m in t.meshes && Due(t, m, p, v, steps)
    ensures t.CreatedId(p).Some?
  {
  }

  /** The plan is empty exactly when nothing is owed. */
  lemma EmptyPlanExactly(t: Topology, v: View, steps: seq<Step>)
    requires t.WellFormed() && v.WellFormed()
    ensures PlanFor(t, v, steps) == [] <==> Owed(t, v, steps) == {}
  {
    hide PlanFor, Owed, Topology.WellFormed, View.WellFormed;
    if PlanFor(t, v, steps) != [] { PlannedIsOwed(t, v, steps, PlanFor(t, v, steps)[0]); }
    if key :| key in Owed(t, v, steps) { var op := OwedIsPlanned(t, v, steps, key); }
  }

  // ---------------------------------------------------------------------------------------------
  // The executor
  // ---------------------------------------------------------------------------------------------

  /** What a pass starts from: the view it plans over and the step events so far. */
  datatype State = State(view: View, steps: seq<Step>)

  /** The events completing `op`: all of its own key, its last step among them. */
  ghost predicate Completes(op: Operation, events: seq<Step>) {
    && (forall e :: e in events ==> e.operation == op.Key())
    && (if op.ShutdownMesh? then Completed(events, op.Key(), STEP_MESH_DELETED) else Done(events, op.Key()))
  }

  /** The view after `op` ran, as the operation's contract documents it, whatever else of its own subject it touched. */
  ghost predicate Effect(op: Operation, v: View, v': View) {
    match op
    case CreateMesh(name, id) =>
      && v'.nodes == v.nodes && v'.HoldsMesh(name)
      && (forall m :: m in v'.meshes ==> m in v.meshes || (m.name == name && m.id in {None, Some(id)}))
      && (forall x :: v.HoldsMesh(x) ==> v'.HoldsMesh(x))
    case CreateNode(at, id, mesh, kind, _) =>
      && v'.meshes == v.meshes
      && v'.At(at).Some? && v'.At(at).value.mesh == mesh && v'.At(at).value.kind == kind
      && (if v'.At(at).value.status.Live() then v'.At(at).value.id == id
          else v'.At(at).value.stopped && v'.At(at) == v.At(at))
      && (forall n :: n in v'.nodes && n.at != at ==> n in v.nodes)
      && (forall p :: p != at ==> v'.At(p) == v.At(p))
    case DeleteNode(_, _, _, birth) =>
      && v'.meshes == v.meshes
      && (forall n :: n in v'.nodes ==> n in v.nodes)
      && (forall p :: birth.Some? && v.At(p).Some? && v.At(p).value.id != birth.value.id ==> v'.At(p) == v.At(p))
    case ShutdownMesh(name, id) =>
      && (forall m ::
          m in v'.meshes ==>
            if m.name == name then m.status == ScopeDead && m.id == Some(id) else m in v.meshes && m.id != Some(id))
      && (forall x :: x != name && v.HoldsMesh(x) ==> v'.HoldsMesh(x))
      && (forall n :: n in v'.nodes ==> n in v.nodes)
      && (forall p :: v.At(p).Some? && v.At(p).value.mesh != name ==> v'.At(p) == v.At(p))
    case DeleteFabric(_) => false
  }

  ghost predicate Realized(s: State, op: Operation, s': State) {
    && s'.view.WellFormed() && MeshIdsOnce(s'.view)
    && |s.steps| <= |s'.steps| && s'.steps[..|s.steps|] == s.steps && Completes(op, s'.steps[|s.steps|..])
    && Effect(op, s.view, s'.view)
  }

  /** An operation of one of the Build's plans, whatever the view it was planned over. */
  ghost predicate Lawful(t: Topology, op: Operation) {
    match op
    case CreateMesh(name, id) => name in t.meshes && id == t.meshes[name].id
    case CreateNode(at, id, mesh, kind, _) =>
      mesh in t.meshes && at in t.meshes[mesh].nodes && at in t.meshes[mesh].specs
          && t.meshes[mesh].specs[at].kind == kind && t.CreatedId(at) == Some(id)
    case DeleteNode(at, _, _, birth) => birth.Some? && (at, birth.value) in t.pinned
    case ShutdownMesh(name, id) => name !in t.meshes && forall x :: x in t.meshes ==> t.meshes[x].id != id
    case DeleteFabric(_) => false
  }

  lemma PlannedIsLawful(t: Topology, v: View, steps: seq<Step>, op: Operation)
    requires t.WellFormed() && Fresh(t, v) && op in PlanFor(t, v, steps)
    ensures Lawful(t, op)
  {
    hide FirstNamed, FirstAt, PinOf;
    hide BuildPlan, ReplacementStep, Topology.WellFormed, Done, Topology.SpecAt, Extra, CreateDue, Topology.Replaced,
        View.HoldsMesh, OpenDeletes, CreatedBy;
    PlanReads(t, v, OpenDeletes(v, steps), {}, steps, CreatedBy(t, steps), op);
  }

  /** No birth at a path the Build creates afresh is one it pinned for a delete, and no minted id is. */
  ghost predicate Unpinned(t: Topology, v: View) {
    && (forall c, e :: c in t.created && e in t.pinned ==> c.1 != e.1.id)
    && (forall p :: v.At(p).Some? && t.CreatedId(p).Some? && t.Replaced(p).None? ==> NotPinned(t, v.At(p).value.id))
  }

  ghost predicate NotPinned(t: Topology, id: NodeId) { forall e :: e in t.pinned ==> e.1.id != id }

  /** A minted node id is held only at its own path, and a mesh's id only under its own name. */
  ghost predicate Fresh(t: Topology, v: View) {
    && (forall n, c :: n in v.nodes && c in t.created && n.id == c.1 ==> n.at == c.0)
    && (forall m, x :: m in v.meshes && x in t.meshes && m.id == Some(t.meshes[x].id) ==> m.name == x)
  }

  ghost predicate Fit(t: Topology, s: State) {
    && t.WellFormed() && Identified(t) && s.view.WellFormed() && MeshIdsOnce(s.view)
    && Unpinned(t, s.view) && Fresh(t, s.view)
  }

  lemma Grows(s: State, op: Operation, s': State, key: OpKey)
    requires Realized(s, op, s')
    ensures Done(s.steps, key) ==> Done(s'.steps, key)
    ensures key != op.Key() ==>
        (Done(s'.steps, key) <==> Done(s.steps, key)) && (Began(s'.steps, key) <==> Began(s.steps, key))
    ensures !op.ShutdownMesh? ==> Done(s'.steps, op.Key())
  {
    var events := s'.steps[|s.steps|..];
    assert s'.steps == s.steps + events;
    hide View.WellFormed, MeshIdsOnce, Effect;
  }

  lemma GrowsMesh(s: State, op: Operation, s': State, key: OpKey, step: string)
    requires Realized(s, op, s')
    ensures Completed(s.steps, key, step) ==> Completed(s'.steps, key, step)
    ensures key != op.Key() ==> (Completed(s'.steps, key, step) <==> Completed(s.steps, key, step))
    ensures op.ShutdownMesh? ==> Completed(s'.steps, op.Key(), STEP_MESH_DELETED)
  {
    var events := s'.steps[|s.steps|..];
    assert s'.steps == s.steps + events;
    hide View.WellFormed, MeshIdsOnce, Effect;
  }

  lemma MeshesShrink(t: Topology, s: State, op: Operation, s': State)
    requires Fit(t, s) && Lawful(t, op) && Realized(s, op, s')
    ensures MeshesOwed(t, s'.view) <= MeshesOwed(t, s.view) - {op.Key()}
  {
    hide Topology.WellFormed, View.WellFormed, Unpinned, Completes, MeshIdsOnce, FirstAt;
    forall m | m in t.meshes && !s'.view.HoldsMesh(m) ensures !s.view.HoldsMesh(m)
        && MeshCreate(t.meshes[m].id) != op.Key() {
      KeepsMeshes(s, op, s', m);
    }
  }

  lemma KeepsMeshes(s: State, op: Operation, s': State, m: string)
    requires Effect(op, s.view, s'.view) && (op.ShutdownMesh? ==> m != op.mesh)
    ensures s.view.HoldsMesh(m) || (op.CreateMesh? && op.mesh == m) ==> s'.view.HoldsMesh(m)
  {
    hide View.At, View.HoldsMesh;
    if s.view.HoldsMesh(m) && (op.CreateNode? || op.DeleteNode?) { SameMeshes(s.view, s'.view, m); }
  }

  lemma SameMeshes(v: View, v': View, m: string)
    requires v.meshes == v'.meshes && v.HoldsMesh(m)
    ensures v'.HoldsMesh(m)
  {
  }

  lemma ReplacesShrink(t: Topology, s: State, op: Operation, s': State)
    requires Fit(t, s) && Lawful(t, op) && Realized(s, op, s')
    ensures ReplacesOwed(t, s'.steps) <= ReplacesOwed(t, s.steps) - {op.Key()}
  {
    hide Topology.WellFormed, View.WellFormed, Unpinned, Realized, Done, Topology.Replaced, Lookup, Identified;
    forall key ensures Done(s.steps, key) ==> Done(s'.steps, key) { Grows(s, op, s', key); }
    assert !op.ShutdownMesh? ==> Done(s'.steps, op.Key()) by { Grows(s, op, s', op.Key()); }
  }

  /** A path the view satisfied is still satisfied: no operation of the Build touches its birth. */
  lemma StillHeld(t: Topology, s: State, op: Operation, s': State, m: string, p: PathName)
    requires Fit(t, s) && Lawful(t, op) && Realized(s, op, s')
    requires m in t.meshes && p in t.meshes[m].nodes && t.CreatedId(p).Some? && t.Replaced(p).None?
    requires NodeCreate(t.CreatedId(p).value) != op.Key()
    requires s.view.At(p).Some? && s.view.At(p).value.mesh == m
    ensures s'.view.At(p) == s.view.At(p)
  {
    hide Topology.WellFormed, View.WellFormed, Completes, MeshIdsOnce, FirstAt, View.HoldsMesh, Identified,
        Topology.Replaced, Lookup;
  }

  lemma CreatesShrink(t: Topology, s: State, op: Operation, s': State)
    requires Fit(t, s) && Lawful(t, op) && Realized(s, op, s')
    ensures CreatesOwed(t, s'.view, s'.steps) <= CreatesOwed(t, s.view, s.steps) - {op.Key()}
  {
    hide CreateDue, Fit, Lawful, Realized, Lookup;
    forall m, p | m in t.meshes && p in t.meshes[m].nodes && Due(t, m, p, s'.view, s'.steps)
      ensures t.CreatedId(p).Some? && Due(t, m, p, s.view, s.steps) && NodeCreate(t.CreatedId(p).value) != op.Key()
    {
      StillDue(t, s, op, s', m, p);
    }
  }

  lemma StillDue(t: Topology, s: State, op: Operation, s': State, m: string, p: PathName)
    requires Fit(t, s) && Lawful(t, op) && Realized(s, op, s')
    requires m in t.meshes && p in t.meshes[m].nodes && CreateDue(t, m, p, s'.view, {}, s'.steps)
    ensures t.CreatedId(p).Some? && CreateDue(t, m, p, s.view, {}, s.steps)
        && NodeCreate(t.CreatedId(p).value) != op.Key()
  {
    hide Realized, Done, Began, Lookup, Topology.Replaced, View.WellFormed, Unpinned, Identified, Topology.WellFormed;
    var key := NodeCreate(t.CreatedId(p).value);
    Grows(s, op, s', key);
    if key == op.Key() {
      SameCreated(t, op.at, p);
      OneMesh(t, p, op.mesh, m);
      CreateHeld(s, op, s');
    } else if Satisfied(t, m, p, s.view, {}, s.steps) {
      StillHeld(t, s, op, s', m, p);
    }
  }

  lemma CreateHeld(s: State, op: Operation, s': State)
    requires op.CreateNode? && Realized(s, op, s')
    ensures
      var n := s'.view.At(op.at);
      n.Some? && n.value.mesh == op.mesh && n.value.kind == op.kind && (n.value.status.Live() || n.value.stopped)
  {
    hide View.WellFormed, MeshIdsOnce, Completes;
  }

  lemma DeletesShrink(t: Topology, s: State, op: Operation, s': State)
    requires Fit(t, s) && Lawful(t, op) && Realized(s, op, s')
    ensures DeletesOwed(t, s'.view, s'.steps) <= DeletesOwed(t, s.view, s.steps) - {op.Key()}
  {
    hide DeleteDue, Fit, Lawful, Realized, Lookup;
    forall n | n in s'.view.nodes && DeleteDue(t, n, s'.steps)
      ensures n in s.view.nodes && DeleteDue(t, n, s.steps) && t.PinAt(n.at).Some?
          && NodeDelete(t.PinAt(n.at).value.id) != op.Key()
    {
      StillDeleteDue(t, s, op, s', n);
    }
  }

  lemma StillDeleteDue(t: Topology, s: State, op: Operation, s': State, n: Node)
    requires Fit(t, s) && Lawful(t, op) && Realized(s, op, s') && n in s'.view.nodes && DeleteDue(t, n, s'.steps)
    ensures n in s.view.nodes && DeleteDue(t, n, s.steps) && t.PinAt(n.at).Some?
        && NodeDelete(t.PinAt(n.at).value.id) != op.Key()
  {
    hide Realized, Done, Lookup, PinnedHere, View.WellFormed, Unpinned, Identified, Topology.WellFormed,
        Topology.SpecAt;
    NotNew(t, s, op, s', n);
    Grows(s, op, s', NodeDelete(t.PinAt(n.at).value.id));
    assert CreatedBy(t, s.steps) <= CreatedBy(t, s'.steps) by {
      forall key ensures Done(s.steps, key) ==> Done(s'.steps, key) { Grows(s, op, s', key); }
    }
  }

  lemma NotNew(t: Topology, s: State, op: Operation, s': State, n: Node)
    requires Fit(t, s) && Lawful(t, op) && Realized(s, op, s') && n in s'.view.nodes && !t.Contains(n.at)
    ensures n in s.view.nodes
  {
    hide View.WellFormed, MeshIdsOnce, Completes, Unpinned, Identified, Topology.WellFormed, Lookup, Topology.SpecAt,
        FirstAt;
    if op.CreateNode? { Named(t, op.mesh, op.at); }
  }

  lemma ShutdownsShrink(t: Topology, s: State, op: Operation, s': State)
    requires Fit(t, s) && Lawful(t, op) && Realized(s, op, s')
    ensures ShutdownsOwed(t, s'.view, s'.steps) <= ShutdownsOwed(t, s.view, s.steps) - {op.Key()}
  {
    hide Fit, Lawful, Realized, OpenDeletes;
    forall m | m in s'.view.meshes && Going(t, m, OpenDeletes(s'.view, s'.steps)) && m.id.Some?
      ensures m in s.view.meshes && Going(t, m, OpenDeletes(s.view, s.steps)) && MeshDelete(m.id.value) != op.Key()
    {
      StillGoing(t, s, op, s', m);
    }
  }

  ghost predicate IsOpen(m: Mesh, steps: seq<Step>) {
    m.id.Some? && Completed(steps, MeshDelete(m.id.value), STEP_ACCEPTED_ROSTER)
        && OwnerResume(steps, MeshDelete(m.id.value)) == LeadIt
  }

  lemma OpenExactly(v: View, steps: seq<Step>, m: Mesh)
    requires v.WellFormed() && m in v.meshes
    ensures m.name in OpenDeletes(v, steps) <==> IsOpen(m, steps)
  {
    hide Completed, OwnerResume, FirstAt, FirstOf;
  }

  lemma StillGoing(t: Topology, s: State, op: Operation, s': State, m: Mesh)
    requires Fit(t, s) && Lawful(t, op) && Realized(s, op, s')
    requires m in s'.view.meshes && Going(t, m, OpenDeletes(s'.view, s'.steps)) && m.id.Some?
    ensures m in s.view.meshes && Going(t, m, OpenDeletes(s.view, s.steps)) && MeshDelete(m.id.value) != op.Key()
  {
    hide View.WellFormed, MeshIdsOnce, Completes, Unpinned, Identified, Topology.WellFormed, Lookup, FirstAt,
        OpenDeletes, Completed, View.At, View.HoldsMesh;
    var key := MeshDelete(m.id.value);
    OpenExactly(s'.view, s'.steps, m);
    GrowsMesh(s, op, s', key, STEP_ACCEPTED_ROSTER);
    GrowsMesh(s, op, s', key, STEP_MESH_DELETED);
    GrowsMesh(s, op, s', key, STEP_MESH_LEFT);
    assert m in s.view.meshes;
    OpenExactly(s.view, s.steps, m);
  }

  lemma StaysFit(t: Topology, s: State, op: Operation, s': State)
    requires Fit(t, s) && Lawful(t, op) && Realized(s, op, s')
    ensures Fit(t, s')
  {
    hide Topology.WellFormed, Completes, Identified, Topology.Replaced, Lookup, View.HoldsMesh, Fresh;
    StaysFresh(t, s, op, s');
    forall p | s'.view.At(p).Some? && t.CreatedId(p).Some? && t.Replaced(p).None?
        ensures NotPinned(t, s'.view.At(p).value.id) {
      if s'.view.At(p) != s.view.At(p) { NewIsMinted(t, s, op, s', p); }
    }
  }

  lemma StaysFresh(t: Topology, s: State, op: Operation, s': State)
    requires Fit(t, s) && Lawful(t, op) && Realized(s, op, s')
    ensures Fresh(t, s'.view)
  {
    hide Topology.WellFormed, Completes, Topology.Replaced, View.HoldsMesh, MeshIdsOnce, Unpinned, FirstAt, FirstOf,
        FirstNamed;
    forall n, c | n in s'.view.nodes && c in t.created && n.id == c.1 ensures n.at == c.0 {
      if op.CreateNode? && n.at == op.at {
        assert s'.view.At(n.at) == Some(n) && (op.at, op.nodeId) in t.created;
      }
    }
  }

  lemma NewIsMinted(t: Topology, s: State, op: Operation, s': State, p: PathName)
    requires Fit(t, s) && Lawful(t, op) && Realized(s, op, s') && s'.view.At(p).Some? && s'.view.At(p) != s.view.At(p)
    ensures NotPinned(t, s'.view.At(p).value.id)
  {
    hide Topology.WellFormed, Completes, Identified, Topology.Replaced, View.HoldsMesh, MeshIdsOnce;
    if op.CreateNode? && p == op.at { assert (op.at, op.nodeId) in t.created; }
  }

  /** Realising an operation of the Build takes its key off what is owed, and puts nothing on. */
  lemma OwedShrinks(t: Topology, s: State, op: Operation, s': State)
    requires Fit(t, s) && Lawful(t, op) && Realized(s, op, s')
    ensures Fit(t, s') && Owed(t, s'.view, s'.steps) <= Owed(t, s.view, s.steps) - {op.Key()}
  {
    hide Fit, Lawful, Realized, MeshesOwed, ReplacesOwed, CreatesOwed, DeletesOwed, ShutdownsOwed;
    StaysFit(t, s, op, s');
    MeshesShrink(t, s, op, s');
    ReplacesShrink(t, s, op, s');
    CreatesShrink(t, s, op, s');
    DeletesShrink(t, s, op, s');
    ShutdownsShrink(t, s, op, s');
  }

  // ---------------------------------------------------------------------------------------------
  // Passes
  // ---------------------------------------------------------------------------------------------

  /** `ops` ran one after another from `s` to `s'`. */
  ghost predicate Ran(s: State, ops: seq<Operation>, s': State)
    decreases |ops|
  {
    if ops == [] then s == s' else exists mid :: Realized(s, ops[0], mid) && Ran(mid, ops[1..], s')
  }

  /** A pass: some of what it planned ran, in any order, at least one operation of it. */
  ghost predicate Pass(t: Topology, s: State, s': State)
    requires t.WellFormed()
  {
    exists ops :: ops != [] && (forall op :: op in ops ==> op in PlanFor(t, s.view, s.steps)) && Ran(s, ops, s')
  }

  lemma {:induction false} RanShrinks(t: Topology, s: State, ops: seq<Operation>, s': State)
    requires Fit(t, s) && Ran(s, ops, s') && forall op :: op in ops ==> Lawful(t, op)
    ensures Fit(t, s') && Owed(t, s'.view, s'.steps) <= Owed(t, s.view, s.steps)
    ensures ops != [] ==> ops[0].Key() !in Owed(t, s'.view, s'.steps)
    decreases |ops|
  {
    hide Fit, Lawful, Realized, Owed;
    if ops != [] {
      var mid :| Realized(s, ops[0], mid) && Ran(mid, ops[1..], s');
      OwedShrinks(t, s, ops[0], mid);
      RanShrinks(t, mid, ops[1..], s');
    }
  }

  /** Every pass that completes anything strictly decreases the count of what is owed. */
  lemma PassDecreases(t: Topology, s: State, s': State)
    requires Fit(t, s) && Pass(t, s, s')
    ensures Fit(t, s') && |Owed(t, s'.view, s'.steps)| < |Owed(t, s.view, s.steps)|
  {
    hide Topology.WellFormed, View.WellFormed, Identified, Unpinned, Lawful, Ran, Owed, PlanFor;
    var ops: seq<Operation> :|
        ops != [] && (forall op :: op in ops ==> op in PlanFor(t, s.view, s.steps)) && Ran(s, ops, s');
    forall op | op in ops ensures Lawful(t, op) { PlannedIsLawful(t, s.view, s.steps, op); }
    RanShrinks(t, s, ops, s');
    PlannedIsOwed(t, s.view, s.steps, ops[0]);
    Smaller(Owed(t, s'.view, s'.steps), Owed(t, s.view, s.steps), ops[0].Key());
  }

  lemma Smaller<T>(a: set<T>, b: set<T>, x: T)
    requires a <= b && x in b && x !in a
    ensures |a| < |b|
  {
    assert a <= b - {x};
    Subset(a, b - {x});
  }

  lemma Subset<T>(a: set<T>, b: set<T>)
    requires a <= b
    ensures |a| <= |b|
  {
    assert b == a + (b - a);
  }

  /** A drive of passes, each from where the one before it ended. */
  ghost predicate Drive(t: Topology, drive: seq<State>) {
    && drive != [] && Fit(t, drive[0])
    && forall i :: 0 <= i < |drive| - 1 ==> Pass(t, drive[i], drive[i + 1])
  }

  /** A drive makes no more passes than operations were owed at its start. */
  lemma {:induction false} PassesBounded(t: Topology, drive: seq<State>)
    requires Drive(t, drive)
    ensures
      var last := drive[|drive| - 1];
      && Fit(t, last)
      && |drive| - 1 + |Owed(t, last.view, last.steps)| <= |Owed(t, drive[0].view, drive[0].steps)|
  {
    hide Topology.WellFormed, View.WellFormed, Identified, Unpinned, Fresh, MeshIdsOnce, Pass, Owed;
    if |drive| > 1 {
      var before := drive[..|drive| - 1];
      forall i | 0 <= i < |before| - 1 ensures Pass(t, before[i], before[i + 1]) {
        assert before[i] == drive[i] && before[i + 1] == drive[i + 1];
      }
      PassesBounded(t, before);
      PassDecreases(t, drive[|drive| - 2], drive[|drive| - 1]);
    }
  }
}
