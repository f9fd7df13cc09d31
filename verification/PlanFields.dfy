/** The plan read off the topology, the view and the step events themselves: exactly which operations it holds, each by
    the fields that decide it. */
module PlanFields {
  import opened Order
  import opened Model
  import opened Planner
  import opened PlanShape
  import opened PlanKeys

  /** A kept mesh the view does not list, under its accepted id. */
  ghost predicate MakesMesh(t: Topology, v: View, op: Operation) {
    op.CreateMesh? && op.mesh in t.meshes && op.meshId == t.meshes[op.mesh].id && forall m ::
        m in v.meshes ==> m.name != op.mesh
  }

  /** A listed mesh the topology does not name, its id known, not Dead or its delete open. */
  ghost predicate ShutsMesh(t: Topology, v: View, open: set<string>, op: Operation) {
    exists m :: m in v.meshes && m.id.Some? && op == ShutdownMesh(m.name, m.id.value) && m.name !in t.meshes
      && (m.status != ScopeDead || m.name in open)
  }

  /** The `i`th pin is a replacement in mesh `name`, created again under `id`. */
  ghost predicate Replaces(t: Topology, name: string, i: int, id: NodeId)
    requires name in t.meshes
  {
    0 <= i < |t.pinned| && t.pinned[i].0 in t.meshes[name].nodes && (t.pinned[i].0, id) in t.created
  }

  /** It is the first of its mesh, from `from` on, whose create is not complete. */
  ghost predicate Turn(t: Topology, name: string, steps: seq<Step>, from: int, i: int, id: NodeId)
    requires name in t.meshes
  {
    && from <= i && Replaces(t, name, i, id) && Step(NodeCreate(id), "Complete", Complete) !in steps
    && forall j, other ::
        from <= j < i && Replaces(t, name, j, other) ==> Step(NodeCreate(other), "Complete", Complete) in steps
  }

  /** The step of the replacement whose turn it is: its pinned birth's delete, then, once that is complete, its create.
      */
  ghost predicate TakesTurn(t: Topology, name: string, steps: seq<Step>, from: int, i: int, id: NodeId, op: Operation)
    requires name in t.meshes
  {
    && Turn(t, name, steps, from, i, id)
    && var (p, b) := t.pinned[i];
       if Step(NodeDelete(b.id), "Complete", Complete) !in steps then op == DeleteNode(p, b.mesh, b.kind, Some(b))
       else
         && p in t.meshes[name].specs
         && op == CreateNode(p, id, name, t.meshes[name].specs[p].kind, t.meshes[name].specs[p].executable)
  }

  /** The birth holds what the path's create asks for: of its mesh and type, and live, or stopped with the create
      complete, or silent in a mesh held unheard. */
  ghost predicate Holds(n: Node, name: string, s: Spec, id: NodeId, held: set<string>, steps: seq<Step>) {
    && n.mesh == name && n.kind == s.kind
    && (|| n.status in {Pending, Ready, ConnectionsDeleting}
        || (n.stopped && Step(NodeCreate(id), "Complete", Complete) in steps)
        || (name in held && n.status in {PendingReconnect, Dead}))
  }

  /** A created path that no pin replaces, its create begun and not complete, or the view holding no birth for it. */
  ghost predicate CreatesNode(t: Topology, v: View, held: set<string>, steps: seq<Step>, op: Operation) {
    && op.CreateNode? && op.mesh in t.meshes && op.at in t.meshes[op.mesh].nodes && op.at in t.meshes[op.mesh].specs
    && op.kind == t.meshes[op.mesh].specs[op.at].kind && op.executable == t.meshes[op.mesh].specs[op.at].executable
    && (op.at, op.nodeId) in t.created && (forall e :: e in t.pinned ==> e.0 != op.at)
    && (|| (Step(NodeCreate(op.nodeId), "Complete", Complete) !in steps && exists s ::
            s in steps && s.operation == NodeCreate(op.nodeId))
        || forall n ::
            n in v.nodes && n.at == op.at ==>
              !Holds(n, op.mesh, t.meshes[op.mesh].specs[op.at], op.nodeId, held, steps))
  }

  /** The unfinished delete of a birth pinned at a path no mesh names and no create of the Build holds, while the view
      lists there that very birth, or a live or stopped one of a kept mesh. */
  ghost predicate DeletesBirth(t: Topology, v: View, steps: seq<Step>, created: set<PathName>, n: Node, b: PinnedBirth,
      op: Operation) {
    && n in v.nodes && (n.at, b) in t.pinned && op == DeleteNode(n.at, b.mesh, b.kind, Some(b))
    && Step(NodeDelete(b.id), "Complete", Complete) !in steps
    && n.at !in created && (forall m :: m in t.meshes ==> n.at !in t.meshes[m].nodes)
    && (|| (n.kind == b.kind && n.mesh == b.mesh && n.id == b.id && n.incarnation == Some(b.incarnation))
        || (n.mesh in t.meshes && (n.status in {Pending, Ready, ConnectionsDeleting} || n.stopped)))
  }

  // ---------------------------------------------------------------------------------------------
  // Each kind of operation
  // ---------------------------------------------------------------------------------------------

  lemma DoneExactly(steps: seq<Step>, key: OpKey)
    ensures Done(steps, key) <==> Step(key, "Complete", Complete) in steps
  {
  }

  lemma CreatedExactly(t: Topology, p: PathName, id: NodeId)
    requires Identified(t)
    ensures t.CreatedId(p) == Some(id) <==> (p, id) in t.created
    ensures t.CreatedId(p).None? <==> forall e :: e in t.created ==> e.0 != p
  {
    hide Lookup;
    if (p, id) in t.created && t.CreatedId(p).Some? {
      var e := (p, t.CreatedId(p).value);
      assert e in t.created && (p, id) in t.created;
    }
  }

  lemma PinnedExactly(t: Topology, p: PathName, b: PinnedBirth)
    requires Identified(t)
    ensures t.PinAt(p) == Some(b) <==> (p, b) in t.pinned
    ensures t.PinAt(p).None? <==> forall e :: e in t.pinned ==> e.0 != p
  {
    hide Lookup;
    if (p, b) in t.pinned && t.PinAt(p).Some? {
      var e := (p, t.PinAt(p).value);
      assert e in t.pinned && (p, b) in t.pinned;
    }
  }

  lemma MeshCreateExactly(t: Topology, v: View, op: Operation)
    ensures IsMeshCreate(t, v, op) <==> MakesMesh(t, v, op)
  {
  }

  lemma ShutdownExactly(t: Topology, v: View, open: set<string>, op: Operation)
    requires v.WellFormed()
    ensures IsShutdown(t, v, open, op) <==> ShutsMesh(t, v, open, op)
  {
    hide FirstNamed, FirstAt, FirstOf;
    if m :| m in v.meshes && Going(t, m, open) && op in ShutdownAt(v)(m.name) { assert v.MeshNamed(m.name) == Some(m); }
    if m :| m in v.meshes && m.id.Some? && op == ShutdownMesh(m.name, m.id.value) && m.name !in t.meshes
            && (m.status != ScopeDead || m.name in open) {
      assert v.MeshNamed(m.name) == Some(m);
      assert Going(t, m, open) && op in ShutdownAt(v)(m.name);
    }
  }

  lemma {:induction false} StepExactly(t: Topology, name: string, steps: seq<Step>, from: nat, op: Operation)
    requires t.WellFormed() && Identified(t) && name in t.meshes && from <= |t.pinned|
    ensures StepFrom(t, name, t.pinned[from..], steps) == Some(op) <==> exists i, id ::
        TakesTurn(t, name, steps, from, i, id, op)
    decreases |t.pinned| - from
  {
    hide Identified, Topology.WellFormed, TakesTurn, Topology.CreatedId, Done;
    if from < |t.pinned| {
      var p := t.pinned[from].0;
      assert t.pinned[from..][0] == t.pinned[from] && t.pinned[from..][1..] == t.pinned[from + 1..];
      StepExactly(t, name, steps, from + 1, op);
      var id := t.CreatedId(p);
      if p !in t.meshes[name].nodes || id.None? || Done(steps, NodeCreate(id.value)) {
        PassedOver(t, name, steps, from, from + 1, op);
      } else {
        ItsTurn(t, name, steps, from, id.value, op);
      }
    } else {
      NoTurn(t, name, steps, from, op);
    }
  }

  lemma NoTurn(t: Topology, name: string, steps: seq<Step>, from: nat, op: Operation)
    requires name in t.meshes && from == |t.pinned|
    ensures forall i, id :: !TakesTurn(t, name, steps, from, i, id, op)
  {
  }

  /** A pin whose create is complete, or that is no replacement of the mesh, changes no turn. */
  lemma PassedOver(t: Topology, name: string, steps: seq<Step>, from: nat, next: nat, op: Operation)
    requires t.WellFormed() && Identified(t) && name in t.meshes && from < |t.pinned| && next == from + 1
    requires
      var id := t.CreatedId(t.pinned[from].0);
      t.pinned[from].0 !in t.meshes[name].nodes || id.None? || Done(steps, NodeCreate(id.value))
    ensures (exists i, id :: TakesTurn(t, name, steps, from, i, id, op)) <==>
        exists i, id :: TakesTurn(t, name, steps, next, i, id, op)
  {
    hide Identified, Topology.WellFormed, Topology.CreatedId, Done;
    forall id | Replaces(t, name, from, id) ensures Step(NodeCreate(id), "Complete", Complete) in steps {
      CreatedExactly(t, t.pinned[from].0, id);
      DoneExactly(steps, NodeCreate(id));
    }
    if i, id :| TakesTurn(t, name, steps, from, i, id, op) {
      assert i != from;
      assert TakesTurn(t, name, steps, next, i, id, op);
    }
    if i, id :| TakesTurn(t, name, steps, next, i, id, op) {
      assert TakesTurn(t, name, steps, from, i, id, op);
    }
  }

  lemma ItsTurn(t: Topology, name: string, steps: seq<Step>, from: nat, id: NodeId, op: Operation)
    requires t.WellFormed() && Identified(t) && name in t.meshes && from < |t.pinned|
    requires t.pinned[from].0 in t.meshes[name].nodes && t.CreatedId(t.pinned[from].0) == Some(id)
        && !Done(steps, NodeCreate(id))
    ensures StepFrom(t, name, t.pinned[from..], steps) == Some(op) <==> exists i, id' ::
        TakesTurn(t, name, steps, from, i, id', op)
  {
    hide Identified, Topology.WellFormed, Topology.CreatedId, Done;
    var p := t.pinned[from].0;
    assert t.pinned[from..][0] == t.pinned[from];
    CreatedExactly(t, p, id);
    DoneExactly(steps, NodeCreate(id));
    DoneExactly(steps, NodeDelete(t.pinned[from].1.id));
    MeshSpecs(t, name);
    assert Replaces(t, name, from, id);
    forall i, id' | Turn(t, name, steps, from, i, id') ensures i == from && id' == id {
      if i == from { CreatedExactly(t, p, id'); }
    }
    assert Turn(t, name, steps, from, from, id);
    assert StepFrom(t, name, t.pinned[from..], steps) == Some(op) <==> TakesTurn(t, name, steps, from, from, id, op);
  }

  lemma MeshSpecs(t: Topology, name: string)
    requires t.WellFormed() && name in t.meshes
    ensures t.meshes[name].nodes == t.meshes[name].specs.Keys
  {
  }

  lemma NamedExactly(t: Topology, p: PathName)
    requires t.WellFormed()
    ensures t.Contains(p) <==> exists m :: m in t.meshes && p in t.meshes[m].nodes
  {
    ContainsFiled(t, p);
  }

  lemma SatisfiedExactly(t: Topology, name: string, p: PathName, id: NodeId, v: View, held: set<string>,
      steps: seq<Step>)
    requires v.WellFormed() && name in t.meshes && p in t.meshes[name].specs && t.CreatedId(p) == Some(id)
    ensures Satisfied(t, name, p, v, held, steps) <==> exists n ::
        n in v.nodes && n.at == p && Holds(n, name, t.meshes[name].specs[p], id, held, steps)
  {
    hide Topology.CreatedId, FirstAt, FirstOf, FirstNamed, Done;
    DoneExactly(steps, NodeCreate(id));
    BirthListed(v, p);
    if v.At(p).Some? { assert v.At(p).value in v.nodes && v.At(p).value.at == p; }
  }

  lemma BirthListed(v: View, p: PathName)
    requires v.WellFormed()
    ensures forall n :: n in v.nodes && n.at == p ==> v.At(p) == Some(n)
  {
  }

  lemma CreateExactly(t: Topology, v: View, held: set<string>, steps: seq<Step>, op: Operation)
    requires t.WellFormed() && Identified(t) && v.WellFormed()
    ensures IsOrdinaryCreate(t, v, held, steps, op) <==> CreatesNode(t, v, held, steps, op)
  {
    hide Identified, Topology.WellFormed, View.WellFormed, CreateDue, Topology.SpecAt, Holds;
    if IsOrdinaryCreate(t, v, held, steps, op) {
      var name, p :| name in t.meshes && CreatesHere(t, name, p, v, held, steps, op);
      OrdinarySays(t, name, p, v, held, steps, op);
      DueExactly(t, name, op.at, op.nodeId, v, held, steps);
    }
    if CreatesNode(t, v, held, steps, op) {
      CreatedExactly(t, op.at, op.nodeId);
      DueExactly(t, op.mesh, op.at, op.nodeId, v, held, steps);
      Named(t, op.mesh, op.at);
      assert CreatesHere(t, op.mesh, op.at, v, held, steps, op);
    }
  }

  lemma DueExactly(t: Topology, name: string, p: PathName, id: NodeId, v: View, held: set<string>, steps: seq<Step>)
    requires t.WellFormed() && Identified(t) && v.WellFormed() && name in t.meshes && p in t.meshes[name].nodes
        && p in t.meshes[name].specs && t.CreatedId(p) == Some(id)
    ensures (p, id) in t.created
    ensures CreateDue(t, name, p, v, held, steps) <==>
            && (forall e :: e in t.pinned ==> e.0 != p)
            && (|| (Step(NodeCreate(id), "Complete", Complete) !in steps && exists s ::
                    s in steps && s.operation == NodeCreate(id))
                || forall n ::
                    n in v.nodes && n.at == p ==> !Holds(n, name, t.meshes[name].specs[p], id, held, steps))
  {
    hide Identified, Topology.WellFormed, View.WellFormed, Satisfied, Done, Topology.CreatedId, Topology.SpecAt, Holds,
        Topology.PinAt;
    CreatedExactly(t, p, id);
    SatisfiedExactly(t, name, p, id, v, held, steps);
    DoneExactly(steps, NodeCreate(id));
    Named(t, name, p);
    PinnedNowhere(t, p);
  }

  lemma PinnedNowhere(t: Topology, p: PathName)
    requires Identified(t)
    ensures t.PinAt(p).None? <==> forall e :: e in t.pinned ==> e.0 != p
  {
    if t.PinAt(p).Some? { PinnedExactly(t, p, t.PinAt(p).value); }
  }

  lemma DeleteExactly(t: Topology, v: View, steps: seq<Step>, created: set<PathName>, op: Operation)
    requires t.WellFormed() && Identified(t)
    ensures IsExtraDelete(t, v, steps, created, op) <==> exists n, b :: DeletesBirth(t, v, steps, created, n, b, op)
  {
    hide Identified, Topology.WellFormed, Done, Topology.PinAt, Extra, DeletesBirth;
    if n :| n in v.nodes && Extra(t, n, created) && op in DeleteAt(t, steps)(n.at) {
      PinAtPinned(t, n.at, created, n);
      PinnedExactly(t, n.at, t.PinAt(n.at).value);
      OneDeleteExactly(t, v, steps, created, n, t.PinAt(n.at).value, op);
    }
    if n, b :| DeletesBirth(t, v, steps, created, n, b, op) {
      DeletePinned(t, v, steps, created, n, b, op);
      OneDeleteExactly(t, v, steps, created, n, b, op);
    }
  }

  lemma PinAtPinned(t: Topology, p: PathName, created: set<PathName>, n: Node)
    requires Extra(t, n, created) && n.at == p
    ensures t.PinAt(p).Some?
  {
  }

  lemma DeletePinned(t: Topology, v: View, steps: seq<Step>, created: set<PathName>, n: Node, b: PinnedBirth,
      op: Operation)
    requires DeletesBirth(t, v, steps, created, n, b, op)
    ensures n in v.nodes && (n.at, b) in t.pinned
  {
  }

  lemma OneDeleteExactly(t: Topology, v: View, steps: seq<Step>, created: set<PathName>, n: Node, b: PinnedBirth,
      op: Operation)
    requires t.WellFormed() && Identified(t) && n in v.nodes && (n.at, b) in t.pinned
    ensures Extra(t, n, created) && op in DeleteAt(t, steps)(n.at) <==> DeletesBirth(t, v, steps, created, n, b, op)
  {
    hide Identified, Topology.WellFormed, Done, Topology.PinAt, Topology.SpecAt, PinnedHere;
    PinnedExactly(t, n.at, b);
    NamedExactly(t, n.at);
    DoneExactly(steps, NodeDelete(b.id));
    VeryBirth(t, n, b);
  }

  lemma VeryBirth(t: Topology, n: Node, b: PinnedBirth)
    requires Identified(t) && (n.at, b) in t.pinned
    ensures PinnedHere(t, n) <==>
        n.kind == b.kind && n.mesh == b.mesh && n.id == b.id && n.incarnation == Some(b.incarnation)
  {
    hide Identified;
    if e :| e in t.pinned && e.0 == n.at && e.1.Is(n) { SamePinned(t, e.0, n.at, e.1, b); }
    var e := (n.at, b);
    assert e in t.pinned;
  }

  // ---------------------------------------------------------------------------------------------
  // The plan
  // ---------------------------------------------------------------------------------------------

  /** A plan holds exactly: the missing kept meshes' creates, one step of each mesh's replacements, the creates due, the
      deletes of the pinned births still surplus, and the shutdowns of the meshes no longer named. */
  lemma PlanByFields(t: Topology, v: View, open: set<string>, held: set<string>, steps: seq<Step>,
      created: set<PathName>, op: Operation)
    requires t.WellFormed() && Identified(t) && v.WellFormed()
    ensures op in BuildPlan(t, v, open, held, steps, created) <==>
            || MakesMesh(t, v, op)
            || (exists name, i, id :: name in t.meshes && TakesTurn(t, name, steps, 0, i, id, op))
            || CreatesNode(t, v, held, steps, op)
            || (exists n, b :: DeletesBirth(t, v, steps, created, n, b, op))
            || ShutsMesh(t, v, open, op)
  {
    hide BuildPlan, Identified, Topology.WellFormed, View.WellFormed, IsMeshCreate, IsOrdinaryCreate, IsExtraDelete,
        IsShutdown, MakesMesh, ShutsMesh, CreatesNode, DeletesBirth, TakesTurn, StepFrom;
    PlanHas(t, v, open, held, steps, created, op);
    MeshCreateExactly(t, v, op);
    ShutdownExactly(t, v, open, op);
    CreateExactly(t, v, held, steps, op);
    DeleteExactly(t, v, steps, created, op);
    assert t.pinned[0..] == t.pinned;
    forall name | name in t.meshes
      ensures ReplacementStep(t, name, steps) == Some(op) <==> exists i, id ::
          TakesTurn(t, name, steps, 0, i, id, op)
    {
      StepExactly(t, name, steps, 0, op);
    }
  }

  /** The meshes whose delete is open: begun by their accepted roster, and neither deleted nor left. */
  lemma OpenByFields(v: View, steps: seq<Step>, name: string)
    ensures name in OpenDeletes(v, steps) <==>
            exists m ::
              && m in v.meshes && m.name == name && m.id.Some?
              && Step(MeshDelete(m.id.value), "AcceptedRoster", Complete) in steps
              && Step(MeshDelete(m.id.value), "MeshDeleted", Complete) !in steps
              && Step(MeshDelete(m.id.value), "MeshLeft", Complete) !in steps
  {
    hide Completed;
    forall m: Mesh, step | m.id.Some?
      ensures Completed(steps, MeshDelete(m.id.value), step) <==>
          Step(MeshDelete(m.id.value), step, Complete) in steps
    {
      CompletedExactly(steps, MeshDelete(m.id.value), step);
    }
  }

  lemma CompletedExactly(steps: seq<Step>, key: OpKey, step: string)
    ensures Completed(steps, key, step) <==> Step(key, step, Complete) in steps
  {
  }
}
