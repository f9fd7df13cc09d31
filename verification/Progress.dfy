/** Planning makes progress: while anything is planned an executor can realise some of it, so a drive that cannot go on
    has nothing left to plan. */
module Progress {
  import opened Order
  import opened Model
  import opened Planner
  import opened PlanShape
  import opened PlanKeys
  import opened Convergence

  // ---------------------------------------------------------------------------------------------
  // Views by their elements
  // ---------------------------------------------------------------------------------------------

  /** A view is well formed once its births and its meshes tell apart what names them. */
  lemma WellFormedFrom(v: View)
    requires forall n, n' :: n in v.nodes && n' in v.nodes && (n.at == n'.at || n.id == n'.id) ==> n == n'
    requires forall m, m' :: m in v.meshes && m' in v.meshes && m.name == m'.name ==> m == m'
    requires (forall n :: n in v.nodes ==> v.HoldsMesh(n.mesh)) && NoRepeats(v.nodes) && NoRepeats(v.meshes)
    ensures v.WellFormed()
  {
    hide FirstAt, FirstOf, FirstNamed, View.HoldsMesh;
    forall n | n in v.nodes ensures v.At(n.at) == Some(n) && v.Own(n.id) == Some(n) {
      assert v.At(n.at).Some? && v.Own(n.id).Some?;
    }
    forall m | m in v.meshes ensures v.MeshNamed(m.name) == Some(m) { assert v.MeshNamed(m.name).Some?; }
  }

  lemma ToldApart(v: View)
    requires v.WellFormed()
    ensures forall n, n' :: n in v.nodes && n' in v.nodes && (n.at == n'.at || n.id == n'.id) ==> n == n'
    ensures forall m, m' :: m in v.meshes && m' in v.meshes && m.name == m'.name ==> m == m'
  {
    hide FirstAt, FirstOf, FirstNamed, View.HoldsMesh;
    forall n, n' | n in v.nodes && n' in v.nodes && (n.at == n'.at || n.id == n'.id) ensures n == n' {
      assert v.At(n.at) == Some(n) && v.At(n'.at) == Some(n') && v.Own(n.id) == Some(n) && v.Own(n'.id) == Some(n');
    }
    forall m, m' | m in v.meshes && m' in v.meshes && m.name == m'.name ensures m == m' {
      assert v.MeshNamed(m.name) == Some(m) && v.MeshNamed(m'.name) == Some(m');
    }
  }

  /** Two views with the same births at a location read it alike. */
  lemma AtAlike(v: View, v': View, p: PathName)
    requires v.WellFormed() && v'.WellFormed()
    requires forall n: Node :: n.at == p ==> (n in v.nodes <==> n in v'.nodes)
    ensures v.At(p) == v'.At(p)
  {
    hide FirstAt, FirstOf, FirstNamed, View.HoldsMesh;
    if v.At(p).Some? { assert v.At(p).value in v'.nodes; }
    if v'.At(p).Some? { assert v'.At(p).value in v.nodes; }
    if v.At(p).None? && v'.At(p).Some? { NoneThere(v, p); }
    if v'.At(p).None? && v.At(p).Some? { NoneThere(v', p); }
  }

  lemma NoneThere(v: View, p: PathName)
    requires v.At(p).None?
    ensures forall n :: n in v.nodes ==> n.at != p
  {
  }

  /** The births `keep` holds of. */
  function Only(nodes: seq<Node>, keep: Node -> bool): (r: seq<Node>)
    ensures forall n :: n in r <==> n in nodes && keep(n)
  {
    if nodes == [] then []
    else Only(nodes[..|nodes| - 1], keep) + if keep(nodes[|nodes| - 1]) then [nodes[|nodes| - 1]] else []
  }

  lemma {:induction false} OnlyOnce(nodes: seq<Node>, keep: Node -> bool)
    requires NoRepeats(nodes)
    ensures NoRepeats(Only(nodes, keep))
  {
    if nodes != [] {
      var rest, last := nodes[..|nodes| - 1], nodes[|nodes| - 1];
      OnlyOnce(rest, keep);
      assert last !in rest;
    }
  }

  // ---------------------------------------------------------------------------------------------
  // An operation realised
  // ---------------------------------------------------------------------------------------------

  function LastStep(op: Operation): Step {
    Step(op.Key(), if op.ShutdownMesh? then STEP_MESH_DELETED else "Complete", Complete)
  }

  /** The state after `op` left the view `v'`. */
  function Onward(s: State, op: Operation, v': View): State { State(v', s.steps + [LastStep(op)]) }

  lemma OnwardRealizes(s: State, op: Operation, v': View)
    requires v'.WellFormed() && MeshIdsOnce(v') && Effect(op, s.view, v')
    ensures Realized(s, op, Onward(s, op, v'))
  {
    hide View.WellFormed, MeshIdsOnce, Effect;
    var s' := Onward(s, op, v');
    assert s'.steps[..|s.steps|] == s.steps && s'.steps[|s.steps|..] == [LastStep(op)];
    assert LastStep(op) in [LastStep(op)];
  }

  function MeshMade(v: View, name: string, id: MeshId): View {
    v.(meshes := v.meshes + [Mesh(Some(id), name, ScopeReady)])
  }

  lemma MeshCreatable(t: Topology, s: State, name: string) returns (v': View)
    requires Fit(t, s) && name in t.meshes && !s.view.HoldsMesh(name)
    ensures Realized(s, CreateMesh(name, t.meshes[name].id), Onward(s, CreateMesh(name, t.meshes[name].id), v'))
  {
    hide Topology.WellFormed, Identified, Unpinned, FirstAt, FirstOf, FirstNamed, View.WellFormed;
    var v, id := s.view, t.meshes[name].id;
    v' := MeshMade(v, name, id);
    ToldApart(v);
    Kept(v);
    var made := Mesh(Some(id), name, ScopeReady);
    assert made in v'.meshes && forall m :: m in v'.meshes <==> m in v.meshes || m == made;
    WellFormedFrom(v');
    OnwardRealizes(s, CreateMesh(name, id), v');
  }

  /** What a well-formed view lists, it lists once, and it lists its births' meshes. */
  lemma Kept(v: View)
    requires v.WellFormed()
    ensures NoRepeats(v.nodes) && NoRepeats(v.meshes) && forall n :: n in v.nodes ==> v.HoldsMesh(n.mesh)
  {
  }

  /** The birth a create leaves. */
  function Born(op: Operation): Node
    requires op.CreateNode?
  {
    Node(op.at, op.kind, op.mesh, op.nodeId, None, Ready, false, false, false)
  }

  function NodeMade(v: View, op: Operation): View
    requires op.CreateNode?
  {
    v.(nodes := Only(v.nodes, (n: Node) => n.at != op.at) + [Born(op)])
  }

  lemma NodeCreatable(t: Topology, s: State, op: Operation) returns (v': View)
    requires Fit(t, s) && op.CreateNode? && t.CreatedId(op.at) == Some(op.nodeId) && s.view.HoldsMesh(op.mesh)
    ensures Realized(s, op, Onward(s, op, v'))
  {
    hide Topology.WellFormed, Identified, Unpinned, FirstAt, FirstOf, FirstNamed, View.WellFormed, View.HoldsMesh,
        Only, View.At;
    var v := s.view;
    v' := NodeMade(v, op);
    ToldApart(v);
    Kept(v);
    OnlyOnce(v.nodes, (n: Node) => n.at != op.at);
    assert forall n :: n in v'.nodes <==> (n in v.nodes && n.at != op.at) || n == Born(op);
    assert (op.at, op.nodeId) in t.created;
    SameMeshesHeld(v, v');
    WellFormedFrom(v');
    BirthThere(v', Born(op));
    forall p | p != op.at ensures v'.At(p) == v.At(p) { AtAlike(v, v', p); }
    OnwardRealizes(s, op, v');
  }

  lemma SameMeshesHeld(v: View, v': View)
    requires v'.meshes == v.meshes
    ensures forall m :: v'.HoldsMesh(m) <==> v.HoldsMesh(m)
  {
  }

  lemma BirthThere(v: View, n: Node)
    requires v.WellFormed() && n in v.nodes
    ensures v.At(n.at) == Some(n)
  {
  }

  function NodeGone(v: View, id: NodeId): View {
    v.(nodes := Only(v.nodes, (n: Node) => n.id != id))
  }

  lemma NodeDeletable(t: Topology, s: State, op: Operation) returns (v': View)
    requires Fit(t, s) && op.DeleteNode? && op.birth.Some?
    ensures Realized(s, op, Onward(s, op, v'))
  {
    hide Topology.WellFormed, Identified, Unpinned, FirstAt, FirstOf, FirstNamed, View.WellFormed, View.HoldsMesh,
        Only, View.At;
    var v, id := s.view, op.birth.value.id;
    v' := NodeGone(v, id);
    ToldApart(v);
    Kept(v);
    OnlyOnce(v.nodes, (n: Node) => n.id != id);
    assert forall n :: n in v'.nodes <==> n in v.nodes && n.id != id;
    SameMeshesHeld(v, v');
    WellFormedFrom(v');
    forall p | v.At(p).Some? && v.At(p).value.id != id ensures v'.At(p) == v.At(p) {
      BirthAt(v, p);
      BirthThere(v', v.At(p).value);
    }
    OnwardRealizes(s, op, v');
  }

  lemma BirthAt(v: View, p: PathName)
    requires v.At(p).Some?
    ensures v.At(p).value in v.nodes && v.At(p).value.at == p
  {
  }

  function Ended(m: Mesh, name: string): Mesh { if m.name == name then m.(status := ScopeDead) else m }

  function MeshGone(v: View, name: string): View {
    v.(meshes := seq(|v.meshes|, i requires 0 <= i < |v.meshes| => Ended(v.meshes[i], name)),
       nodes := Only(v.nodes, (n: Node) => n.mesh != name))
  }

  lemma MeshEndable(t: Topology, s: State, m: Mesh) returns (v': View)
    requires Fit(t, s) && m in s.view.meshes && m.id.Some?
    ensures Realized(s, ShutdownMesh(m.name, m.id.value), Onward(s, ShutdownMesh(m.name, m.id.value), v'))
  {
    hide Topology.WellFormed, Identified, Unpinned, Fresh, FirstAt, FirstOf, FirstNamed, View.WellFormed, Only, View.At;
    var v := s.view;
    v' := MeshGone(v, m.name);
    ToldApart(v);
    Kept(v);
    OnlyOnce(v.nodes, (n: Node) => n.mesh != m.name);
    assert forall n :: n in v'.nodes <==> n in v.nodes && n.mesh != m.name;
    EndedMeshes(v, m);
    WellFormedFrom(v');
    forall p | v.At(p).Some? && v.At(p).value.mesh != m.name ensures v'.At(p) == v.At(p) {
      BirthAt(v, p);
      BirthThere(v', v.At(p).value);
    }
    OnwardRealizes(s, ShutdownMesh(m.name, m.id.value), v');
  }

  lemma EndedMeshes(v: View, m: Mesh)
    requires m in v.meshes && NoRepeats(v.meshes) && MeshIdsOnce(v)
    requires forall x, y :: x in v.meshes && y in v.meshes && x.name == y.name ==> x == y
    ensures
      var v' := MeshGone(v, m.name);
      && (forall x :: x in v'.meshes <==> (x in v.meshes && x.name != m.name) || x == Ended(m, m.name))
      && NoRepeats(v'.meshes) && MeshIdsOnce(v') && forall name :: v.HoldsMesh(name) ==> v'.HoldsMesh(name)
  {
    hide Only, MeshGone;
    var v' := MeshGone(v, m.name);
    forall x
      ensures x in v'.meshes <==> (x in v.meshes && x.name != m.name) || x == Ended(m, m.name)
    {
      EndedHas(v, m, x);
    }
    EndedOnce(v, m);
    forall name | v.HoldsMesh(name) ensures v'.HoldsMesh(name) {
      var x :| x in v.meshes && x.name == name;
      assert (if x.name == m.name then Ended(m, m.name) else x) in v'.meshes;
    }
  }

  lemma EndedHas(v: View, m: Mesh, x: Mesh)
    requires m in v.meshes && forall y :: y in v.meshes && y.name == m.name ==> y == m
    ensures x in MeshGone(v, m.name).meshes <==> (x in v.meshes && x.name != m.name) || x == Ended(m, m.name)
  {
    hide Only;
    var ended := MeshGone(v, m.name).meshes;
    if x in ended {
      var i :| 0 <= i < |ended| && ended[i] == x;
      assert v.meshes[i] in v.meshes && x == Ended(v.meshes[i], m.name);
    } else {
      forall i | 0 <= i < |ended| ensures x != Ended(v.meshes[i], m.name) { assert ended[i] in ended; }
    }
  }

  lemma EndedOnce(v: View, m: Mesh)
    requires NoRepeats(v.meshes) && forall x, y :: x in v.meshes && y in v.meshes && x.name == y.name ==> x == y
    ensures NoRepeats(MeshGone(v, m.name).meshes)
  {
    hide Only;
    var ended := MeshGone(v, m.name).meshes;
    forall i, j | 0 <= i < j < |ended| ensures ended[i] != ended[j] {
      assert v.meshes[i] in v.meshes && v.meshes[j] in v.meshes && v.meshes[i] != v.meshes[j];
    }
  }

  // ---------------------------------------------------------------------------------------------
  // Progress
  // ---------------------------------------------------------------------------------------------

  lemma RanOne(s: State, op: Operation, s': State)
    requires Realized(s, op, s')
    ensures Ran(s, [op], s')
  {
    hide Realized;
    assert [op][1..] == [] && [op][0] == op;
    assert Ran(s', [], s');
  }

  /** While anything is planned, some pass is possible. */
  lemma SomePass(t: Topology, s: State) returns (s': State)
    requires Fit(t, s) && PlanFor(t, s.view, s.steps) != []
    ensures Pass(t, s, s')
  {
    hide Topology.WellFormed, Identified, Unpinned, Fresh, View.WellFormed, Realized, BuildPlan, Ran, MeshIdsOnce;
    var plan := PlanFor(t, s.view, s.steps);
    var op := plan[0];
    if name :| name in t.meshes && !s.view.HoldsMesh(name) {
      op := CreateMesh(name, t.meshes[name].id);
      MissingPlanned(t, s, name);
      var v' := MeshCreatable(t, s, name);
      s' := Onward(s, op, v');
    } else {
      s' := OneRealized(t, s, op);
    }
    RanOne(s, op, s');
    assert [op] != [] && forall x :: x in [op] ==> x in plan;
  }

  lemma MissingPlanned(t: Topology, s: State, name: string)
    requires t.WellFormed() && name in t.meshes && !s.view.HoldsMesh(name)
    ensures CreateMesh(name, t.meshes[name].id) in PlanFor(t, s.view, s.steps)
  {
    hide BuildPlan, Topology.WellFormed, IsReplacement, IsOrdinaryCreate, IsExtraDelete, IsShutdown, View.HoldsMesh;
    var op := CreateMesh(name, t.meshes[name].id);
    PlanHas(t, s.view, OpenDeletes(s.view, s.steps), {}, s.steps, CreatedBy(t, s.steps), op);
  }

  lemma OneRealized(t: Topology, s: State, op: Operation) returns (s': State)
    requires Fit(t, s) && op in PlanFor(t, s.view, s.steps) && forall name ::
        name in t.meshes ==> s.view.HoldsMesh(name)
    ensures Realized(s, op, s')
  {
    hide Topology.WellFormed, Identified, Unpinned, View.WellFormed, Realized, BuildPlan, MeshIdsOnce, View.HoldsMesh,
        Done;
    hide ReplacementStep, Extra, CreateDue, Topology.SpecAt, Topology.Replaced, FirstNamed, OpenDeletes, CreatedBy;
    PlanReads(t, s.view, OpenDeletes(s.view, s.steps), {}, s.steps, CreatedBy(t, s.steps), op);
    PlannedIsLawful(t, s.view, s.steps, op);
    var v';
    if op.CreateNode? {
      v' := NodeCreatable(t, s, op);
    } else if op.DeleteNode? {
      v' := NodeDeletable(t, s, op);
    } else {
      var m :| m in s.view.meshes && m.id.Some? && op == ShutdownMesh(m.name, m.id.value);
      v' := MeshEndable(t, s, m);
    }
    s' := Onward(s, op, v');
  }

  // ---------------------------------------------------------------------------------------------
  // What the empty plan means
  // ---------------------------------------------------------------------------------------------

  /** The view holds the birth the path's create asks for, live, or stopped with the create complete, and no create of
      it is open. */
  ghost predicate CreateSettled(t: Topology, m: string, p: PathName, v: View, steps: seq<Step>)
    requires m in t.meshes
  {
    && t.CreatedId(p).Some? && v.At(p).Some? && v.At(p).value.mesh == m
    && p in t.meshes[m].specs && v.At(p).value.kind == t.meshes[m].specs[p].kind
    && var created := NodeCreate(t.CreatedId(p).value);
       (Began(steps, created) ==> Done(steps, created))
           && (v.At(p).value.status.Live() || (v.At(p).value.stopped && Done(steps, created)))
  }

  /** The pinned birth's delete is complete, or the view holds no birth for it to take: neither the pinned one nor a
      live or stopped one of a kept mesh. */
  ghost predicate DeleteSettled(t: Topology, e: (PathName, PinnedBirth), v: View, steps: seq<Step>) {
    || Done(steps, NodeDelete(e.1.id))
    || v.At(e.0).None?
    || (!e.1.Is(v.At(e.0).value)
        && !(v.At(e.0).value.mesh in t.meshes && (v.At(e.0).value.status.Live() || v.At(e.0).value.stopped)))
  }

  /** Every kept mesh held, every created path satisfied, every replacement's create complete, every other pinned birth
      gone or its delete complete, and every unnamed mesh with a known id Dead and not being deleted. */
  ghost predicate Settled(t: Topology, v: View, steps: seq<Step>) {
    && (forall m :: m in t.meshes ==> v.HoldsMesh(m))
    && (forall m, p ::
        m in t.meshes && p in t.meshes[m].nodes && t.CreatedId(p).Some? && t.Replaced(p).None? ==>
          CreateSettled(t, m, p, v, steps))
    && (forall e :: e in t.pinned && t.Replaced(e.0).Some? ==> Done(steps, NodeCreate(t.CreatedId(e.0).value)))
    && (forall e :: e in t.pinned && !t.Contains(e.0) && e.0 !in CreatedBy(t, steps) ==> DeleteSettled(t, e, v, steps))
    && (forall m :: m in v.meshes && m.name !in t.meshes && m.id.Some? ==> m.status == ScopeDead && !IsOpen(m, steps))
  }

  lemma CreatesSettled(t: Topology, v: View, steps: seq<Step>)
    requires t.WellFormed()
    ensures CreatesOwed(t, v, steps) == {} <==>
            forall m, p ::
                m in t.meshes && p in t.meshes[m].nodes && t.CreatedId(p).Some? && t.Replaced(p).None? ==>
                  CreateSettled(t, m, p, v, steps)
  {
    hide Done, Began, Lookup, Topology.SpecAt, Topology.Replaced, View.At, Topology.WellFormed;
    forall m, p | m in t.meshes && p in t.meshes[m].nodes
      ensures Due(t, m, p, v, steps) <==>
          t.CreatedId(p).Some? && t.Replaced(p).None? && !CreateSettled(t, m, p, v, steps)
    {
      MeshSpecs(t, m);
    }
    if m, p :| m in t.meshes && p in t.meshes[m].nodes && Due(t, m, p, v, steps) {
      assert NodeCreate(t.CreatedId(p).value) in CreatesOwed(t, v, steps);
    }
  }

  lemma ReplacesSettled(t: Topology, steps: seq<Step>)
    ensures ReplacesOwed(t, steps) == {} <==>
            forall e :: e in t.pinned && t.Replaced(e.0).Some? ==> Done(steps, NodeCreate(t.CreatedId(e.0).value))
  {
    hide Done, Lookup, Topology.SpecAt;
    if e :|
        e in t.pinned && Replacing(t, e.0,
          steps) { assert NodeCreate(t.CreatedId(e.0).value) in ReplacesOwed(t, steps); }
  }

  lemma DeletesSettled(t: Topology, v: View, steps: seq<Step>)
    requires Identified(t) && v.WellFormed()
    ensures DeletesOwed(t, v, steps) == {} <==>
            forall e ::
                e in t.pinned && !t.Contains(e.0) && e.0 !in CreatedBy(t, steps) ==> DeleteSettled(t, e, v, steps)
  {
    hide Done, Lookup, Topology.SpecAt, CreatedBy, View.WellFormed, View.At, Identified;
    forall e | e in t.pinned && !t.Contains(e.0) && e.0 !in CreatedBy(t, steps)
      ensures !DeleteSettled(t, e, v, steps) ==>
          v.At(e.0).Some? && v.At(e.0).value in v.nodes && DeleteDue(t, v.At(e.0).value, steps)
    {
      PinIs(t, e);
      if v.At(e.0).Some? {
        BirthAt(v, e.0);
        PinnedIs(t, v.At(e.0).value, e);
      }
    }
    forall n | n in v.nodes && DeleteDue(t, n, steps)
      ensures t.PinAt(n.at).Some? && (n.at, t.PinAt(n.at).value) in t.pinned
          && !DeleteSettled(t, (n.at, t.PinAt(n.at).value), v, steps)
    {
      BirthThere(v, n);
      PinnedIs(t, n, (n.at, t.PinAt(n.at).value));
    }
    if n :|
        n in v.nodes && DeleteDue(t, n,
          steps) { assert NodeDelete(t.PinAt(n.at).value.id) in DeletesOwed(t, v, steps); }
  }

  lemma PinIs(t: Topology, e: (PathName, PinnedBirth))
    requires Identified(t) && e in t.pinned
    ensures t.PinAt(e.0) == Some(e.1)
  {
    var b := t.PinAt(e.0).value;
    SamePinned(t, e.0, e.0, e.1, b);
  }

  /** The one birth pinned at a path is the only one that can be pinned there. */
  lemma PinnedIs(t: Topology, n: Node, e: (PathName, PinnedBirth))
    requires Identified(t) && e in t.pinned && e.0 == n.at
    ensures PinnedHere(t, n) <==> e.1.Is(n)
  {
    hide Identified;
    if c :| c in t.pinned && c.0 == n.at && c.1.Is(n) { SamePinned(t, c.0, e.0, c.1, e.1); }
  }

  lemma ShutdownsSettled(t: Topology, v: View, steps: seq<Step>)
    requires v.WellFormed()
    ensures ShutdownsOwed(t, v, steps) == {} <==>
            forall m ::
                m in v.meshes && m.name !in t.meshes && m.id.Some? ==> m.status == ScopeDead && !IsOpen(m, steps)
  {
    hide OpenDeletes, IsOpen, View.WellFormed;
    forall m | m in v.meshes ensures m.name in OpenDeletes(v, steps) <==> IsOpen(m, steps) { OpenExactly(v, steps, m); }
    if m :|
        m in v.meshes && Going(t, m, OpenDeletes(v, steps))
          && m.id.Some? { assert MeshDelete(m.id.value) in ShutdownsOwed(t, v, steps); }
  }

  /** The plan is empty exactly when the view is settled. */
  lemma EmptyPlanIsSettled(t: Topology, v: View, steps: seq<Step>)
    requires t.WellFormed() && Identified(t) && v.WellFormed()
    ensures PlanFor(t, v, steps) == [] <==> Settled(t, v, steps)
  {
    hide PlanFor, Topology.WellFormed, Identified, View.WellFormed, View.HoldsMesh, CreatesOwed, ReplacesOwed,
        DeletesOwed, ShutdownsOwed;
    hide CreateSettled, DeleteSettled, IsOpen, Done, CreatedBy, Topology.Replaced, Topology.SpecAt, Lookup;
    EmptyPlanExactly(t, v, steps);
    if m :| m in t.meshes && !v.HoldsMesh(m) { assert MeshCreate(t.meshes[m].id) in MeshesOwed(t, v); }
    CreatesSettled(t, v, steps);
    ReplacesSettled(t, steps);
    DeletesSettled(t, v, steps);
    ShutdownsSettled(t, v, steps);
  }

  // ---------------------------------------------------------------------------------------------
  // Planning ends
  // ---------------------------------------------------------------------------------------------

  /** Planning ends, and ends with the empty plan: a drive makes no more passes than operations were owed at its start,
      and one that no pass can continue is one whose plan is empty and whose view is settled. */
  lemma PlanningEnds(t: Topology, drive: seq<State>)
    requires Drive(t, drive)
    ensures
      var last := drive[|drive| - 1];
      && Fit(t, last)
      && |drive| - 1 <= |Owed(t, drive[0].view, drive[0].steps)|
      && ((forall s' :: !Pass(t, last, s')) <==> PlanFor(t, last.view, last.steps) == [])
      && ((forall s' :: !Pass(t, last, s')) <==> Settled(t, last.view, last.steps))
  {
    hide Topology.WellFormed, View.WellFormed, Identified, Unpinned, Fresh, MeshIdsOnce, Owed, PlanFor, Pass, Settled;
    PassesBounded(t, drive);
    var last := drive[|drive| - 1];
    EmptyPlanIsSettled(t, last.view, last.steps);
    if PlanFor(t, last.view, last.steps) != [] {
      var s' := SomePass(t, last);
    } else {
      forall s' ensures !Pass(t, last, s') { NothingToRun(t, last, s'); }
    }
  }

  lemma NothingToRun(t: Topology, s: State, s': State)
    requires t.WellFormed() && PlanFor(t, s.view, s.steps) == []
    ensures !Pass(t, s, s')
  {
    hide Topology.WellFormed, PlanFor, Ran;
    forall ops | Ran(s, ops, s') ensures ops != [] ==> exists op :: op in ops && op !in PlanFor(t, s.view, s.steps) {
      if ops != [] { assert ops[0] in ops; }
    }
  }

  /** From every fit state some drive gets there. */
  lemma {:induction false} SomeDriveEnds(t: Topology, s: State) returns (drive: seq<State>)
    requires Fit(t, s)
    ensures Drive(t, drive) && drive[0] == s
    ensures
      var last := drive[|drive| - 1];
      PlanFor(t, last.view, last.steps) == [] && Settled(t, last.view, last.steps)
    decreases |Owed(t, s.view, s.steps)|
  {
    hide Topology.WellFormed, View.WellFormed, Identified, Unpinned, Fresh, MeshIdsOnce, Owed, PlanFor, Pass, Settled;
    EmptyPlanIsSettled(t, s.view, s.steps);
    if PlanFor(t, s.view, s.steps) == [] {
      drive := [s];
    } else {
      var s' := SomePass(t, s);
      PassDecreases(t, s, s');
      var rest := SomeDriveEnds(t, s');
      drive := [s] + rest;
      forall i | 0 <= i < |drive| - 1 ensures Pass(t, drive[i], drive[i + 1]) {
        if i > 0 { assert drive[i] == rest[i - 1] && drive[i + 1] == rest[i]; }
      }
    }
  }
}
