/** The order of a plan: every mesh's section in name order, its mesh's create first, then its replacement step, then
    the creates of its node-admins and of its other nodes; then the deletes; then the shutdowns. */
module PlanOrdering {
  import opened Order
  import opened Model
  import opened Planner
  import opened PlanShape
  import opened PlanKeys

  // ---------------------------------------------------------------------------------------------
  // Within a section
  // ---------------------------------------------------------------------------------------------

  predicate IsAdmin(t: Topology, name: string, p: PathName)
    requires name in t.meshes
  {
    p in t.meshes[name].Admins()
  }

  /** A mesh's create, its replacement step, an admin's create, another node's create. */
  function Stage(t: Topology, name: string, op: Operation): nat
    requires name in t.meshes && (op.CreateMesh? || op.CreateNode? || op.DeleteNode?)
  {
    if op.CreateMesh? then 0 else if t.Replaced(op.at).Some? then 1 else if IsAdmin(t, name, op.at) then 2 else 3
  }

  /** Path order: by path, then by name within it, each in text order. */
  ghost predicate Ahead(p: PathName, q: PathName) {
    Less(p.path, q.path) || (p.path == q.path && Less(p.name, q.name))
  }

  lemma AheadIs(p: PathName, q: PathName)
    ensures PathLess(p, q) <==> Ahead(p, q)
    ensures !PathLess(q, p) <==> p == q || Ahead(p, q)
  {
    hide Less;
    PathOrder();
  }

  ghost predicate Before(t: Topology, name: string, a: Operation, b: Operation)
    requires name in t.meshes
  {
    && (a.CreateMesh? || a.CreateNode? || a.DeleteNode?) && (b.CreateMesh? || b.CreateNode? || b.DeleteNode?)
    && (|| Stage(t, name, a) < Stage(t, name, b)
        || (Stage(t, name, a) == Stage(t, name, b) >= 2 && Ahead(a.at, b.at)))
  }

  lemma AdminsFirst(m: MeshTopology, i: nat, j: nat)
    requires i < j < |PlanOrder(m)|
    ensures
      var p, q := PlanOrder(m)[i], PlanOrder(m)[j];
      (p in m.Admins() && q !in m.Admins()) || ((p in m.Admins() <==> q in m.Admins()) && PathLess(p, q))
  {
    hide PathLess, MeshTopology.Admins;
    var admins, others := Paths(m.Admins()), Paths(m.nodes - m.Admins());
    var p, q := PlanOrder(m)[i], PlanOrder(m)[j];
    if j < |admins| {
      assert p == admins[i] && q == admins[j] && p in admins && q in admins;
    } else if i < |admins| {
      assert p == admins[i] && q == others[j - |admins|] && p in admins && q in others;
    } else {
      assert p == others[i - |admins|] && q == others[j - |admins|] && p in others && q in others;
    }
  }

  lemma CreatesInOrder(t: Topology, name: string, v: View, held: set<string>, steps: seq<Step>, i: nat, j: nat)
    requires name in t.meshes && i < j < |Gather(PlanOrder(t.meshes[name]), CreateAt(t, name, v, held, steps))|
    ensures
      var creates := Gather(PlanOrder(t.meshes[name]), CreateAt(t, name, v, held, steps));
      Before(t, name, creates[i], creates[j])
  {
    hide Gather, PlanOrder, MeshTopology.Admins, CreateOpen, Satisfied, PathLess, Topology.SpecAt, Topology.Replaced,
        Ahead;
    var a, b, x, y := GatherPairs(PlanOrder(t.meshes[name]), CreateAt(t, name, v, held, steps), i, j);
    AdminsFirst(t.meshes[name], a, b);
    AheadIs(PlanOrder(t.meshes[name])[a], PlanOrder(t.meshes[name])[b]);
  }

  lemma CreateStage(t: Topology, name: string, v: View, held: set<string>, steps: seq<Step>, i: nat)
    requires name in t.meshes && i < |Gather(PlanOrder(t.meshes[name]), CreateAt(t, name, v, held, steps))|
    ensures
      var op := Gather(PlanOrder(t.meshes[name]), CreateAt(t, name, v, held, steps))[i];
      op.CreateNode? && Stage(t, name, op) >= 2
  {
    hide Gather, PlanOrder, MeshTopology.Admins, CreateOpen, Satisfied, Topology.SpecAt, Topology.Replaced;
    var a, x := GatherFrom(PlanOrder(t.meshes[name]), CreateAt(t, name, v, held, steps), i);
  }

  lemma SectionInOrder(t: Topology, name: string, v: View, held: set<string>, steps: seq<Step>, i: nat, j: nat)
    requires t.WellFormed() && name in t.meshes && i < j < |Section(t, name, v, held, steps)|
    ensures Before(t, name, Section(t, name, v, held, steps)[i], Section(t, name, v, held, steps)[j])
  {
    hide Gather, PlanOrder, CreateAt, ReplacementStep, View.HoldsMesh, Topology.WellFormed, Topology.SpecAt,
        Topology.Replaced, MeshTopology.Admins, PathLess, Ahead;
    var step := ReplacementStep(t, name, steps);
    var opening := if v.HoldsMesh(name) then [] else [CreateMesh(name, t.meshes[name].id)];
    var head := opening + if step.Some? then [step.value] else [];
    var creates := Gather(PlanOrder(t.meshes[name]), CreateAt(t, name, v, held, steps));
    var section := Section(t, name, v, held, steps);
    assert section == head + creates;
    if step.Some? { var r := ReplacementSays(t, name, steps, step.value); }
    if i >= |head| {
      assert section[i] == creates[i - |head|] && section[j] == creates[j - |head|];
      CreatesInOrder(t, name, v, held, steps, i - |head|, j - |head|);
    } else if j >= |head| {
      assert section[i] == head[i] && section[j] == creates[j - |head|];
      CreateStage(t, name, v, held, steps, j - |head|);
    } else {
      assert section[i] == head[i] && section[j] == head[j];
    }
  }

  // ---------------------------------------------------------------------------------------------
  // The whole plan
  // ---------------------------------------------------------------------------------------------

  /** The mesh a section's operation is of. */
  ghost predicate InMesh(t: Topology, op: Operation, name: string) {
    name in t.meshes && if op.CreateMesh? then op.mesh == name
        else (op.CreateNode? || op.DeleteNode?) && op.at in t.meshes[name].nodes
  }

  /** `a` is of an earlier mesh than `b`, or before it in their mesh's section. */
  ghost predicate Earlier(t: Topology, a: Operation, b: Operation) {
    exists m, m' :: InMesh(t, a, m) && InMesh(t, b, m') && (Less(m, m') || (m == m' && Before(t, m, a, b)))
  }

  lemma SectionsInOrder(t: Topology, v: View, held: set<string>, steps: seq<Step>, i: nat, j: nat)
    requires t.WellFormed() && i < j < |Gather(Names(t.meshes.Keys), SectionAt(t, v, held, steps))|
    ensures
      var sections := Gather(Names(t.meshes.Keys), SectionAt(t, v, held, steps));
      Earlier(t, sections[i], sections[j])
  {
    hide Gather, Section, Topology.WellFormed, Before, Names, Less;
    var names, f := Names(t.meshes.Keys), SectionAt(t, v, held, steps);
    var a, b, x, y := GatherPairs(names, f, i, j);
    assert names[a] in names && names[b] in names;
    var p, q := f(names[a])[x], f(names[b])[y];
    assert InSection(t, names[a], v, held, steps, p) && InSection(t, names[b], v, held, steps, q);
    OfItsMesh(t, names[a], v, held, steps, p);
    OfItsMesh(t, names[b], v, held, steps, q);
    assert InMesh(t, p, names[a]) && InMesh(t, q, names[b]);
    if a == b { SectionInOrder(t, names[a], v, held, steps, x, y); }
  }

  lemma PathsWeak()
    ensures Weak(PathLess)
  {
    hide PathLess;
    PathOrder();
  }

  lemma NamesWeak()
    ensures Weak(Less)
  {
    hide Less;
    TextOrder();
  }

  lemma DeletesInOrder(t: Topology, v: View, steps: seq<Step>, created: set<PathName>, i: nat, j: nat)
    requires i < j < |Gather(SortedPaths(Gather(v.nodes, ExtraAt(t, created))), DeleteAt(t, steps))|
    ensures
      var deletes := Gather(SortedPaths(Gather(v.nodes, ExtraAt(t, created))), DeleteAt(t, steps));
      deletes[i].DeleteNode? && deletes[j].DeleteNode? && !PathLess(deletes[j].at, deletes[i].at)
  {
    hide Gather, PathLess, Done, Topology.SpecAt, ExtraAt;
    var paths := SortedPaths(Gather(v.nodes, ExtraAt(t, created)));
    var a, b, x, y := GatherPairs(paths, DeleteAt(t, steps), i, j);
    PathsWeak();
    SortOrders(Gather(v.nodes, ExtraAt(t, created)), PathLess);
  }

  lemma ShutdownsInOrder(t: Topology, v: View, open: set<string>, i: nat, j: nat)
    requires i < j < |Gather(SortedNames(Gather(v.meshes, GoingAt(t, open))), ShutdownAt(v))|
    ensures
      var shutdowns := Gather(SortedNames(Gather(v.meshes, GoingAt(t, open))), ShutdownAt(v));
      shutdowns[i].ShutdownMesh? && shutdowns[j].ShutdownMesh? && !Less(shutdowns[j].mesh, shutdowns[i].mesh)
  {
    hide Gather, Less, GoingAt;
    var names := SortedNames(Gather(v.meshes, GoingAt(t, open)));
    var a, b, x, y := GatherPairs(names, ShutdownAt(v), i, j);
    NamesWeak();
    SortOrders(Gather(v.meshes, GoingAt(t, open)), Less);
  }

  /** A plan is its sections, mesh by mesh in name order and each in stage order, then its deletes in path order, then
      its shutdowns in name order. */
  lemma PlanInOrder(t: Topology, v: View, open: set<string>, held: set<string>, steps: seq<Step>,
      created: set<PathName>)
    returns (sections: seq<Operation>, deletes: seq<Operation>, shutdowns: seq<Operation>)
    requires t.WellFormed()
    ensures BuildPlan(t, v, open, held, steps, created) == sections + deletes + shutdowns
    ensures forall i, j :: 0 <= i < j < |sections| ==> Earlier(t, sections[i], sections[j])
    ensures forall op :: op in deletes ==> op.DeleteNode? && !t.Contains(op.at)
    ensures forall i, j ::
        0 <= i < j < |deletes| ==>
          deletes[i].DeleteNode? && deletes[j].DeleteNode?
            && (deletes[i].at == deletes[j].at || Ahead(deletes[i].at, deletes[j].at))
    ensures forall op :: op in shutdowns ==> op.ShutdownMesh?
    ensures forall i, j ::
        0 <= i < j < |shutdowns| ==>
          shutdowns[i].ShutdownMesh? && shutdowns[j].ShutdownMesh? && !Less(shutdowns[j].mesh, shutdowns[i].mesh)
  {
    hide Gather, Names, SectionAt, SortedPaths, SortedNames, ExtraAt, DeleteAt, GoingAt, ShutdownAt, Earlier,
        PathLess, Ahead, Less, Topology.WellFormed, Topology.SpecAt, IsExtraDelete, IsShutdown;
    sections := Gather(Names(t.meshes.Keys), SectionAt(t, v, held, steps));
    deletes := Gather(SortedPaths(Gather(v.nodes, ExtraAt(t, created))), DeleteAt(t, steps));
    shutdowns := Gather(SortedNames(Gather(v.meshes, GoingAt(t, open))), ShutdownAt(v));
    forall i, j | 0 <= i < j < |sections|
      ensures Earlier(t, sections[i], sections[j])
    {
      SectionsInOrder(t, v, held, steps, i, j);
    }
    forall op | op in deletes ensures op.DeleteNode? && !t.Contains(op.at) {
      DeletesHave(t, v, steps, created, op);
      ExtraReads(t, v, steps, created, op);
    }
    forall i, j | 0 <= i < j < |deletes| ensures deletes[i].DeleteNode? && deletes[j].DeleteNode?
        && (deletes[i].at == deletes[j].at || Ahead(deletes[i].at, deletes[j].at)) {
      DeletesInOrder(t, v, steps, created, i, j);
      AheadIs(deletes[i].at, deletes[j].at);
    }
    forall op | op in shutdowns ensures op.ShutdownMesh? {
      ShutdownsHave(t, v, open, op);
      ShutdownReads(t, v, open, op);
    }
    forall i, j | 0 <= i < j < |shutdowns|
      ensures shutdowns[i].ShutdownMesh? && shutdowns[j].ShutdownMesh? && !Less(shutdowns[j].mesh, shutdowns[i].mesh)
    {
      ShutdownsInOrder(t, v, open, i, j);
    }
  }
}
