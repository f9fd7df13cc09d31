/** What a plan holds, for every topology, view and history: its operations by kind, their keys, and what is never
    planned or always planned again. */
module PlanShape {
  import opened Order
  import opened Model
  import opened Planner

  // ---------------------------------------------------------------------------------------------
  // The operations of a plan, by kind
  // ---------------------------------------------------------------------------------------------

  ghost predicate IsMeshCreate(t: Topology, v: View, op: Operation) {
    exists name :: name in t.meshes && !v.HoldsMesh(name) && op == CreateMesh(name, t.meshes[name].id)
  }

  ghost predicate IsReplacement(t: Topology, steps: seq<Step>, op: Operation) {
    exists name :: name in t.meshes && ReplacementStep(t, name, steps) == Some(op)
  }

  ghost predicate CreatesHere(t: Topology, name: string, p: PathName, v: View, held: set<string>, steps: seq<Step>,
      op: Operation)
    requires name in t.meshes
  {
    p in t.meshes[name].nodes && op in CreateAt(t, name, v, held, steps)(p)
  }

  ghost predicate IsOrdinaryCreate(t: Topology, v: View, held: set<string>, steps: seq<Step>, op: Operation) {
    exists name, p :: name in t.meshes && CreatesHere(t, name, p, v, held, steps, op)
  }

  ghost predicate IsExtraDelete(t: Topology, v: View, steps: seq<Step>, created: set<PathName>, op: Operation) {
    exists n :: n in v.nodes && Extra(t, n, created) && op in DeleteAt(t, steps)(n.at)
  }

  ghost predicate IsShutdown(t: Topology, v: View, open: set<string>, op: Operation) {
    exists m :: m in v.meshes && Going(t, m, open) && op in ShutdownAt(v)(m.name)
  }

  ghost predicate InSection(t: Topology, name: string, v: View, held: set<string>, steps: seq<Step>, op: Operation)
    requires t.WellFormed() && name in t.meshes
  {
    op in Section(t, name, v, held, steps)
  }

  lemma SectionHas(t: Topology, name: string, v: View, held: set<string>, steps: seq<Step>, op: Operation)
    requires t.WellFormed() && name in t.meshes
    ensures InSection(t, name, v, held, steps, op) <==>
            || (!v.HoldsMesh(name) && op == CreateMesh(name, t.meshes[name].id))
            || ReplacementStep(t, name, steps) == Some(op)
            || exists p :: CreatesHere(t, name, p, v, held, steps, op)
  {
    hide Topology.WellFormed, CreateAt, ReplacementStep, PlanOrder, View.HoldsMesh, Gather;
    var step := ReplacementStep(t, name, steps);
    var a := if v.HoldsMesh(name) then [] else [CreateMesh(name, t.meshes[name].id)];
    var b := if step.Some? then [step.value] else [];
    var c := Gather(PlanOrder(t.meshes[name]), CreateAt(t, name, v, held, steps));
    assert op in a + b + c <==> op in a || op in b || op in c;
    GatherHas(PlanOrder(t.meshes[name]), CreateAt(t, name, v, held, steps), op);
    if op in c {
      var p :| p in PlanOrder(t.meshes[name]) && op in CreateAt(t, name, v, held, steps)(p);
      assert CreatesHere(t, name, p, v, held, steps, op);
    }
  }

  lemma SectionsHave(t: Topology, v: View, held: set<string>, steps: seq<Step>, op: Operation)
    requires t.WellFormed()
    ensures op in Gather(Names(t.meshes.Keys), SectionAt(t, v, held, steps)) <==>
            exists name :: name in t.meshes && InSection(t, name, v, held, steps, op)
  {
    hide Section, Gather, Names;
    GatherHas(Names(t.meshes.Keys), SectionAt(t, v, held, steps), op);
  }

  lemma DeletesHave(t: Topology, v: View, steps: seq<Step>, created: set<PathName>, op: Operation)
    ensures op in Gather(SortedPaths(Gather(v.nodes, ExtraAt(t, created))), DeleteAt(t, steps)) <==>
        IsExtraDelete(t, v, steps, created, op)
  {
    hide Gather, SortedPaths, Extra, DeleteAt;
    var extra := Gather(v.nodes, ExtraAt(t, created));
    GatherHas(SortedPaths(extra), DeleteAt(t, steps), op);
    forall p ensures p in extra <==> exists n :: n in v.nodes && n.at == p && Extra(t, n, created) {
      GatherHas(v.nodes, ExtraAt(t, created), p);
    }
  }

  lemma ShutdownsHave(t: Topology, v: View, open: set<string>, op: Operation)
    ensures op in Gather(SortedNames(Gather(v.meshes, GoingAt(t, open))), ShutdownAt(v)) <==> IsShutdown(t, v, open, op)
  {
    hide Gather, SortedNames, Going, ShutdownAt;
    var going := Gather(v.meshes, GoingAt(t, open));
    GatherHas(SortedNames(going), ShutdownAt(v), op);
    forall name ensures name in going <==> exists m :: m in v.meshes && m.name == name && Going(t, m, open) {
      GatherHas(v.meshes, GoingAt(t, open), name);
    }
  }

  /** Every operation of a plan is of one of five kinds, and every operation of a kind is in the plan. */
  lemma PlanHas(t: Topology, v: View, open: set<string>, held: set<string>, steps: seq<Step>, created: set<PathName>,
      op: Operation)
    requires t.WellFormed()
    ensures op in BuildPlan(t, v, open, held, steps, created) <==>
            || IsMeshCreate(t, v, op) || IsReplacement(t, steps, op) || IsOrdinaryCreate(t, v, held, steps, op)
            || IsExtraDelete(t, v, steps, created, op) || IsShutdown(t, v, open, op)
  {
    hide Gather, SectionAt, InSection, DeleteAt, ShutdownAt, Extra, Going, CreatesHere, ReplacementStep, View.HoldsMesh;
    SectionsHave(t, v, held, steps, op);
    forall name | name in t.meshes { SectionHas(t, name, v, held, steps, op); }
    DeletesHave(t, v, steps, created, op);
    ShutdownsHave(t, v, open, op);
  }

  // ---------------------------------------------------------------------------------------------
  // The replacement step
  // ---------------------------------------------------------------------------------------------

  /** One executable replacement: the birth pinned at a path, and the id its next birth is created under. */
  datatype Replacement = Replacement(at: PathName, birth: PinnedBirth, id: NodeId)

  /** The replacements of mesh `name`, in the order their births were pinned. */
  function Queue(t: Topology, name: string, pins: seq<(PathName, PinnedBirth)>): (q: seq<Replacement>)
    requires name in t.meshes
    ensures forall r ::
        r in q ==> r.at in t.meshes[name].nodes && (r.at, r.birth) in pins && t.CreatedId(r.at) == Some(r.id)
  {
    if pins == [] then []
    else
      var rest := Queue(t, name, pins[1..]);
      if pins[0].0 in t.meshes[name].nodes && t.CreatedId(pins[0].0).Some?
      then [Replacement(pins[0].0, pins[0].1, t.CreatedId(pins[0].0).value)] + rest
      else rest
  }

  function ReplaceCreate(t: Topology, name: string, r: Replacement): Operation
    requires name in t.meshes && r.at in t.meshes[name].specs
  {
    CreateNode(r.at, r.id, name, t.meshes[name].specs[r.at].kind, t.meshes[name].specs[r.at].executable)
  }

  /** The queue's first replacement whose create is not complete. */
  function Head(q: seq<Replacement>, steps: seq<Step>): (i: nat)
    ensures i <= |q|
    ensures forall j :: 0 <= j < i ==> Done(steps, NodeCreate(q[j].id))
    ensures i < |q| ==> !Done(steps, NodeCreate(q[i].id))
  {
    if q == [] || !Done(steps, NodeCreate(q[0].id)) then 0 else 1 + Head(q[1..], steps)
  }

  /** The planned step is the queue's head's: its delete until that is complete, then its create. */
  lemma {:induction false} StepIsHeads(t: Topology, name: string, pins: seq<(PathName, PinnedBirth)>, steps: seq<Step>)
    requires name in t.meshes && t.meshes[name].nodes == t.meshes[name].specs.Keys
    ensures
      var q := Queue(t, name, pins);
      var i := Head(q, steps);
      StepFrom(t, name, pins, steps) ==
        if i == |q| then None
        else if !Done(steps, NodeDelete(q[i].birth.id)) then Some(DeleteOf(q[i].at, q[i].birth))
        else Some(ReplaceCreate(t, name, q[i]))
  {
    hide Done, Lookup;
    if pins != [] {
      StepIsHeads(t, name, pins[1..], steps);
      var rest := Queue(t, name, pins[1..]);
      if pins[0].0 in t.meshes[name].nodes && t.CreatedId(pins[0].0).Some? {
        HeadNext(Replacement(pins[0].0, pins[0].1, t.CreatedId(pins[0].0).value), rest, steps);
      }
    }
  }

  lemma HeadNext(r: Replacement, q: seq<Replacement>, steps: seq<Step>)
    ensures Head([r] + q, steps) == if Done(steps, NodeCreate(r.id)) then 1 + Head(q, steps) else 0
  {
    assert ([r] + q)[1..] == q;
  }

  // ---------------------------------------------------------------------------------------------
  // What each kind of operation says
  // ---------------------------------------------------------------------------------------------

  lemma OneMesh(t: Topology, p: PathName, m: string, m': string)
    requires t.WellFormed() && m in t.meshes && m' in t.meshes && p in t.meshes[m].nodes && p in t.meshes[m'].nodes
    ensures m == m'
  {
  }

  lemma Named(t: Topology, m: string, p: PathName)
    requires t.WellFormed() && m in t.meshes && p in t.meshes[m].nodes
    ensures t.Contains(p) && p in t.meshes[m].specs && t.SpecAt(p) == Some(t.meshes[m].specs[p])
  {
    SpecAtFiled(t, m, p);
  }

  /** A replacement step names the head of its mesh's queue. */
  ghost predicate StepOf(t: Topology, name: string, r: Replacement, steps: seq<Step>, op: Operation)
    requires name in t.meshes
  {
    && r in Queue(t, name, t.pinned) && r.at in t.meshes[name].nodes && r.at in t.meshes[name].specs
    && (r.at, r.birth) in t.pinned && t.CreatedId(r.at) == Some(r.id)
    && !Done(steps, NodeCreate(r.id))
    && (if Done(steps, NodeDelete(r.birth.id)) then op == ReplaceCreate(t, name, r) else op == DeleteOf(r.at, r.birth))
  }

  lemma ReplacementSays(t: Topology, name: string, steps: seq<Step>, op: Operation) returns (r: Replacement)
    requires t.WellFormed() && name in t.meshes && ReplacementStep(t, name, steps) == Some(op)
    ensures StepOf(t, name, r, steps, op)
    ensures t.Replaced(r.at).Some?
  {
    hide Done, Lookup, StepFrom;
    StepIsHeads(t, name, t.pinned, steps);
    var q := Queue(t, name, t.pinned);
    r := q[Head(q, steps)];
    Named(t, name, r.at);
  }

  /** An ordinary create is at a path of its mesh the Build creates and does not replace. */
  ghost predicate CreateSays(t: Topology, name: string, op: Operation)
    requires name in t.meshes
  {
    && op.CreateNode? && op.mesh == name && op.at in t.meshes[name].nodes && op.at in t.meshes[name].specs
    && t.CreatedId(op.at) == Some(op.nodeId) && t.Replaced(op.at).None? && t.Contains(op.at)
    && op.kind == t.meshes[name].specs[op.at].kind && op.executable == t.meshes[name].specs[op.at].executable
  }

  lemma OrdinarySays(t: Topology, name: string, p: PathName, v: View, held: set<string>, steps: seq<Step>,
      op: Operation)
    requires t.WellFormed() && name in t.meshes && CreatesHere(t, name, p, v, held, steps, op)
    ensures op.CreateNode? && op.at == p && CreateSays(t, name, op) && CreateDue(t, name, p, v, held, steps)
  {
    hide Satisfied, CreateOpen, Topology.Replaced, Topology.SpecAt;
    Named(t, name, p);
  }

  /** A delete of a birth the topology no longer names carries the birth pinned at its path. */
  ghost predicate DeleteSays(t: Topology, steps: seq<Step>, op: Operation) {
    && op.DeleteNode? && op.birth.Some? && t.PinAt(op.at) == op.birth && op == DeleteOf(op.at, op.birth.value)
    && (op.at, op.birth.value) in t.pinned && !t.Contains(op.at) && !Done(steps, op.Key())
  }

  lemma ExtraSays(t: Topology, n: Node, steps: seq<Step>, created: set<PathName>, op: Operation)
    requires Extra(t, n, created) && op in DeleteAt(t, steps)(n.at)
    ensures op.DeleteNode? && op.at == n.at && DeleteSays(t, steps, op)
  {
    hide Done, Topology.SpecAt, PinnedHere;
  }

  /** What the plan holds, as one of five readings. */
  lemma PlanReads(t: Topology, v: View, open: set<string>, held: set<string>, steps: seq<Step>,
      created: set<PathName>, op: Operation)
    requires t.WellFormed() && op in BuildPlan(t, v, open, held, steps, created)
    ensures
      || IsMeshCreate(t, v, op)
      || (exists name, r ::
          name in t.meshes && ReplacementStep(t, name, steps) == Some(op) && StepOf(t, name, r, steps, op)
            && t.Replaced(r.at).Some?)
      || (exists name :: name in t.meshes && CreateSays(t, name, op) && CreateDue(t, name, op.at, v, held, steps))
      || (DeleteSays(t, steps, op) && exists n :: n in v.nodes && n.at == op.at && Extra(t, n, created))
      || IsShutdown(t, v, open, op)
  {
    hide BuildPlan, Topology.WellFormed, StepOf, CreateSays, DeleteSays, CreatesHere, Extra, DeleteAt,
        ReplacementStep, CreateDue, Topology.Replaced, IsShutdown, IsMeshCreate;
    PlanHas(t, v, open, held, steps, created, op);
    if IsReplacement(t, steps, op) {
      var name :| name in t.meshes && ReplacementStep(t, name, steps) == Some(op);
      var r := ReplacementSays(t, name, steps, op);
    } else if IsOrdinaryCreate(t, v, held, steps, op) {
      var name, p :| name in t.meshes && CreatesHere(t, name, p, v, held, steps, op);
      OrdinarySays(t, name, p, v, held, steps, op);
    } else if IsExtraDelete(t, v, steps, created, op) {
      var n :| n in v.nodes && Extra(t, n, created) && op in DeleteAt(t, steps)(n.at);
      ExtraSays(t, n, steps, created, op);
    }
  }

  // ---------------------------------------------------------------------------------------------
  // Plan well-formedness
  // ---------------------------------------------------------------------------------------------

  /** No path is both created and deleted by one plan. */
  lemma NeverCreatedAndDeleted(t: Topology, v: View, open: set<string>, held: set<string>, steps: seq<Step>,
      created: set<PathName>, a: Operation, b: Operation)
    requires t.WellFormed()
    requires a in BuildPlan(t, v, open, held, steps, created) && b in BuildPlan(t, v, open, held, steps, created)
    requires a.CreateNode? && b.DeleteNode?
    ensures a.at != b.at
  {
    hide BuildPlan, ReplacementStep, CreateDue, Topology.Replaced, Extra, Topology.WellFormed, Done, Topology.SpecAt;
    PlanReads(t, v, open, held, steps, created, a);
    PlanReads(t, v, open, held, steps, created, b);
    forall m, p | m in t.meshes && p in t.meshes[m].nodes ensures t.Contains(p) { Named(t, m, p); }
    forall p, m, m' | m in t.meshes && m' in t.meshes && p in t.meshes[m].nodes && p in t.meshes[m'].nodes
      ensures m == m'
    {
      OneMesh(t, p, m, m');
    }
  }

  /** Every delete carries the birth the acceptance pinned at its path, and is not complete; a replacement's create is
      not complete and its delete is. */
  lemma NeverPlannedAgain(t: Topology, v: View, open: set<string>, held: set<string>, steps: seq<Step>,
      created: set<PathName>, op: Operation)
    requires t.WellFormed() && op in BuildPlan(t, v, open, held, steps, created)
    ensures op.DeleteNode? ==> op.birth.Some? && (op.at, op.birth.value) in t.pinned && !Done(steps, op.Key())
    ensures op.CreateNode? ==> t.CreatedId(op.at) == Some(op.nodeId)
    ensures op.CreateNode? && t.Replaced(op.at).Some? ==>
              !Done(steps, op.Key()) && exists b :: (op.at, b) in t.pinned && Done(steps, NodeDelete(b.id))
  {
    hide BuildPlan, ReplacementStep, CreateDue, Topology.Replaced, Extra, Topology.WellFormed, Done, Topology.SpecAt;
    PlanReads(t, v, open, held, steps, created, op);
  }

  /** A path the Build creates and does not replace is planned exactly when its create is open or the view does not
      satisfy it. */
  lemma OrdinaryCreateExactly(t: Topology, name: string, p: PathName, v: View, open: set<string>, held: set<string>,
      steps: seq<Step>, created: set<PathName>)
    requires t.WellFormed() && name in t.meshes && p in t.meshes[name].nodes && t.CreatedId(p).Some?
        && t.Replaced(p).None?
    ensures (exists op :: op in BuildPlan(t, v, open, held, steps, created) && op.CreateNode? && op.at == p) <==>
            CreateOpen(t, p, steps) || !Satisfied(t, name, p, v, held, steps)
  {
    hide BuildPlan, ReplacementStep, Topology.Replaced, Extra, Topology.WellFormed, Done, CreateOpen, Satisfied,
        Topology.SpecAt;
    if op :| op in BuildPlan(t, v, open, held, steps, created) && op.CreateNode? && op.at == p {
      PlanReads(t, v, open, held, steps, created, op);
      forall m | m in t.meshes && p in t.meshes[m].nodes ensures m == name { OneMesh(t, p, m, name); }
    }
    if CreateOpen(t, p, steps) || !Satisfied(t, name, p, v, held, steps) {
      Named(t, name, p);
      var op := CreateAt(t, name, v, held, steps)(p)[0];
      assert CreatesHere(t, name, p, v, held, steps, op);
      PlanHas(t, v, open, held, steps, created, op);
    }
  }

  /** The view holds, live or stopped, the birth the path's spec asks for. */
  ghost predicate HeldHere(t: Topology, name: string, p: PathName, v: View)
    requires t.Contains(p)
  {
    && v.At(p).Some? && v.At(p).value.mesh == name && v.At(p).value.kind == t.SpecAt(p).value.kind
    && (v.At(p).value.status.Live() || v.At(p).value.stopped)
  }

  /** An open create is planned again whatever the view holds; a complete one is not planned while the view holds its
      birth live or stopped. */
  lemma OrdinaryCreateReplanned(t: Topology, name: string, p: PathName, v: View, open: set<string>, held: set<string>,
      steps: seq<Step>, created: set<PathName>)
    requires t.WellFormed() && name in t.meshes && p in t.meshes[name].nodes && t.CreatedId(p).Some?
        && t.Replaced(p).None?
    requires t.Contains(p)
    ensures
      var key := NodeCreate(t.CreatedId(p).value);
      var planned := exists op :: op in BuildPlan(t, v, open, held, steps, created) && op.CreateNode? && op.at == p;
      && (Began(steps, key) && !Done(steps, key) ==> planned)
      && (Done(steps, key) && HeldHere(t, name, p, v) ==> !planned)
  {
    hide BuildPlan, Topology.WellFormed, Done, Began, Topology.Replaced, Topology.SpecAt;
    OrdinaryCreateExactly(t, name, p, v, open, held, steps, created);
    Named(t, name, p);
  }
}
