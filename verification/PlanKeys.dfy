/** When no two operations of a plan share a key. */
module PlanKeys {
  import opened Order
  import opened Model
  import opened Planner
  import opened PlanShape

  /** What acceptance gives a Build: each path and each birth pinned once, each path and each node id created once, each
      mesh under its own id. */
  ghost predicate Identified(t: Topology) {
    && NoRepeats(t.pinned)
    && (forall e, e' :: e in t.pinned && e' in t.pinned && (e.0 == e'.0 || e.1.id == e'.1.id) ==> e == e')
    && (forall e, e' :: e in t.created && e' in t.created && (e.0 == e'.0 || e.1 == e'.1) ==> e == e')
    && (forall m, m' :: m in t.meshes && m' in t.meshes && t.meshes[m].id == t.meshes[m'].id ==> m == m')
  }

  /** The view names no mesh id twice. */
  ghost predicate MeshIdsOnce(v: View) {
    forall m, m' :: m in v.meshes && m' in v.meshes && m.id.Some? && m.id == m'.id ==> m == m'
  }

  /** No two meshes being shut down state one id. */
  ghost predicate ShutsOnce(t: Topology, v: View, open: set<string>) {
    forall m, m' ::
        m in v.meshes && m' in v.meshes && Going(t, m, open) && Going(t, m', open) && m.id.Some? && m.id == m'.id ==>
          m == m'
  }

  /** No two operations of a plan share a key. */
  ghost predicate KeysApart(ops: seq<Operation>) { forall i, j :: 0 <= i < j < |ops| ==> ops[i].Key() != ops[j].Key() }

  lemma SameCreated(t: Topology, p: PathName, q: PathName)
    requires Identified(t) && t.CreatedId(p).Some? && t.CreatedId(p) == t.CreatedId(q)
    ensures p == q
  {
    var a, b := (p, t.CreatedId(p).value), (q, t.CreatedId(q).value);
    assert a in t.created && b in t.created;
  }

  lemma SamePinned(t: Topology, p: PathName, q: PathName, b: PinnedBirth, c: PinnedBirth)
    requires Identified(t) && (p, b) in t.pinned && (q, c) in t.pinned && (p == q || b.id == c.id)
    ensures p == q && b == c
  {
    var x, y := (p, b), (q, c);
    assert x in t.pinned && y in t.pinned;
  }

  /** Two creates of one plan under one key are one operation. */
  lemma OneCreate(t: Topology, v: View, open: set<string>, held: set<string>, steps: seq<Step>,
      created: set<PathName>, a: Operation, b: Operation)
    requires t.WellFormed() && Identified(t)
    requires a in BuildPlan(t, v, open, held, steps, created) && b in BuildPlan(t, v, open, held, steps, created)
    requires a.CreateNode? && b.CreateNode? && a.Key() == b.Key()
    ensures a == b
  {
    hide BuildPlan, ReplacementStep, CreateDue, Topology.Replaced, Extra, Topology.WellFormed, Done, Topology.SpecAt,
        Identified;
    PlanReads(t, v, open, held, steps, created, a);
    PlanReads(t, v, open, held, steps, created, b);
    SameCreated(t, a.at, b.at);
    forall m, m' | m in t.meshes && m' in t.meshes && a.at in t.meshes[m].nodes && a.at in t.meshes[m'].nodes
      ensures m == m'
    {
      OneMesh(t, a.at, m, m');
    }
  }

  /** Two deletes of one plan under one key are one operation. */
  lemma OneDelete(t: Topology, v: View, open: set<string>, held: set<string>, steps: seq<Step>,
      created: set<PathName>, a: Operation, b: Operation)
    requires t.WellFormed() && Identified(t)
    requires a in BuildPlan(t, v, open, held, steps, created) && b in BuildPlan(t, v, open, held, steps, created)
    requires a.DeleteNode? && b.DeleteNode? && a.Key() == b.Key()
    ensures a == b
  {
    hide BuildPlan, ReplacementStep, CreateDue, Topology.Replaced, Extra, Topology.WellFormed, Done, Topology.SpecAt,
        Identified;
    PlanReads(t, v, open, held, steps, created, a);
    PlanReads(t, v, open, held, steps, created, b);
    SamePinned(t, a.at, b.at, a.birth.value, b.birth.value);
  }

  lemma OneMeshOperation(t: Topology, v: View, open: set<string>, held: set<string>, steps: seq<Step>,
      created: set<PathName>, a: Operation, b: Operation)
    requires t.WellFormed() && Identified(t) && v.WellFormed() && ShutsOnce(t, v, open)
    requires a in BuildPlan(t, v, open, held, steps, created) && b in BuildPlan(t, v, open, held, steps, created)
    requires (a.CreateMesh? || a.ShutdownMesh? || a.DeleteFabric?) && a.Key() == b.Key()
    ensures a == b
  {
    hide BuildPlan, ReplacementStep, CreateDue, Topology.Replaced, Extra, Topology.WellFormed, Done, Topology.SpecAt,
        View.HoldsMesh, Going;
    hide FirstAt, FirstOf, NoRepeats;
    PlanReads(t, v, open, held, steps, created, a);
    PlanReads(t, v, open, held, steps, created, b);
  }

  /** One key, one operation. */
  lemma OneOperation(t: Topology, v: View, open: set<string>, held: set<string>, steps: seq<Step>,
      created: set<PathName>, a: Operation, b: Operation)
    requires t.WellFormed() && Identified(t) && v.WellFormed() && ShutsOnce(t, v, open)
    requires a in BuildPlan(t, v, open, held, steps, created) && b in BuildPlan(t, v, open, held, steps, created)
        && a.Key() == b.Key()
    ensures a == b
  {
    hide BuildPlan, Topology.WellFormed, Identified, View.WellFormed, ShutsOnce;
    match a {
      case CreateNode(_, _, _, _, _) => OneCreate(t, v, open, held, steps, created, a, b);
      case DeleteNode(_, _, _, _) =>
        NeverPlannedAgain(t, v, open, held, steps, created, a);
        NeverPlannedAgain(t, v, open, held, steps, created, b);
        OneDelete(t, v, open, held, steps, created, a, b);
      case CreateMesh(_, _) => OneMeshOperation(t, v, open, held, steps, created, a, b);
      case ShutdownMesh(_, _) => OneMeshOperation(t, v, open, held, steps, created, a, b);
      case DeleteFabric(_) => OneMeshOperation(t, v, open, held, steps, created, a, b);
    }
  }

  // ---------------------------------------------------------------------------------------------
  // No operation is listed twice
  // ---------------------------------------------------------------------------------------------

  lemma OrderNoRepeats(m: MeshTopology)
    ensures NoRepeats(PlanOrder(m))
  {
    PathsNoRepeats(m.Admins());
    PathsNoRepeats(m.nodes - m.Admins());
    NoRepeatsJoin(Paths(m.Admins()), Paths(m.nodes - m.Admins()));
  }

  lemma CreatesNoRepeats(t: Topology, name: string, v: View, held: set<string>, steps: seq<Step>)
    requires name in t.meshes
    ensures NoRepeats(Gather(PlanOrder(t.meshes[name]), CreateAt(t, name, v, held, steps)))
  {
    hide CreateDue, PlanOrder, Topology.SpecAt;
    OrderNoRepeats(t.meshes[name]);
    GatherNoRepeats(PlanOrder(t.meshes[name]), CreateAt(t, name, v, held, steps));
  }

  lemma SectionNoRepeats(t: Topology, name: string, v: View, held: set<string>, steps: seq<Step>)
    requires t.WellFormed() && name in t.meshes
    ensures NoRepeats(Section(t, name, v, held, steps))
  {
    hide Topology.WellFormed, CreateAt, ReplacementStep, PlanOrder, View.HoldsMesh, Gather, Topology.Replaced,
        Topology.SpecAt, CreateDue;
    var step := ReplacementStep(t, name, steps);
    var a := if v.HoldsMesh(name) then [] else [CreateMesh(name, t.meshes[name].id)];
    var b := if step.Some? then [step.value] else [];
    var c := Gather(PlanOrder(t.meshes[name]), CreateAt(t, name, v, held, steps));
    CreatesNoRepeats(t, name, v, held, steps);
    if step.Some? {
      var r := ReplacementSays(t, name, steps, step.value);
    }
    forall op | op in c ensures op !in a + b {
      GatherHas(PlanOrder(t.meshes[name]), CreateAt(t, name, v, held, steps), op);
      var p :| p in PlanOrder(t.meshes[name]) && op in CreateAt(t, name, v, held, steps)(p);
      assert CreatesHere(t, name, p, v, held, steps, op);
      OrdinarySays(t, name, p, v, held, steps, op);
    }
    NoRepeatsJoin(a + b, c);
  }

  lemma SectionsApart(t: Topology, name: string, name': string, v: View, held: set<string>, steps: seq<Step>,
      op: Operation)
    requires t.WellFormed() && name in t.meshes && name' in t.meshes
    requires InSection(t, name, v, held, steps, op) && InSection(t, name', v, held, steps, op)
    ensures name == name'
  {
    hide Topology.WellFormed, CreateAt, ReplacementStep, View.HoldsMesh, Topology.Replaced, Topology.SpecAt,
        CreateDue, InSection, CreatesHere;
    OfItsMesh(t, name, v, held, steps, op);
    OfItsMesh(t, name', v, held, steps, op);
    if op.CreateNode? || op.DeleteNode? { OneMesh(t, op.at, name, name'); }
  }

  lemma OfItsMesh(t: Topology, name: string, v: View, held: set<string>, steps: seq<Step>, op: Operation)
    requires t.WellFormed() && name in t.meshes && InSection(t, name, v, held, steps, op)
    ensures if op.CreateMesh? then op.mesh == name
        else (op.CreateNode? || op.DeleteNode?) && op.at in t.meshes[name].nodes
  {
    hide Topology.WellFormed, CreateAt, ReplacementStep, View.HoldsMesh, Topology.Replaced, Topology.SpecAt,
        CreateDue, InSection;
    SectionHas(t, name, v, held, steps, op);
    if ReplacementStep(t, name, steps) == Some(op) {
      var r := ReplacementSays(t, name, steps, op);
    } else if p :| CreatesHere(t, name, p, v, held, steps, op) {
      OrdinarySays(t, name, p, v, held, steps, op);
    }
  }

  lemma SectionsNoRepeats(t: Topology, v: View, held: set<string>, steps: seq<Step>)
    requires t.WellFormed()
    ensures NoRepeats(Gather(Names(t.meshes.Keys), SectionAt(t, v, held, steps)))
  {
    hide Section, Names, Topology.WellFormed;
    NamesNoRepeats(t.meshes.Keys);
    forall name | name in t.meshes
      ensures NoRepeats(Section(t, name, v, held, steps))
    {
      SectionNoRepeats(t, name, v, held, steps);
    }
    forall a, a', op | a in t.meshes && a' in t.meshes && op in Section(t, a, v, held, steps)
        && op in Section(t, a', v, held, steps) ensures a == a' {
      SectionsApart(t, a, a', v, held, steps, op);
    }
    GatherNoRepeats(Names(t.meshes.Keys), SectionAt(t, v, held, steps));
  }

  lemma SortKeepsOnce<T>(s: seq<T>, q: seq<T>)
    requires multiset(s) == multiset(q) && NoRepeats(s)
    ensures NoRepeats(q)
  {
    SameElements(s, q);
  }

  lemma ExtraNoRepeats(t: Topology, v: View, created: set<PathName>)
    requires v.WellFormed()
    ensures NoRepeats(SortedPaths(Gather(v.nodes, ExtraAt(t, created))))
  {
    hide Extra, SortBy, FirstOf, FirstNamed;
    GatherNoRepeats(v.nodes, ExtraAt(t, created));
    var extra := Gather(v.nodes, ExtraAt(t, created));
    SortKeepsOnce(extra, SortBy(extra, PathLess));
  }

  lemma GoingNoRepeats(t: Topology, v: View, open: set<string>)
    requires v.WellFormed()
    ensures NoRepeats(SortedNames(Gather(v.meshes, GoingAt(t, open))))
  {
    hide Going, SortBy, FirstAt, FirstOf;
    GatherNoRepeats(v.meshes, GoingAt(t, open));
    var going := Gather(v.meshes, GoingAt(t, open));
    SortKeepsOnce(going, SortBy(going, Less));
  }

  lemma DeletesNoRepeats(t: Topology, paths: seq<PathName>, steps: seq<Step>)
    requires NoRepeats(paths)
    ensures NoRepeats(Gather(paths, DeleteAt(t, steps)))
  {
    hide Done, Topology.PinAt;
    GatherNoRepeats(paths, DeleteAt(t, steps));
  }

  lemma ShutdownsNoRepeats(v: View, names: seq<string>)
    requires NoRepeats(names)
    ensures NoRepeats(Gather(names, ShutdownAt(v)))
  {
    hide View.MeshNamed;
    GatherNoRepeats(names, ShutdownAt(v));
  }

  lemma PlanNoRepeats(t: Topology, v: View, open: set<string>, held: set<string>, steps: seq<Step>,
      created: set<PathName>)
    requires t.WellFormed() && v.WellFormed()
    ensures NoRepeats(BuildPlan(t, v, open, held, steps, created))
  {
    hide Topology.WellFormed, View.WellFormed, Gather, SortedPaths, SortedNames, Names, NoRepeats, SectionAt,
        DeleteAt, ShutdownAt, ExtraAt, GoingAt;
    hide IsExtraDelete, IsShutdown, InSection, Extra, Going, Topology.SpecAt;
    var sections := Gather(Names(t.meshes.Keys), SectionAt(t, v, held, steps));
    var deletes := Gather(SortedPaths(Gather(v.nodes, ExtraAt(t, created))), DeleteAt(t, steps));
    var shutdowns := Gather(SortedNames(Gather(v.meshes, GoingAt(t, open))), ShutdownAt(v));
    SectionsNoRepeats(t, v, held, steps);
    ExtraNoRepeats(t, v, created);
    DeletesNoRepeats(t, SortedPaths(Gather(v.nodes, ExtraAt(t, created))), steps);
    GoingNoRepeats(t, v, open);
    ShutdownsNoRepeats(v, SortedNames(Gather(v.meshes, GoingAt(t, open))));
    forall op | op in sections ensures op !in deletes {
      SectionsHave(t, v, held, steps, op);
      var name :| name in t.meshes && InSection(t, name, v, held, steps, op);
      OfItsMesh(t, name, v, held, steps, op);
      if op in deletes {
        DeletesHave(t, v, steps, created, op);
        ExtraReads(t, v, steps, created, op);
        Named(t, name, op.at);
      }
    }
    NoRepeatsJoin(sections, deletes);
    forall op | op in sections + deletes ensures op !in shutdowns {
      ShutdownsHave(t, v, open, op);
      if op in shutdowns { ShutdownReads(t, v, open, op); }
      if op in sections {
        SectionsHave(t, v, held, steps, op);
        var name :| name in t.meshes && InSection(t, name, v, held, steps, op);
        OfItsMesh(t, name, v, held, steps, op);
      } else {
        DeletesHave(t, v, steps, created, op);
        ExtraReads(t, v, steps, created, op);
      }
    }
    NoRepeatsJoin(sections + deletes, shutdowns);
  }

  lemma ExtraReads(t: Topology, v: View, steps: seq<Step>, created: set<PathName>, op: Operation)
    requires IsExtraDelete(t, v, steps, created, op)
    ensures op.DeleteNode? && !t.Contains(op.at)
  {
    hide DeleteAt, Extra;
    var n :| n in v.nodes && Extra(t, n, created) && op in DeleteAt(t, steps)(n.at);
    ExtraSays(t, n, steps, created, op);
  }

  lemma ShutdownReads(t: Topology, v: View, open: set<string>, op: Operation)
    requires IsShutdown(t, v, open, op)
    ensures op.ShutdownMesh?
  {
  }

  lemma BothPlanned<T>(s: seq<T>, a: T, b: T) returns (i: nat, j: nat)
    requires a in s && b in s && a != b
    ensures i < j < |s| && ((s[i] == a && s[j] == b) || (s[i] == b && s[j] == a))
  {
    i :| 0 <= i < |s| && s[i] == a;
    j :| 0 <= j < |s| && s[j] == b;
    if j < i { i, j := j, i; }
  }

  lemma GoingPlanned(t: Topology, v: View, open: set<string>, held: set<string>, steps: seq<Step>,
      created: set<PathName>, m: Mesh)
    requires t.WellFormed() && v.WellFormed() && m in v.meshes && Going(t, m, open) && m.id.Some?
    ensures ShutdownMesh(m.name, m.id.value) in BuildPlan(t, v, open, held, steps, created)
  {
    hide BuildPlan, Topology.WellFormed, IsMeshCreate, IsReplacement, IsOrdinaryCreate, IsExtraDelete, FirstAt,
        FirstOf, FirstNamed;
    var op := ShutdownMesh(m.name, m.id.value);
    assert v.MeshNamed(m.name) == Some(m) && op in ShutdownAt(v)(m.name);
    PlanHas(t, v, open, held, steps, created, op);
  }

  /** For every identified topology, every view and every history, no two operations of a plan share a key exactly when
      no two meshes being shut down state one id. */
  lemma KeysDistinct(t: Topology, v: View, open: set<string>, held: set<string>, steps: seq<Step>,
      created: set<PathName>)
    requires t.WellFormed() && Identified(t) && v.WellFormed()
    ensures KeysApart(BuildPlan(t, v, open, held, steps, created)) <==> ShutsOnce(t, v, open)
  {
    hide BuildPlan, Topology.WellFormed, Identified, View.WellFormed, ShutsOnce;
    var ops := BuildPlan(t, v, open, held, steps, created);
    if ShutsOnce(t, v, open) {
      PlanNoRepeats(t, v, open, held, steps, created);
      forall i, j | 0 <= i < j < |ops| ensures ops[i].Key() != ops[j].Key() {
        if ops[i].Key() == ops[j].Key() { OneOperation(t, v, open, held, steps, created, ops[i], ops[j]); }
      }
    } else {
      var m, m' := ShutsTwice(t, v, open);
      GoingPlanned(t, v, open, held, steps, created, m);
      GoingPlanned(t, v, open, held, steps, created, m');
      var i, j := BothPlanned(ops, ShutdownMesh(m.name, m.id.value), ShutdownMesh(m'.name, m'.id.value));
    }
  }

  lemma ShutsTwice(t: Topology, v: View, open: set<string>) returns (m: Mesh, m': Mesh)
    requires v.WellFormed() && !ShutsOnce(t, v, open)
    ensures m in v.meshes && m' in v.meshes && Going(t, m, open) && Going(t, m', open) && m.id.Some? && m.id == m'.id
        && m.name != m'.name
  {
    hide Going, FirstAt, FirstOf;
    m, m' :|
        m in v.meshes && m' in v.meshes && Going(t, m, open) && Going(t, m', open) && m.id.Some? && m.id == m'.id
          && m != m';
    assert v.MeshNamed(m.name) == Some(m) && v.MeshNamed(m'.name) == Some(m');
  }
}
