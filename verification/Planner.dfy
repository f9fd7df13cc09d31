/** The plan of a Build: `topology - observed`, given what its step events say already ran. A stateless function, run
    again after every pass and every crash. */
module Planner {
  import opened Order
  import opened Model

  const STEP_ACCEPTED_ROSTER := "AcceptedRoster"
  const STEP_MESH_DELETED := "MeshDeleted"
  const STEP_MESH_LEFT := "MeshLeft"

  /** Where a mesh.delete stands for the fabric-primary that owns it. */
  datatype Resume = MeshHasLeft | MeshIsDeleted | LeadIt

  function OwnerResume(steps: seq<Step>, operation: OpKey): Resume {
    if Completed(steps, operation, STEP_MESH_LEFT) then MeshHasLeft
    else if Completed(steps, operation, STEP_MESH_DELETED) then MeshIsDeleted
    else LeadIt
  }

  /** The meshes whose mesh.delete the Build began and holds no completion of. */
  function OpenDeletes(v: View, steps: seq<Step>): set<string> {
    set m | m in v.meshes && m.id.Some? && Completed(steps, MeshDelete(m.id.value), STEP_ACCEPTED_ROSTER)
            && OwnerResume(steps, MeshDelete(m.id.value)) == LeadIt :: m.name
  }

  function DeleteOf(at: PathName, birth: PinnedBirth): Operation {
    DeleteNode(at, birth.mesh, birth.kind, Some(birth))
  }

  // ---------------------------------------------------------------------------------------------
  // A mesh's section
  // ---------------------------------------------------------------------------------------------

  /** The one step of `name`'s executable replacements a pass plans: of the first pinned path whose create is not
      complete, its delete, then, once that is complete, its create. */
  function StepFrom(t: Topology, name: string, pins: seq<(PathName, PinnedBirth)>, steps: seq<Step>): Option<Operation>
    requires name in t.meshes
  {
    if pins == [] then None
    else
      var (p, birth) := pins[0];
      var m, id := t.meshes[name], t.CreatedId(pins[0].0);
      if p !in m.nodes || id.None? || Done(steps, NodeCreate(id.value)) then StepFrom(t, name, pins[1..], steps)
      else if !Done(steps, NodeDelete(birth.id)) then Some(DeleteOf(p, birth))
      else if p !in m.specs then None
      else Some(CreateNode(p, id.value, name, m.specs[p].kind, m.specs[p].executable))
  }

  function ReplacementStep(t: Topology, name: string, steps: seq<Step>): Option<Operation>
    requires name in t.meshes
  {
    StepFrom(t, name, t.pinned, steps)
  }

  method NextReplacement(t: Topology, name: string, steps: seq<Step>) returns (r: Option<Operation>)
    requires name in t.meshes
    ensures r == ReplacementStep(t, name, steps)
  {
    hide Done, Lookup;
    var m := t.meshes[name];
    for i := 0 to |t.pinned|
      invariant StepFrom(t, name, t.pinned, steps) == StepFrom(t, name, t.pinned[i..], steps)
    {
      assert t.pinned[i..][1..] == t.pinned[i + 1..];
      var (p, birth) := t.pinned[i];
      var id := t.CreatedId(p);
      if p !in m.nodes || id.None? || Done(steps, NodeCreate(id.value)) { continue; }
      if !Done(steps, NodeDelete(birth.id)) { return Some(DeleteOf(p, birth)); }
      if p !in m.specs { return None; }
      return Some(CreateNode(p, id.value, name, m.specs[p].kind, m.specs[p].executable));
    }
    return None;
  }

  /** A mesh's node-admins in path order, then its other nodes in path order. */
  function PlanOrder(m: MeshTopology): (r: seq<PathName>)
    ensures forall p :: p in r <==> p in m.nodes
  {
    Paths(m.Admins()) + Paths(m.nodes - m.Admins())
  }

  /** The view satisfies the path: its birth is of the spec's mesh and type, and live, or stopped with this Build's
      create complete, or silent in a mesh held unheard. */
  predicate Satisfied(t: Topology, name: string, p: PathName, v: View, held: set<string>, steps: seq<Step>)
    requires name in t.meshes
  {
    var n := v.At(p);
    && n.Some? && n.value.mesh == name
    && p in t.meshes[name].specs && t.meshes[name].specs[p].kind == n.value.kind
    && (|| n.value.status.Live()
        || (n.value.stopped && t.CreatedId(p).Some? && Done(steps, NodeCreate(t.CreatedId(p).value)))
        || (name in held && n.value.status in {PendingReconnect, Dead}))
  }

  /** This Build's create at `p` began and holds no `Complete`. */
  predicate CreateOpen(t: Topology, p: PathName, steps: seq<Step>) {
    t.CreatedId(p).Some? && Began(steps, NodeCreate(t.CreatedId(p).value))
        && !Done(steps, NodeCreate(t.CreatedId(p).value))
  }

  /** A path this Build creates and does not replace, not satisfied or with its create open. */
  predicate CreateDue(t: Topology, name: string, p: PathName, v: View, held: set<string>, steps: seq<Step>)
    requires name in t.meshes
  {
    t.CreatedId(p).Some? && t.Replaced(p).None? && (CreateOpen(t, p, steps) || !Satisfied(t, name, p, v, held, steps))
  }

  function CreateAt(t: Topology, name: string, v: View, held: set<string>, steps: seq<Step>): PathName -> seq<Operation>
    requires name in t.meshes
  {
    (p: PathName) =>
      if p in t.meshes[name].specs && CreateDue(t, name, p, v, held, steps) then
        [CreateNode(p, t.CreatedId(p).value, name, t.meshes[name].specs[p].kind,
            if t.Contains(p) then t.SpecAt(p).value.executable else None)]
      else []
  }

  /** What the plan holds of the kept mesh `name`. */
  function Section(t: Topology, name: string, v: View, held: set<string>, steps: seq<Step>): seq<Operation>
    requires t.WellFormed() && name in t.meshes
  {
    var step := ReplacementStep(t, name, steps);
    (if v.HoldsMesh(name) then [] else [CreateMesh(name, t.meshes[name].id)])
    + (if step.Some? then [step.value] else [])
    + Gather(PlanOrder(t.meshes[name]), CreateAt(t, name, v, held, steps))
  }

  function SectionAt(t: Topology, v: View, held: set<string>, steps: seq<Step>): string -> seq<Operation>
    requires t.WellFormed()
  {
    (name: string) => if name in t.meshes then Section(t, name, v, held, steps) else []
  }

  // ---------------------------------------------------------------------------------------------
  // Deletes and shutdowns
  // ---------------------------------------------------------------------------------------------

  predicate PinnedHere(t: Topology, n: Node) { exists e :: e in t.pinned && e.0 == n.at && e.1.Is(n) }

  /** A birth of a kept mesh held live or stopped at a path the topology no longer names, or the very birth the
      acceptance pinned there. */
  predicate Surplus(t: Topology, n: Node) {
    && (n.status.Live() || n.stopped || PinnedHere(t, n))
    && (n.mesh in t.meshes || PinnedHere(t, n))
    && !t.Contains(n.at)
  }

  predicate Extra(t: Topology, n: Node, created: set<PathName>) {
    Surplus(t, n) && n.at !in created && t.PinAt(n.at).Some?
  }

  function ExtraAt(t: Topology, created: set<PathName>): Node -> seq<PathName> {
    (n: Node) => if Extra(t, n, created) then [n.at] else []
  }

  /** The delete of the birth pinned at each path, unless it is complete. */
  function DeleteAt(t: Topology, steps: seq<Step>): PathName -> seq<Operation> {
    (p: PathName) =>
      if t.PinAt(p).Some? && !Done(steps, DeleteOf(p, t.PinAt(p).value).Key()) then [DeleteOf(p, t.PinAt(p).value)]
          else []
  }

  /** A mesh the topology no longer names that is not deleted, or whose mesh.delete is open. */
  predicate Going(t: Topology, m: Mesh, open: set<string>) {
    (m.status != ScopeDead || m.name in open) && m.name !in t.meshes
  }

  function GoingAt(t: Topology, open: set<string>): Mesh -> seq<string> {
    (m: Mesh) => if Going(t, m, open) then [m.name] else []
  }

  /** The shutdown of a mesh whose id is known; a mesh with none has no operation key. */
  function ShutdownAt(v: View): string -> seq<Operation> {
    (name: string) =>
      var m := v.MeshNamed(name);
      if m.Some? && m.value.id.Some? then [ShutdownMesh(name, m.value.id.value)] else []
  }

  function SortedPaths(s: seq<PathName>): (r: seq<PathName>)
    ensures forall p :: p in r <==> p in s
    ensures |r| == |s|
  {
    var r := SortBy(s, PathLess);
    assert forall p :: p in r <==> p in multiset(r);
    assert |multiset(r)| == |multiset(s)|;
    r
  }

  function SortedNames(s: seq<string>): (r: seq<string>)
    ensures forall n :: n in r <==> n in s
    ensures |r| == |s|
  {
    var r := SortBy(s, Less);
    assert forall n :: n in r <==> n in multiset(r);
    assert |multiset(r)| == |multiset(s)|;
    r
  }

  /** The plan of a Build that is not a fabric.delete. */
  function BuildPlan(t: Topology, v: View, open: set<string>, held: set<string>, steps: seq<Step>,
      created: set<PathName>): seq<Operation>
    requires t.WellFormed()
  {
    Gather(Names(t.meshes.Keys), SectionAt(t, v, held, steps))
    + Gather(SortedPaths(Gather(v.nodes, ExtraAt(t, created))), DeleteAt(t, steps))
    + Gather(SortedNames(Gather(v.meshes, GoingAt(t, open))), ShutdownAt(v))
  }

  // ---------------------------------------------------------------------------------------------
  // The plan as the program builds it up, operation by operation
  // ---------------------------------------------------------------------------------------------

  method Each<A, B>(s: seq<A>, f: A -> seq<B>) returns (r: seq<B>)
    ensures r == Gather(s, f)
  {
    r := [];
    for i := 0 to |s|
      invariant r == Gather(s[..i], f)
    {
      GatherNext(s, f, i);
      r := r + f(s[i]);
    }
    GatherAll(s, f);
  }

  method PlanSection(t: Topology, name: string, v: View, held: set<string>, steps: seq<Step>)
      returns (ops: seq<Operation>)
    requires t.WellFormed() && name in t.meshes
    ensures ops == Section(t, name, v, held, steps)
  {
    hide ReplacementStep, Topology.WellFormed, CreateAt, PlanOrder, Gather;
    ops := [];
    if !v.HoldsMesh(name) { ops := [CreateMesh(name, t.meshes[name].id)]; }
    var step := NextReplacement(t, name, steps);
    if step.Some? { ops := ops + [step.value]; }
    var creates := Each(PlanOrder(t.meshes[name]), CreateAt(t, name, v, held, steps));
    ops := ops + creates;
  }

  method PlanSections(t: Topology, v: View, held: set<string>, steps: seq<Step>) returns (ops: seq<Operation>)
    requires t.WellFormed()
    ensures ops == Gather(Names(t.meshes.Keys), SectionAt(t, v, held, steps))
  {
    hide Section, Topology.WellFormed, Names, Gather;
    ops := [];
    var names := Names(t.meshes.Keys);
    GatherNone<string, Operation>(SectionAt(t, v, held, steps));
    for i := 0 to |names|
      invariant ops == Gather(names[..i], SectionAt(t, v, held, steps))
    {
      var section := PlanSection(t, names[i], v, held, steps);
      GatherNext(names, SectionAt(t, v, held, steps), i);
      ops := ops + section;
    }
    GatherAll(names, SectionAt(t, v, held, steps));
  }

  lemma GatherNone<A, B>(f: A -> seq<B>)
    ensures Gather([], f) == []
  {
  }

  method PlanBuild(t: Topology, v: View, open: set<string>, held: set<string>, steps: seq<Step>, created: set<PathName>)
    returns (ops: seq<Operation>)
    requires t.WellFormed()
    ensures ops == BuildPlan(t, v, open, held, steps, created)
  {
    hide Topology.WellFormed, SortedNames, SortedPaths, Names, Gather, SectionAt, ExtraAt, DeleteAt, GoingAt,
        ShutdownAt;
    ops := PlanSections(t, v, held, steps);
    var extra := Each(v.nodes, ExtraAt(t, created));
    var deletes := Each(SortedPaths(extra), DeleteAt(t, steps));
    var going := Each(v.meshes, GoingAt(t, open));
    var shutdowns := Each(SortedNames(going), ShutdownAt(v));
    ops := ops + deletes + shutdowns;
  }
}
