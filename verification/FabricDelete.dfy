/** fabric.delete: the plan that ends every mesh leaf-inward, the fabric-primary's own last, and the views it is planned
    over, completed from the stored rows. */
module FabricDelete {
  import opened Order
  import opened Model
  import opened Planner
  import opened PlanKeys

  // ---------------------------------------------------------------------------------------------
  // The plan
  // ---------------------------------------------------------------------------------------------

  function FabricPrimaries(nodes: seq<Node>): seq<Node> {
    Gather(nodes, (n: Node) => if n.isFabricPrimary then [n] else [])
  }

  /** The fabric-primary, when exactly one birth holds the role. */
  function FabricPrimary(v: View): Option<Node> {
    if |FabricPrimaries(v.nodes)| == 1 then Some(FabricPrimaries(v.nodes)[0]) else None
  }

  function OwnMesh(v: View): Option<string> {
    if FabricPrimary(v).Some? then Some(FabricPrimary(v).value.mesh) else None
  }

  /** Every other mesh in name order, then the fabric-primary's own. */
  function Inward(own: Option<string>): (Mesh, Mesh) -> bool {
    (a: Mesh, b: Mesh) =>
      if own == Some(a.name) then own == Some(b.name) && Less(a.name, b.name)
          else own == Some(b.name) || Less(a.name, b.name)
  }

  /** The final primary of a deleted mesh, or a birth of it whose node.delete this Build began. */
  predicate Final(n: Node, mesh: string, steps: seq<Step>) {
    n.mesh == mesh && ((n.isPrimary && (n.status.Live() || n.stopped)) || Began(steps, NodeDelete(n.id)))
  }

  function FinalDelete(mesh: string, steps: seq<Step>): Node -> seq<Operation> {
    (n: Node) =>
      if Final(n, mesh, steps) && PinOf(n).Some?
          && !Done(steps, DeleteOf(n.at, PinOf(n).value).Key()) then [DeleteOf(n.at, PinOf(n).value)] else []
  }

  function MeshEnd(v: View, open: set<string>, steps: seq<Step>): Mesh -> seq<Operation> {
    (m: Mesh) =>
      if m.id.None? then []
      else match OwnerResume(steps, MeshDelete(m.id.value))
        case MeshHasLeft => []
        case MeshIsDeleted => if OwnMesh(v) == Some(m.name) then [] else Gather(v.nodes, FinalDelete(m.name, steps))
        case LeadIt => if m.status != ScopeDead || m.name in open then [ShutdownMesh(m.name, m.id.value)] else []
  }

  function FabricDeletePlan(v: View, open: set<string>, steps: seq<Step>): seq<Operation> {
    Gather(SortBy(v.meshes, Inward(OwnMesh(v))), MeshEnd(v, open, steps))
    + if Done(steps, FabricDelete(v.fabricId)) then [] else [DeleteFabric(v.fabricId)]
  }

  /** The plan of any Build: a fabric.delete's topology holds no mesh and pins nothing. */
  function PlanWith(t: Topology, v: View, open: set<string>, held: set<string>, steps: seq<Step>,
      created: set<PathName>): seq<Operation>
    requires t.WellFormed()
  {
    if t.meshes == map[] && t.pinned == [] then FabricDeletePlan(v, open, steps)
        else BuildPlan(t, v, open, held, steps, created)
  }

  method Plan(t: Topology, v: View, open: set<string>, held: set<string>, steps: seq<Step>, created: set<PathName>)
      returns (ops: seq<Operation>)
    requires t.WellFormed()
    ensures ops == PlanWith(t, v, open, held, steps, created)
  {
    hide Topology.WellFormed, BuildPlan, Gather, MeshEnd, SortBy, OwnMesh, Done, Inward;
    if t.meshes == map[] && t.pinned == [] {
      ops := Each(SortBy(v.meshes, Inward(OwnMesh(v))), MeshEnd(v, open, steps));
      if !Done(steps, FabricDelete(v.fabricId)) { ops := ops + [DeleteFabric(v.fabricId)]; }
    } else {
      ops := PlanBuild(t, v, open, held, steps, created);
    }
  }

  lemma InwardWeak(own: Option<string>)
    ensures Weak(Inward(own))
  {
    hide Less;
    TextOrder();
    var f := Inward(own);
    forall x, y | f(x, y) ensures !f(y, x) {
      assert !Less(x.name, x.name);
    }
    forall x, y, z | !f(y, x) && !f(z, y) ensures !f(z, x) {
      assert x.name == y.name || Less(x.name, y.name) || Less(y.name, x.name);
      assert y.name == z.name || Less(y.name, z.name) || Less(z.name, y.name);
      if Less(z.name, x.name) && Less(x.name, y.name) { assert Less(z.name, y.name); }
    }
  }

  /** `op` is of the mesh named `mesh`. */
  predicate OfMesh(op: Operation, mesh: string) {
    (op.ShutdownMesh? || op.DeleteNode?) && op.mesh == mesh
  }

  /** What a mesh's end plans is of that mesh; of the fabric-primary's own, only its shutdown. */
  lemma EndReads(v: View, open: set<string>, steps: seq<Step>, m: Mesh, op: Operation)
    requires op in MeshEnd(v, open, steps)(m)
    ensures OfMesh(op, m.name) && (OwnMesh(v) == Some(m.name) ==> op.ShutdownMesh?)
    ensures op.DeleteNode? ==> op.birth.Some? && op.birth.value.mesh == m.name
  {
    hide OwnMesh, Done, Began, Gather;
    GatherHas(v.nodes, FinalDelete(m.name, steps), op);
  }

  lemma {:induction false} GatherSplit<A, B>(s: seq<A>, t: seq<A>, f: A -> seq<B>)
    ensures Gather(s + t, f) == Gather(s, f) + Gather(t, f)
  {
    if t == [] {
      assert s + t == s;
    } else {
      assert (s + t)[..|s + t| - 1] == s + t[..|t| - 1];
      GatherSplit(s, t[..|t| - 1], f);
    }
  }

  /** The sorted meshes are every other mesh, then the fabric-primary's own. */
  lemma {:induction false} OwnLast(q: seq<Mesh>, own: string) returns (k: nat)
    requires InOrder(q, Inward(Some(own)))
    ensures k <= |q| && (forall i :: 0 <= i < k ==> q[i].name != own) && (forall i :: k <= i < |q| ==> q[i].name == own)
  {
    if q == [] || q[0].name == own {
      k := 0;
      forall i | 0 < i < |q| ensures q[i].name == own { assert !Inward(Some(own))(q[i], q[0]); }
    } else {
      k := OwnLast(q[1..], own);
      k := k + 1;
    }
  }

  lemma OthersInOrder(v: View, open: set<string>, steps: seq<Step>, own: string, q: seq<Mesh>, i: nat, j: nat)
    requires InOrder(q, Inward(Some(own))) && forall k :: 0 <= k < |q| ==> q[k].name != own
    requires i < j < |Gather(q, MeshEnd(v, open, steps))|
    ensures
      var ops := Gather(q, MeshEnd(v, open, steps));
      forall a, b :: OfMesh(ops[i], a) && OfMesh(ops[j], b) ==> !Less(b, a)
  {
    hide Gather, MeshEnd, Less;
    var f := MeshEnd(v, open, steps);
    var a, b, x, y := GatherPairs(q, f, i, j);
    EndReads(v, open, steps, q[a], f(q[a])[x]);
    EndReads(v, open, steps, q[b], f(q[b])[y]);
    TextOrder();
    if a < b { assert !Inward(Some(own))(q[b], q[a]); }
  }

  /** A fabric.delete's plan, whatever the history: the other meshes' operations, then the fabric-primary's own mesh's
      shutdown, then fabric.deleted unless it is done. */
  lemma FabricDeleteOrder(v: View, open: set<string>, steps: seq<Step>)
      returns (others: seq<Operation>, own: seq<Operation>)
    requires FabricPrimary(v).Some?
    ensures FabricDeletePlan(v, open, steps) == others + own + if Done(steps, FabricDelete(v.fabricId)) then []
        else [DeleteFabric(v.fabricId)]
    ensures forall op :: op in others ==> (op.ShutdownMesh? || op.DeleteNode?) && op.mesh != FabricPrimary(v).value.mesh
    ensures forall op ::
        op in others && op.DeleteNode? ==> op.birth.Some? && op.birth.value.mesh != FabricPrimary(v).value.mesh
    ensures forall i, j, a, b :: 0 <= i < j < |others| && OfMesh(others[i], a) && OfMesh(others[j], b) ==> !Less(b, a)
    ensures forall op :: op in own ==> op.ShutdownMesh? && op.mesh == FabricPrimary(v).value.mesh
  {
    hide FabricPrimary, Gather, MeshEnd, SortBy, Inward, Done, Less;
    var mesh := FabricPrimary(v).value.mesh;
    var q, f := SortBy(v.meshes, Inward(Some(mesh))), MeshEnd(v, open, steps);
    InwardWeak(Some(mesh));
    SortOrders(v.meshes, Inward(Some(mesh)));
    var k := OwnLast(q, mesh);
    assert q == q[..k] + q[k..];
    GatherSplit(q[..k], q[k..], f);
    others, own := Gather(q[..k], f), Gather(q[k..], f);
    forall op | op in others
      ensures (op.ShutdownMesh? || op.DeleteNode?) && op.mesh != mesh
          && (op.DeleteNode? ==> op.birth.Some? && op.birth.value.mesh != mesh)
    {
      GatherHas(q[..k], f, op);
      var m :| m in q[..k] && op in f(m);
      EndReads(v, open, steps, m, op);
    }
    forall i, j, a, b | 0 <= i < j < |others| && OfMesh(others[i], a) && OfMesh(others[j], b) ensures !Less(b, a) {
      OthersInOrder(v, open, steps, mesh, q[..k], i, j);
    }
    forall op | op in own ensures op.ShutdownMesh? && op.mesh == mesh {
      GatherHas(q[k..], f, op);
      var m :| m in q[k..] && op in f(m);
      EndReads(v, open, steps, m, op);
    }
  }

  /** The shutdown of a mesh the Build still leads: its id known, not Dead or its delete open. */
  ghost predicate IsLed(m: Mesh, open: set<string>, steps: seq<Step>, op: Operation) {
    && m.id.Some? && OwnerResume(steps, MeshDelete(m.id.value)) == LeadIt
    && (m.status != ScopeDead || m.name in open) && op == ShutdownMesh(m.name, m.id.value)
  }

  /** The unfinished delete of a final birth of another mesh, once its mesh is deleted. */
  ghost predicate IsFinal(v: View, m: Mesh, n: Node, steps: seq<Step>, op: Operation) {
    && m.id.Some? && OwnerResume(steps, MeshDelete(m.id.value)) == MeshIsDeleted && OwnMesh(v) != Some(m.name)
    && Final(n, m.name, steps) && PinOf(n).Some? && op == DeleteOf(n.at, PinOf(n).value) && !Done(steps, op.Key())
  }

  lemma EndHas(v: View, open: set<string>, steps: seq<Step>, m: Mesh, op: Operation)
    ensures op in MeshEnd(v, open, steps)(m) <==>
        IsLed(m, open, steps, op) || exists n :: n in v.nodes && IsFinal(v, m, n, steps, op)
  {
    hide OwnMesh, Done, Final, PinOf, Gather, OwnerResume;
    GatherHas(v.nodes, FinalDelete(m.name, steps), op);
  }

  /** A fabric.delete plans exactly the shutdowns of the meshes it still leads, the deletes of the final births of the
      other meshes once theirs are deleted, and fabric.deleted until it is done. */
  lemma FabricDeleteHas(v: View, open: set<string>, steps: seq<Step>, op: Operation)
    ensures op in FabricDeletePlan(v, open, steps) <==>
            || (exists m :: m in v.meshes && IsLed(m, open, steps, op))
            || (exists m, n :: m in v.meshes && n in v.nodes && IsFinal(v, m, n, steps, op))
            || (op == DeleteFabric(v.fabricId) && !Done(steps, FabricDelete(v.fabricId)))
  {
    hide Gather, MeshEnd, SortBy, OwnMesh, Done, Inward, IsLed, IsFinal;
    var q, f := SortBy(v.meshes, Inward(OwnMesh(v))), MeshEnd(v, open, steps);
    assert forall m :: m in q <==> m in v.meshes by {
      assert multiset(q) == multiset(v.meshes);
      assert forall m :: m in q <==> m in multiset(q);
    }
    GatherHas(q, f, op);
    forall m ensures op in f(m) <==>
        IsLed(m, open, steps, op) || exists n :: n in v.nodes && IsFinal(v, m, n, steps, op) {
      EndHas(v, open, steps, m, op);
    }
  }

  // ---------------------------------------------------------------------------------------------
  // The plan, field by field
  // ---------------------------------------------------------------------------------------------

  /** The mesh's id is known, this Build neither deleted it nor saw it leave, and it is not Dead or its delete is open.
      */
  ghost predicate ToShut(m: Mesh, open: set<string>, steps: seq<Step>) {
    && m.id.Some? && Step(MeshDelete(m.id.value), "MeshDeleted", Complete) !in steps
    && Step(MeshDelete(m.id.value), "MeshLeft", Complete) !in steps
    && (m.status != ScopeDead || m.name in open)
  }

  /** Exactly one birth of the view is fabric-primary, and its mesh is `name`. */
  ghost predicate PrimaryIn(v: View, name: string) {
    exists i ::
        && 0 <= i < |v.nodes| && v.nodes[i].isFabricPrimary && v.nodes[i].mesh == name
        && forall j :: 0 <= j < |v.nodes| && j != i ==> !v.nodes[j].isFabricPrimary
  }

  /** A birth of a deleted mesh that has not left and is not the fabric-primary's, its incarnation known and its delete
      not complete: the mesh's primary, live or stopped, or one whose delete this Build began. */
  ghost predicate ToDelete(v: View, m: Mesh, n: Node, steps: seq<Step>) {
    && m.id.Some? && Step(MeshDelete(m.id.value), "MeshDeleted", Complete) in steps
    && Step(MeshDelete(m.id.value), "MeshLeft", Complete) !in steps && !PrimaryIn(v, m.name)
    && n.mesh == m.name && n.incarnation.Some? && Step(NodeDelete(n.id), "Complete", Complete) !in steps
    && (|| (n.isPrimary && (n.status in {Pending, Ready, ConnectionsDeleting} || n.stopped))
        || exists s :: s in steps && s.operation == NodeDelete(n.id))
  }

  ghost predicate SoleAt(nodes: seq<Node>, i: int) {
    0 <= i < |nodes| && nodes[i].isFabricPrimary && forall j :: 0 <= j < |nodes| && j != i ==> !nodes[j].isFabricPrimary
  }

  lemma PrimariesNext(nodes: seq<Node>)
    requires nodes != []
    ensures
      var k := |nodes| - 1;
      FabricPrimaries(nodes) == FabricPrimaries(nodes[..k]) + if nodes[k].isFabricPrimary then [nodes[k]] else []
  {
  }

  lemma {:induction false} NoPrimary(nodes: seq<Node>)
    ensures FabricPrimaries(nodes) == [] <==> forall i :: 0 <= i < |nodes| ==> !nodes[i].isFabricPrimary
  {
    if nodes != [] {
      PrimariesNext(nodes);
      NoPrimary(nodes[..|nodes| - 1]);
    }
  }

  lemma {:induction false} SolePrimary(nodes: seq<Node>, n: Node)
    ensures FabricPrimaries(nodes) == [n] <==> exists i :: SoleAt(nodes, i) && nodes[i] == n
  {
    hide FabricPrimaries;
    if nodes == [] {
      NoPrimary(nodes);
    } else {
      var k := |nodes| - 1;
      var rest, last := nodes[..k], nodes[k];
      PrimariesNext(nodes);
      SolePrimary(rest, n);
      NoPrimary(rest);
      if last.isFabricPrimary {
        if FabricPrimaries(nodes) == [n] {
          assert FabricPrimaries(nodes)[|FabricPrimaries(rest)|] == last;
          assert SoleAt(nodes, k);
        }
        if i :| SoleAt(nodes, i) && nodes[i] == n { assert i == k && forall j :: 0 <= j < k ==> rest[j] == nodes[j]; }
      } else {
        if i :| SoleAt(rest, i) && rest[i] == n { assert SoleAt(nodes, i); }
        if i :| SoleAt(nodes, i) && nodes[i] == n { assert SoleAt(rest, i); }
      }
    }
  }

  /** The fabric-primary's own mesh is the one of the view's only fabric-primary. */
  lemma OwnMeshExactly(v: View, name: string)
    ensures OwnMesh(v) == Some(name) <==> PrimaryIn(v, name)
  {
    hide FabricPrimaries;
    if OwnMesh(v) == Some(name) {
      assert FabricPrimaries(v.nodes) == [FabricPrimary(v).value];
      SolePrimary(v.nodes, FabricPrimary(v).value);
    }
    if i :| 0 <= i < |v.nodes| && v.nodes[i].isFabricPrimary && v.nodes[i].mesh == name && forall j ::
        0 <= j < |v.nodes| && j != i ==> !v.nodes[j].isFabricPrimary {
      assert SoleAt(v.nodes, i);
      SolePrimary(v.nodes, v.nodes[i]);
    }
  }

  lemma ResumeExactly(steps: seq<Step>, key: OpKey)
    ensures OwnerResume(steps, key) == MeshHasLeft <==> Step(key, "MeshLeft", Complete) in steps
    ensures OwnerResume(steps, key) == MeshIsDeleted <==>
        Step(key, "MeshLeft", Complete) !in steps && Step(key, "MeshDeleted", Complete) in steps
  {
  }

  lemma DoneExactly(steps: seq<Step>, key: OpKey)
    ensures Done(steps, key) <==> Step(key, "Complete", Complete) in steps
  {
  }

  lemma LedExactly(m: Mesh, open: set<string>, steps: seq<Step>)
    ensures Led(m, open, steps) <==> ToShut(m, open, steps)
  {
    hide OwnerResume;
    if m.id.Some? { ResumeExactly(steps, MeshDelete(m.id.value)); }
  }

  lemma FinalExactly(v: View, m: Mesh, n: Node, steps: seq<Step>)
    ensures PinOf(n).Some? && IsFinal(v, m, n, steps, DeleteOf(n.at, PinOf(n).value)) <==> ToDelete(v, m, n, steps)
  {
    hide OwnerResume, OwnMesh, PrimaryIn, Done;
    if m.id.Some? { ResumeExactly(steps, MeshDelete(m.id.value)); }
    OwnMeshExactly(v, m.name);
    DoneExactly(steps, NodeDelete(n.id));
  }

  /** The delete of exactly this birth. */
  ghost predicate DeleteIs(n: Node, op: Operation) {
    n.incarnation.Some?
        && op == DeleteNode(n.at, n.mesh, n.kind, Some(PinnedBirth(n.kind, n.mesh, n.id, n.incarnation.value)))
  }

  lemma DeleteOfIs(n: Node, op: Operation)
    ensures DeleteIs(n, op) <==> PinOf(n).Some? && op == DeleteOf(n.at, PinOf(n).value)
  {
  }

  /** A fabric.delete plans exactly the shutdowns of the meshes still to shut, the deletes of the births of the other
      deleted meshes still to delete, and fabric.deleted until it is done. */
  lemma FabricDeleteByFields(v: View, open: set<string>, steps: seq<Step>, op: Operation)
    ensures op in FabricDeletePlan(v, open, steps) <==>
            || (exists m :: m in v.meshes && ToShut(m, open, steps) && op == ShutdownMesh(m.name, m.id.value))
            || (exists m, n :: m in v.meshes && n in v.nodes && ToDelete(v, m, n, steps) && DeleteIs(n, op))
            || (op == DeleteFabric(v.fabricId) && Step(FabricDelete(v.fabricId), "Complete", Complete) !in steps)
  {
    hide FabricDeletePlan, Done, ToShut, ToDelete, DeleteIs, OwnMesh, OwnerResume, Final, PinOf;
    FabricDeleteHas(v, open, steps, op);
    DoneExactly(steps, FabricDelete(v.fabricId));
    forall m: Mesh ensures m.id.Some? && IsLed(m, open, steps, op) <==>
        m.id.Some? && ToShut(m, open, steps) && op == ShutdownMesh(m.name, m.id.value) {
      LedExactly(m, open, steps);
    }
    forall m: Mesh ensures ToShut(m, open, steps) ==> m.id.Some? { LedExactly(m, open, steps); }
    forall m: Mesh, n: Node ensures IsFinal(v, m, n, steps, op) <==> ToDelete(v, m, n, steps) && DeleteIs(n, op) {
      FinalExactly(v, m, n, steps);
      DeleteOfIs(n, op);
    }
  }

  // ---------------------------------------------------------------------------------------------
  // The keys of any plan
  // ---------------------------------------------------------------------------------------------

  /** No two meshes the Build still leads state one id. */
  ghost predicate LedOnce(v: View, open: set<string>, steps: seq<Step>) {
    forall m, m' ::
        m in v.meshes && m' in v.meshes && Led(m, open, steps) && Led(m', open, steps) && m.id == m'.id ==> m == m'
  }

  ghost predicate Led(m: Mesh, open: set<string>, steps: seq<Step>) {
    m.id.Some? && IsLed(m, open, steps, ShutdownMesh(m.name, m.id.value))
  }

  lemma OneFabricOperation(v: View, open: set<string>, steps: seq<Step>, a: Operation, b: Operation)
    requires v.WellFormed() && LedOnce(v, open, steps)
    requires a in FabricDeletePlan(v, open, steps) && b in FabricDeletePlan(v, open, steps) && a.Key() == b.Key()
    ensures a == b
  {
    hide FabricDeletePlan, Done, OwnMesh, Final, OwnerResume, FirstAt, FirstOf, FirstNamed;
    FabricDeleteHas(v, open, steps, a);
    FabricDeleteHas(v, open, steps, b);
  }

  lemma FabricPlanOnce(v: View, open: set<string>, steps: seq<Step>)
    requires v.WellFormed()
    ensures NoRepeats(FabricDeletePlan(v, open, steps))
  {
    hide Gather, MeshEnd, SortBy, OwnMesh, Done, Inward, FirstAt, FirstOf, FirstNamed;
    var q, f := SortBy(v.meshes, Inward(OwnMesh(v))), MeshEnd(v, open, steps);
    SortKeepsOnce(v.meshes, q);
    forall m ensures NoRepeats(f(m)) { EndOnce(v, open, steps, m); }
    assert forall m :: m in q <==> m in v.meshes by {
      assert multiset(q) == multiset(v.meshes);
      assert forall m :: m in q <==> m in multiset(q);
    }
    forall m, m', op | m in q && m' in q && op in f(m) && op in f(m') ensures m == m' {
      EndReads(v, open, steps, m, op);
      EndReads(v, open, steps, m', op);
      assert v.MeshNamed(m.name) == Some(m) && v.MeshNamed(m'.name) == Some(m');
    }
    GatherNoRepeats(q, f);
    forall op | op in Gather(q, f) ensures op != DeleteFabric(v.fabricId) {
      GatherHas(q, f, op);
      var m :| m in q && op in f(m);
      EndReads(v, open, steps, m, op);
    }
    NoRepeatsJoin(Gather(q, f), [DeleteFabric(v.fabricId)]);
  }

  lemma EndOnce(v: View, open: set<string>, steps: seq<Step>, m: Mesh)
    requires v.WellFormed()
    ensures NoRepeats(MeshEnd(v, open, steps)(m))
  {
    hide Gather, OwnMesh, Done, FirstAt, FirstOf, FirstNamed, Final, OwnerResume;
    var f := FinalDelete(m.name, steps);
    forall n, n', op | n in v.nodes && n' in v.nodes && op in f(n) && op in f(n') ensures n == n' {
      assert v.At(n.at) == Some(n) && v.At(n'.at) == Some(n');
    }
    GatherNoRepeats(v.nodes, f);
  }

  lemma FabricKeysDistinct(v: View, open: set<string>, steps: seq<Step>)
    requires v.WellFormed()
    ensures KeysApart(FabricDeletePlan(v, open, steps)) <==> LedOnce(v, open, steps)
  {
    hide FabricDeletePlan, View.WellFormed, Led;
    var ops := FabricDeletePlan(v, open, steps);
    if LedOnce(v, open, steps) {
      FabricPlanOnce(v, open, steps);
      forall i, j | 0 <= i < j < |ops| ensures ops[i].Key() != ops[j].Key() {
        if ops[i].Key() == ops[j].Key() { OneFabricOperation(v, open, steps, ops[i], ops[j]); }
      }
    } else {
      var m, m' :|
          m in v.meshes && m' in v.meshes && Led(m, open, steps) && Led(m', open, steps) && m.id == m'.id && m != m';
      LedPlanned(v, open, steps, m);
      LedPlanned(v, open, steps, m');
      TwoNames(v, m, m');
      var i, j := BothPlanned(ops, ShutdownMesh(m.name, m.id.value), ShutdownMesh(m'.name, m'.id.value));
    }
  }

  lemma LedPlanned(v: View, open: set<string>, steps: seq<Step>, m: Mesh)
    requires m in v.meshes && Led(m, open, steps)
    ensures m.id.Some? && ShutdownMesh(m.name, m.id.value) in FabricDeletePlan(v, open, steps)
  {
    hide FabricDeletePlan, IsFinal;
    FabricDeleteHas(v, open, steps, ShutdownMesh(m.name, m.id.value));
  }

  lemma TwoNames(v: View, m: Mesh, m': Mesh)
    requires v.WellFormed() && m in v.meshes && m' in v.meshes && m != m'
    ensures m.name != m'.name
  {
    hide FirstNamed, FirstAt, FirstOf;
    assert v.MeshNamed(m.name) == Some(m) && v.MeshNamed(m'.name) == Some(m');
  }

  /** Of any Build, a fabric.delete's included, over every view and history: no two operations of its plan share a key
      exactly when no two meshes it is shutting down state one id; in particular while no two meshes of the view do. */
  lemma AnyPlanKeysDistinct(t: Topology, v: View, open: set<string>, held: set<string>, steps: seq<Step>,
      created: set<PathName>)
    requires t.WellFormed() && Identified(t) && v.WellFormed()
    ensures KeysApart(PlanWith(t, v, open, held, steps, created)) <==>
            if t.meshes == map[] && t.pinned == [] then LedOnce(v, open, steps) else ShutsOnce(t, v, open)
    ensures MeshIdsOnce(v) ==> KeysApart(PlanWith(t, v, open, held, steps, created))
  {
    hide BuildPlan, FabricDeletePlan, Topology.WellFormed, View.WellFormed, Identified, KeysApart;
    FabricKeysDistinct(v, open, steps);
    KeysDistinct(t, v, open, held, steps, created);
  }

  // ---------------------------------------------------------------------------------------------
  // The view completed from the stored rows
  // ---------------------------------------------------------------------------------------------

  datatype MeshState = RowPending | RowReady | RowDeleting | RowDeleted
  datatype MeshRow = MeshRow(id: MeshId, name: string, state: MeshState)

  function ScopeOf(s: MeshState): ScopeStatus {
    match s
    case RowDeleted => ScopeDead
    case RowDeleting => ScopeLeaving
    case RowReady => ScopeReady
    case RowPending => ScopePending
  }

  /** The view holds the row's mesh, by id or by name. */
  predicate Covered(meshes: seq<Mesh>, r: MeshRow) {
    exists m :: m in meshes && (m.id == Some(r.id) || m.name == r.name)
  }

  function AddMeshRow(meshes: seq<Mesh>, r: MeshRow): seq<Mesh> {
    if Covered(meshes, r) then meshes else meshes + [Mesh(Some(r.id), r.name, ScopeOf(r.state))]
  }

  function AddMeshRows(meshes: seq<Mesh>, rows: seq<MeshRow>): seq<Mesh>
    decreases |rows|
  {
    if rows == [] then meshes else AddMeshRows(AddMeshRow(meshes, rows[0]), rows[1..])
  }

  function SameName(rows: seq<MeshRow>, name: string): seq<MeshRow> {
    Gather(rows, (r: MeshRow) => if r.name == name then [r] else [])
  }

  /** The live rows, then the deleted ones that are the only row of their name. */
  function RowOrder(rows: seq<MeshRow>): seq<MeshRow> {
    Gather(rows, LiveRow()) + Gather(rows, LoneDeadRow(rows))
  }

  function LiveRow(): MeshRow -> seq<MeshRow> { (r: MeshRow) => if r.state == RowDeleted then [] else [r] }

  function LoneDeadRow(rows: seq<MeshRow>): MeshRow -> seq<MeshRow> {
    (r: MeshRow) => if r.state == RowDeleted && |SameName(rows, r.name)| == 1 then [r] else []
  }

  function WithMeshRows(v: View, rows: seq<MeshRow>): View {
    v.(meshes := AddMeshRows(v.meshes, RowOrder(rows)))
  }

  method CompleteMeshes(v: View, rows: seq<MeshRow>) returns (r: View)
    ensures r == WithMeshRows(v, rows)
  {
    hide Gather, LoneDeadRow, Covered;
    var live := Each(rows, LiveRow());
    var dead := Each(rows, LoneDeadRow(rows));
    var order, meshes := live + dead, v.meshes;
    for i := 0 to |order|
      invariant AddMeshRows(v.meshes, order) == AddMeshRows(meshes, order[i..])
    {
      var row := order[i];
      if !Covered(meshes, row) { meshes := meshes + [Mesh(Some(row.id), row.name, ScopeOf(row.state))]; }
      assert order[i..][1..] == order[i + 1..];
    }
    r := v.(meshes := meshes);
  }

  /** A name names one mesh. */
  ghost predicate NamesOnce(meshes: seq<Mesh>) {
    forall i, j :: 0 <= i < j < |meshes| ==> meshes[i].name != meshes[j].name
  }

  lemma {:induction false} RowsAdded(meshes: seq<Mesh>, rows: seq<MeshRow>)
    ensures meshes <= AddMeshRows(meshes, rows)
    ensures forall r :: r in rows ==> Covered(AddMeshRows(meshes, rows), r)
    ensures NamesOnce(meshes) ==> NamesOnce(AddMeshRows(meshes, rows))
    decreases |rows|
  {
    hide Covered;
    if rows != [] {
      var grown := AddMeshRow(meshes, rows[0]);
      OneRowAdded(meshes, rows[0]);
      RowsAdded(grown, rows[1..]);
      StillCovered(grown, AddMeshRows(grown, rows[1..]), rows[0]);
    }
  }

  lemma OneRowAdded(meshes: seq<Mesh>, r: MeshRow)
    ensures meshes <= AddMeshRow(meshes, r) && Covered(AddMeshRow(meshes, r), r)
    ensures NamesOnce(meshes) ==> NamesOnce(AddMeshRow(meshes, r))
  {
    if !Covered(meshes, r) {
      assert AddMeshRow(meshes, r)[|meshes|].name == r.name;
      forall i | 0 <= i < |meshes| ensures meshes[i].name != r.name { assert meshes[i] in meshes; }
    }
  }

  lemma StillCovered(a: seq<Mesh>, b: seq<Mesh>, r: MeshRow)
    requires a <= b && Covered(a, r)
    ensures Covered(b, r)
  {
    var m :| m in a && (m.id == Some(r.id) || m.name == r.name);
    assert m in b;
  }

  lemma {:induction false} NothingToAdd(meshes: seq<Mesh>, rows: seq<MeshRow>)
    requires forall r :: r in rows ==> Covered(meshes, r)
    ensures AddMeshRows(meshes, rows) == meshes
    decreases |rows|
  {
    hide Covered;
    if rows != [] { NothingToAdd(meshes, rows[1..]); }
  }

  /** The completed view keeps what it held, covers every row that is not deleted or is the only one of its name, names
      no mesh twice, and completing it again adds nothing. */
  lemma MeshRowsCompleted(v: View, rows: seq<MeshRow>)
    ensures v.meshes <= WithMeshRows(v, rows).meshes && WithMeshRows(v, rows).nodes == v.nodes
    ensures forall r :: r in rows && r.state != RowDeleted ==> Covered(WithMeshRows(v, rows).meshes, r)
    ensures forall i ::
        0 <= i < |rows| && LoneAt(rows, i, rows[i].name) ==> Covered(WithMeshRows(v, rows).meshes, rows[i])
    ensures NamesOnce(v.meshes) ==> NamesOnce(WithMeshRows(v, rows).meshes)
    ensures WithMeshRows(WithMeshRows(v, rows), rows) == WithMeshRows(v, rows)
  {
    hide Gather, Covered, SameName, LoneAt;
    RowsAdded(v.meshes, RowOrder(rows));
    forall i | 0 <= i < |rows| && LoneAt(rows, i, rows[i].name) ensures rows[i] in RowOrder(rows) {
      LoneExactly(rows, rows[i].name);
      assert rows[i] in rows && rows[i] in if rows[i].state == RowDeleted then LoneDeadRow(rows)(rows[i])
          else LiveRow()(rows[i]);
      GatherHas(rows, LiveRow(), rows[i]);
      GatherHas(rows, LoneDeadRow(rows), rows[i]);
    }
    forall r | r in rows && r.state != RowDeleted ensures r in RowOrder(rows) { GatherHas(rows, LiveRow(), r); }
    NothingToAdd(WithMeshRows(v, rows).meshes, RowOrder(rows));
  }

  /** `m` is the row's mesh, at the status its state says. */
  ghost predicate MeshFrom(m: Mesh, r: MeshRow) {
    && m.id == Some(r.id) && m.name == r.name
    && (r.state == RowPending ==> m.status == ScopePending) && (r.state == RowReady ==> m.status == ScopeReady)
    && (r.state == RowDeleting ==> m.status == ScopeLeaving) && (r.state == RowDeleted ==> m.status == ScopeDead)
  }

  lemma RowMesh(r: MeshRow)
    ensures MeshFrom(Mesh(Some(r.id), r.name, ScopeOf(r.state)), r)
  {
  }

  lemma {:induction false} AddedFromRows(meshes: seq<Mesh>, rows: seq<MeshRow>, m: Mesh)
    requires m in AddMeshRows(meshes, rows)
    ensures m in meshes || exists r :: r in rows && MeshFrom(m, r) && !Covered(meshes, r)
    decreases |rows|
  {
    hide Covered, MeshFrom, ScopeOf;
    if rows != [] {
      var grown := AddMeshRow(meshes, rows[0]);
      AddedFromRows(grown, rows[1..], m);
      RowMesh(rows[0]);
      OneRowAdded(meshes, rows[0]);
      if m !in grown {
        var r :| r in rows[1..] && MeshFrom(m, r) && !Covered(grown, r);
        if Covered(meshes, r) { StillCovered(meshes, grown, r); }
        assert r in rows;
      }
    }
  }

  /** A row whose id and name no listed mesh and no other row has is entered. */
  lemma {:induction false} RowEntered(meshes: seq<Mesh>, rows: seq<MeshRow>, r: MeshRow)
    requires r in rows && !Covered(meshes, r) && forall x :: x in rows && (x.id == r.id || x.name == r.name) ==> x == r
    ensures exists m :: m in AddMeshRows(meshes, rows) && MeshFrom(m, r)
    decreases |rows|
  {
    hide MeshFrom, ScopeOf;
    var grown := AddMeshRow(meshes, rows[0]);
    RowsAdded(grown, rows[1..]);
    if rows[0] == r {
      RowMesh(r);
      assert Mesh(Some(r.id), r.name, ScopeOf(r.state)) in grown;
    } else {
      assert rows[0] in rows;
      RowEntered(grown, rows[1..], r);
    }
  }

  lemma {:induction false} AddRowsSplit(meshes: seq<Mesh>, a: seq<MeshRow>, b: seq<MeshRow>)
    ensures AddMeshRows(meshes, a + b) == AddMeshRows(AddMeshRows(meshes, a), b)
    decreases |a|
  {
    if a == [] {
      assert a + b == b;
    } else {
      assert (a + b)[1..] == a[1..] + b;
      AddRowsSplit(AddMeshRow(meshes, a[0]), a[1..], b);
    }
  }

  /** The `i`th row is the only one of `name`. */
  ghost predicate LoneAt(rows: seq<MeshRow>, i: int, name: string) {
    0 <= i < |rows| && rows[i].name == name && forall j :: 0 <= j < |rows| && j != i ==> rows[j].name != name
  }

  lemma SameNameNext(rows: seq<MeshRow>, name: string)
    requires rows != []
    ensures
      var k := |rows| - 1;
      SameName(rows, name) == SameName(rows[..k], name) + if rows[k].name == name then [rows[k]] else []
  {
  }

  lemma {:induction false} NoneNamed(rows: seq<MeshRow>, name: string)
    ensures |SameName(rows, name)| == 0 <==> forall i :: 0 <= i < |rows| ==> rows[i].name != name
  {
    if rows != [] {
      SameNameNext(rows, name);
      NoneNamed(rows[..|rows| - 1], name);
    }
  }

  lemma {:induction false} LoneExactly(rows: seq<MeshRow>, name: string)
    ensures |SameName(rows, name)| == 1 <==> exists i :: LoneAt(rows, i, name)
  {
    hide SameName;
    if rows == [] {
      NoneNamed(rows, name);
    } else {
      var k := |rows| - 1;
      var rest := rows[..k];
      SameNameNext(rows, name);
      LoneExactly(rest, name);
      NoneNamed(rest, name);
      if rows[k].name == name {
        if |SameName(rows, name)| == 1 { assert LoneAt(rows, k, name); }
        if i :| LoneAt(rows, i, name) { assert i == k && forall j :: 0 <= j < k ==> rest[j] == rows[j]; }
      } else {
        if i :| LoneAt(rest, i, name) { assert LoneAt(rows, i, name); }
        if i :| LoneAt(rows, i, name) { assert LoneAt(rest, i, name); }
      }
    }
  }

  /** What completing adds is rows' meshes at their rows' statuses, each of an id and a name the view did not hold;
      and a mesh added Dead is of the only row of its name. */
  lemma MeshRowsAdd(v: View, rows: seq<MeshRow>, m: Mesh)
    requires m in WithMeshRows(v, rows).meshes && m !in v.meshes
    ensures exists r ::
        && r in rows && MeshFrom(m, r) && (forall x :: x in v.meshes ==> x.id != Some(r.id) && x.name != r.name)
        && (r.state == RowDeleted ==> exists i :: LoneAt(rows, i, r.name))
  {
    hide MeshFrom, Gather, AddMeshRows, SameName, LoneAt;
    AddedFromRows(v.meshes, RowOrder(rows), m);
    var r :| r in RowOrder(rows) && MeshFrom(m, r) && !Covered(v.meshes, r);
    GatherHas(rows, LiveRow(), r);
    GatherHas(rows, LoneDeadRow(rows), r);
    LoneExactly(rows, r.name);
  }

  /** A mesh known only by a row that is not Deleted is led by a fabric.delete over the completed view, until this Build
      deleted it or saw it leave. */
  lemma RowsAreLed(v: View, rows: seq<MeshRow>, r: MeshRow, open: set<string>, steps: seq<Step>)
    requires r in rows && r.state != RowDeleted && forall x :: x in v.meshes ==> x.id != Some(r.id) && x.name != r.name
    requires forall x :: x in rows && x.state != RowDeleted && (x.id == r.id || x.name == r.name) ==> x == r
    requires Step(MeshDelete(r.id), "MeshDeleted", Complete) !in steps
    requires Step(MeshDelete(r.id), "MeshLeft", Complete) !in steps
    ensures ShutdownMesh(r.name, r.id) in FabricDeletePlan(WithMeshRows(v, rows), open, steps)
  {
    hide Gather, AddMeshRows, FabricDeletePlan, ToDelete, DeleteIs, LoneDeadRow;
    var live, dead := Gather(rows, LiveRow()), Gather(rows, LoneDeadRow(rows));
    forall x ensures x in live <==> x in rows && x.state != RowDeleted { GatherHas(rows, LiveRow(), x); }
    RowEntered(v.meshes, live, r);
    AddRowsSplit(v.meshes, live, dead);
    RowsAdded(AddMeshRows(v.meshes, live), dead);
    var m :| m in AddMeshRows(v.meshes, live) && MeshFrom(m, r);
    assert m in WithMeshRows(v, rows).meshes && ToShut(m, open, steps);
    FabricDeleteByFields(WithMeshRows(v, rows), open, steps, ShutdownMesh(r.name, r.id));
  }

  datatype NodeRow = NodeRow(id: NodeId, at: PathName, kind: string, incarnation: Incarnation, state: NodeStatus)

  function BirthOfRow(r: NodeRow): Node {
    Node(r.at, r.kind, MeshOfPath(r.at.path), r.id, Some(r.incarnation), r.state, false, false, false)
  }

  predicate HoldsBirth(nodes: seq<Node>, id: NodeId) { exists n :: n in nodes && n.id == id }

  function AddNodeRows(nodes: seq<Node>, rows: seq<NodeRow>): seq<Node>
    decreases |rows|
  {
    if rows == [] then nodes
    else AddNodeRows(if HoldsBirth(nodes, rows[0].id) then nodes else nodes + [BirthOfRow(rows[0])], rows[1..])
  }

  method CompleteNodes(v: View, rows: seq<NodeRow>) returns (r: View)
    ensures r == v.(nodes := AddNodeRows(v.nodes, rows))
  {
    hide HoldsBirth, BirthOfRow;
    var nodes := v.nodes;
    for i := 0 to |rows|
      invariant AddNodeRows(v.nodes, rows) == AddNodeRows(nodes, rows[i..])
    {
      if !HoldsBirth(nodes, rows[i].id) { nodes := nodes + [BirthOfRow(rows[i])]; }
      assert rows[i..][1..] == rows[i + 1..];
    }
    r := v.(nodes := nodes);
  }

  lemma {:induction false} NodeRowsAdded(nodes: seq<Node>, rows: seq<NodeRow>)
    ensures nodes <= AddNodeRows(nodes, rows)
    ensures forall r :: r in rows ==> HoldsBirth(AddNodeRows(nodes, rows), r.id)
    ensures forall n ::
        n in AddNodeRows(nodes, rows) ==>
          n in nodes || exists r :: r in rows && n == BirthOfRow(r) && !HoldsBirth(nodes, r.id)
    decreases |rows|
  {
    hide BirthOfRow;
    if rows != [] {
      var grown := if HoldsBirth(nodes, rows[0].id) then nodes else nodes + [BirthOfRow(rows[0])];
      RowBirth(rows[0]);
      assert HoldsBirth(grown,
          rows[0].id) by { if !HoldsBirth(nodes, rows[0].id) { assert BirthOfRow(rows[0]) in grown; } }
      NodeRowsAdded(grown, rows[1..]);
      forall id | HoldsBirth(nodes, id) ensures HoldsBirth(grown, id) {
        var n :| n in nodes && n.id == id;
        assert n in grown;
      }
      var n :| n in grown && n.id == rows[0].id;
      assert n in AddNodeRows(grown, rows[1..]);
    }
  }

  lemma RowBirth(r: NodeRow)
    ensures BirthOfRow(r).id == r.id
  {
  }

  lemma {:induction false} NoNodeToAdd(nodes: seq<Node>, rows: seq<NodeRow>)
    requires forall r :: r in rows ==> HoldsBirth(nodes, r.id)
    ensures AddNodeRows(nodes, rows) == nodes
    decreases |rows|
  {
    hide HoldsBirth;
    if rows != [] { NoNodeToAdd(nodes, rows[1..]); }
  }

  /** `n` is the row's birth as its record states it: no primary of anything, and not stopped. */
  ghost predicate BirthFrom(n: Node, r: NodeRow) {
    && n.id == r.id && n.at == r.at && n.kind == r.kind && n.mesh == MeshOfPath(r.at.path)
    && n.incarnation == Some(r.incarnation) && n.status == r.state
    && !n.isPrimary && !n.isFabricPrimary && !n.stopped
  }

  lemma RowBirthIs(r: NodeRow)
    ensures BirthFrom(BirthOfRow(r), r)
  {
  }

  /** Completing a view's births keeps those it held, adds only births of rows it held none of, holds every row's, and
      completing it again adds nothing. */
  lemma NodeRowsCompleted(nodes: seq<Node>, rows: seq<NodeRow>)
    ensures nodes <= AddNodeRows(nodes, rows)
    ensures forall r :: r in rows ==> HoldsBirth(AddNodeRows(nodes, rows), r.id)
    ensures forall n ::
        n in AddNodeRows(nodes, rows) ==>
          n in nodes || exists r :: r in rows && BirthFrom(n, r) && forall x :: x in nodes ==> x.id != r.id
    ensures AddNodeRows(AddNodeRows(nodes, rows), rows) == AddNodeRows(nodes, rows)
  {
    hide BirthOfRow, AddNodeRows, BirthFrom;
    NodeRowsAdded(nodes, rows);
    forall r { RowBirthIs(r); }
    NoNodeToAdd(AddNodeRows(nodes, rows), rows);
  }
}
