/** Planning a fabric.delete ends, and ends with the empty plan: every mesh it leads deleted, the other meshes' final
    births deleted, and the fabric deleted. */
module FabricDrive {
  import opened Order
  import opened Model
  import opened Planner
  import opened PlanKeys
  import opened FabricDelete
  import opened Convergence
  import opened Progress

  /** The plan of a drive's pass. */
  function EndPlan(s: State): seq<Operation> { FabricDeletePlan(s.view, OpenDeletes(s.view, s.steps), s.steps) }

  ghost predicate Lists(v: View, name: string, id: MeshId) { exists m ::
      m in v.meshes && m.name == name && m.id == Some(id) }

  /** The view after `op` ran: the fabric-primary stays, and nothing appears. */
  ghost predicate EndEffect(op: Operation, v: View, v': View) {
    && v'.fabricId == v.fabricId && (OwnMesh(v).Some? ==> OwnMesh(v') == OwnMesh(v))
    && (forall n :: n in v'.nodes ==> n in v.nodes)
    && match op
       case ShutdownMesh(name, id) =>
         forall m :: m in v'.meshes ==>
           if m.name == name then m.status == ScopeDead && m.id == Some(id) && Lists(v, name, id)
               else m in v.meshes && m.id != Some(id)
       case DeleteNode(_, _, _, _) => v'.meshes == v.meshes
       case DeleteFabric(_) => v'.meshes == v.meshes
       case CreateMesh(_, _) => false
       case CreateNode(_, _, _, _, _) => false
  }

  ghost predicate EndRealized(s: State, op: Operation, s': State) {
    && s'.view.WellFormed() && MeshIdsOnce(s'.view)
    && |s.steps| <= |s'.steps| && s'.steps[..|s.steps|] == s.steps && Completes(op, s'.steps[|s.steps|..])
    && EndEffect(op, s.view, s'.view)
  }

  ghost predicate EndRan(s: State, ops: seq<Operation>, s': State)
    decreases |ops|
  {
    if ops == [] then s == s' else exists mid :: EndRealized(s, ops[0], mid) && EndRan(mid, ops[1..], s')
  }

  ghost predicate EndPass(s: State, s': State) {
    exists ops :: ops != [] && (forall op :: op in ops ==> op in EndPlan(s)) && EndRan(s, ops, s')
  }

  ghost predicate EndFit(s: State) { s.view.WellFormed() && MeshIdsOnce(s.view) }

  // ---------------------------------------------------------------------------------------------
  // What may still be owed
  // ---------------------------------------------------------------------------------------------

  ghost predicate StillLed(m: Mesh, v: View, steps: seq<Step>) { Led(m, OpenDeletes(v, steps), steps) }

  /** A birth of another mesh that has not left, whose delete this Build owes now or once its mesh is deleted. */
  ghost predicate MayGo(v: View, m: Mesh, n: Node, steps: seq<Step>) {
    && m.id.Some? && OwnerResume(steps, MeshDelete(m.id.value)) != MeshHasLeft && OwnMesh(v) != Some(m.name)
    && Final(n, m.name, steps) && PinOf(n).Some? && !Done(steps, NodeDelete(n.id))
  }

  ghost function ShutsOwed(v: View, steps: seq<Step>): set<OpKey> {
    set m | m in v.meshes && StillLed(m, v, steps) :: MeshDelete(m.id.value)
  }

  ghost function FinalsOwed(v: View, steps: seq<Step>): set<OpKey> {
    set m, n | m in v.meshes && n in v.nodes && MayGo(v, m, n, steps) :: NodeDelete(n.id)
  }

  ghost function EndOwed(v: View, steps: seq<Step>): set<OpKey> {
    ShutsOwed(v, steps) + FinalsOwed(v, steps) + if Done(steps, OpKey.FabricDelete(v.fabricId)) then {}
        else {OpKey.FabricDelete(v.fabricId)}
  }

  lemma EndPlannedIsOwed(s: State, op: Operation)
    requires op in EndPlan(s)
    ensures op.Key() in EndOwed(s.view, s.steps) && (op.ShutdownMesh? || op.DeleteNode? || op.DeleteFabric?)
  {
    hide FabricDeletePlan, Done, OwnMesh, Final, OwnerResume, OpenDeletes;
    var v, open := s.view, OpenDeletes(s.view, s.steps);
    FabricDeleteHas(v, open, s.steps, op);
    if m :| m in v.meshes && IsLed(m, open, s.steps, op) {
      assert StillLed(m, v, s.steps);
    } else if m, n :| m in v.meshes && n in v.nodes && IsFinal(v, m, n, s.steps, op) {
      assert MayGo(v, m, n, s.steps);
    }
  }

  lemma EndGrows(s: State, op: Operation, s': State, key: OpKey, step: string)
    requires EndRealized(s, op, s')
    ensures Completed(s.steps, key, step) ==> Completed(s'.steps, key, step)
    ensures key != op.Key() ==>
        (Completed(s'.steps, key, step) <==> Completed(s.steps, key, step))
          && (Began(s'.steps, key) <==> Began(s.steps, key))
    ensures if op.ShutdownMesh? then Completed(s'.steps, op.Key(), STEP_MESH_DELETED) else Done(s'.steps, op.Key())
  {
    hide View.WellFormed, MeshIdsOnce, EndEffect;
    var events := s'.steps[|s.steps|..];
    assert s'.steps == s.steps + events;
  }

  lemma ShutsShrink(s: State, op: Operation, s': State, m: Mesh)
    requires EndFit(s) && EndRealized(s, op, s') && m in s'.view.meshes && StillLed(m, s'.view, s'.steps)
    ensures m in s.view.meshes && StillLed(m, s.view, s.steps) && MeshDelete(m.id.value) != op.Key()
  {
    hide View.WellFormed, MeshIdsOnce, Completes, OwnMesh, OpenDeletes, Completed;
    var key := MeshDelete(m.id.value);
    OpenExactly(s'.view, s'.steps, m);
    EndGrows(s, op, s', key, STEP_ACCEPTED_ROSTER);
    EndGrows(s, op, s', key, STEP_MESH_DELETED);
    EndGrows(s, op, s', key, STEP_MESH_LEFT);
    assert m in s.view.meshes;
    OpenExactly(s.view, s.steps, m);
  }

  lemma FinalsShrink(s: State, op: Operation, s': State, m: Mesh, n: Node)
    requires EndFit(s) && EndRealized(s, op, s') && m in s'.view.meshes && n in s'.view.nodes
        && MayGo(s'.view, m, n, s'.steps)
    ensures n in s.view.nodes && NodeDelete(n.id) != op.Key()
    ensures exists m' :: m' in s.view.meshes && MayGo(s.view, m', n, s.steps)
  {
    hide View.WellFormed, MeshIdsOnce, Completes, OwnMesh, Completed, Done, Began;
    var key := NodeDelete(n.id);
    EndGrows(s, op, s', key, "Complete");
    assert key != op.Key() by { DoneMeans(s'.steps, key); }
    DoneMeans(s.steps, key);
    DoneMeans(s'.steps, key);
    var m' := HeldBefore(s, op, s', m, n);
    EndGrows(s, op, s', MeshDelete(m'.id.value), STEP_MESH_LEFT);
    assert MayGo(s.view, m', n, s.steps);
  }

  lemma DoneMeans(steps: seq<Step>, key: OpKey)
    ensures Done(steps, key) <==> Completed(steps, key, "Complete")
  {
  }

  /** The mesh of a birth that may go was listed under the same id before. */
  lemma HeldBefore(s: State, op: Operation, s': State, m: Mesh, n: Node) returns (m': Mesh)
    requires EndFit(s) && EndRealized(s, op, s') && m in s'.view.meshes && n in s'.view.nodes && n.mesh == m.name
        && m.id.Some?
    ensures m' in s.view.meshes && m'.name == m.name && m'.id == m.id
  {
    hide View.WellFormed, MeshIdsOnce, Completes, OwnMesh;
    if op.ShutdownMesh? && m.name == op.mesh {
      assert Lists(s.view, op.mesh, op.meshId);
      m' :| m' in s.view.meshes && m'.name == op.mesh && m'.id == Some(op.meshId);
    } else {
      m' := m;
    }
  }

  /** Realising an operation takes its key off what may be owed, and puts nothing on. */
  lemma EndOwedShrinks(s: State, op: Operation, s': State)
    requires EndFit(s) && EndRealized(s, op, s')
    ensures EndFit(s') && EndOwed(s'.view, s'.steps) <= EndOwed(s.view, s.steps)
    ensures op.Key() !in EndOwed(s'.view, s'.steps) || (op.DeleteFabric? && op.fabricId != s.view.fabricId)
  {
    hide View.WellFormed, MeshIdsOnce, Completes, OwnMesh, StillLed, MayGo, Completed, Done;
    forall m | m in s'.view.meshes && StillLed(m, s'.view, s'.steps)
      ensures m.id.Some? && m in s.view.meshes && StillLed(m, s.view, s.steps) && MeshDelete(m.id.value) != op.Key()
    {
      ShutsShrink(s, op, s', m);
      LedKnown(m, s'.view, s'.steps);
    }
    forall m, n | m in s'.view.meshes && n in s'.view.nodes && MayGo(s'.view, m, n, s'.steps)
      ensures NodeDelete(n.id) in FinalsOwed(s.view, s.steps) && NodeDelete(n.id) != op.Key()
    {
      FinalsShrink(s, op, s', m, n);
    }
    var key := OpKey.FabricDelete(s.view.fabricId);
    DoneMeans(s.steps, key);
    DoneMeans(s'.steps, key);
    EndGrows(s, op, s', key, "Complete");
  }

  lemma LedKnown(m: Mesh, v: View, steps: seq<Step>)
    requires StillLed(m, v, steps)
    ensures m.id.Some?
  {
  }

  lemma {:induction false} EndRanShrinks(s: State, ops: seq<Operation>, s': State)
    requires EndFit(s) && EndRan(s, ops, s')
    ensures EndFit(s') && EndOwed(s'.view, s'.steps) <= EndOwed(s.view, s.steps)
    ensures ops != [] ==>
        ops[0].Key() !in EndOwed(s'.view, s'.steps) || (ops[0].DeleteFabric? && ops[0].fabricId != s.view.fabricId)
    decreases |ops|
  {
    hide EndFit, EndRealized, EndOwed;
    if ops != [] {
      var mid :| EndRealized(s, ops[0], mid) && EndRan(mid, ops[1..], s');
      EndOwedShrinks(s, ops[0], mid);
      EndRanShrinks(mid, ops[1..], s');
    }
  }

  lemma PlannedFabric(s: State, op: Operation)
    requires op in EndPlan(s) && op.DeleteFabric?
    ensures op.fabricId == s.view.fabricId
  {
    hide FabricDeletePlan, Done, OwnMesh, Final, OwnerResume, OpenDeletes;
    FabricDeleteHas(s.view, OpenDeletes(s.view, s.steps), s.steps, op);
  }

  /** Every pass strictly decreases the count of what may be owed. */
  lemma EndPassDecreases(s: State, s': State)
    requires EndFit(s) && EndPass(s, s')
    ensures EndFit(s') && |EndOwed(s'.view, s'.steps)| < |EndOwed(s.view, s.steps)|
  {
    hide EndFit, EndRan, EndOwed, EndPlan;
    var ops: seq<Operation> :| ops != [] && (forall op :: op in ops ==> op in EndPlan(s)) && EndRan(s, ops, s');
    EndRanShrinks(s, ops, s');
    EndPlannedIsOwed(s, ops[0]);
    if ops[0].DeleteFabric? { PlannedFabric(s, ops[0]); }
    Smaller(EndOwed(s'.view, s'.steps), EndOwed(s.view, s.steps), ops[0].Key());
  }

  // ---------------------------------------------------------------------------------------------
  // Progress
  // ---------------------------------------------------------------------------------------------

  /** Births dropped, the fabric-primary kept: it is still the fabric-primary. */
  lemma PrimaryKept(v: View, v': View)
    requires v.WellFormed() && FabricPrimary(v).Some? && FabricPrimary(v).value in v'.nodes && NoRepeats(v'.nodes)
    requires forall n :: n in v'.nodes ==> n in v.nodes
    ensures FabricPrimary(v') == FabricPrimary(v)
  {
    hide View.WellFormed, Gather;
    var f := (n: Node) => if n.isFabricPrimary then [n] else [];
    var fp := FabricPrimary(v).value;
    var was, now := FabricPrimaries(v.nodes), FabricPrimaries(v'.nodes);
    assert was == [fp];
    forall n ensures n in was <==> n in v.nodes && n.isFabricPrimary { GatherHas(v.nodes, f, n); }
    forall n ensures n in now <==> n in v'.nodes && n.isFabricPrimary { GatherHas(v'.nodes, f, n); }
    assert fp in was;
    GatherNoRepeats(v'.nodes, f);
    forall n | n in now ensures n == fp { assert n in was; }
    JustOne(now, fp);
  }

  lemma JustOne<T>(s: seq<T>, x: T)
    requires NoRepeats(s) && x in s && forall y :: y in s ==> y == x
    ensures s == [x]
  {
    var k :| 0 <= k < |s| && s[k] == x;
    assert s[0] in s && s[|s| - 1] in s;
    assert k == 0 && k == |s| - 1;
  }

  /** The view with the mesh `name` Dead and its births gone but the fabric-primary's. */
  function MeshClosed(v: View, name: string): View {
    MeshGone(v, name).(nodes := Only(v.nodes, (n: Node) => n.mesh != name || n.isFabricPrimary))
  }

  lemma PrimaryIsOne(v: View)
    requires FabricPrimary(v).Some?
    ensures FabricPrimary(v).value in v.nodes && FabricPrimary(v).value.isFabricPrimary
  {
    var f := (n: Node) => if n.isFabricPrimary then [n] else [];
    GatherHas(v.nodes, f, FabricPrimary(v).value);
  }

  lemma CloseMesh(s: State, m: Mesh)
    requires EndFit(s) && m in s.view.meshes && m.id.Some?
    ensures
      var op := ShutdownMesh(m.name, m.id.value);
      EndRealized(s, op, Onward(s, op, MeshClosed(s.view, m.name)))
  {
    hide FirstAt, FirstOf, FirstNamed, View.WellFormed, Only, FabricPrimary;
    var v, v' := s.view, MeshClosed(s.view, m.name);
    ToldApart(v);
    Kept(v);
    OnlyOnce(v.nodes, (n: Node) => n.mesh != m.name || n.isFabricPrimary);
    EndedMeshes(v, m);
    assert v'.meshes == MeshGone(v, m.name).meshes;
    SameMeshesHeld(MeshGone(v, m.name), v');
    WellFormedFrom(v');
    if FabricPrimary(v).Some? {
      PrimaryIsOne(v);
      PrimaryKept(v, v');
    }
    assert Lists(v, m.name, m.id.value);
    EndOnward(s, ShutdownMesh(m.name, m.id.value), v');
  }

  lemma EndOnward(s: State, op: Operation, v': View)
    requires v'.WellFormed() && MeshIdsOnce(v') && EndEffect(op, s.view, v')
    ensures EndRealized(s, op, Onward(s, op, v'))
  {
    hide View.WellFormed, MeshIdsOnce, EndEffect;
    var s' := Onward(s, op, v');
    assert s'.steps[..|s.steps|] == s.steps && s'.steps[|s.steps|..] == [LastStep(op)];
    assert LastStep(op) in [LastStep(op)];
  }

  lemma DropBirth(s: State, op: Operation)
    requires EndFit(s) && op.DeleteNode? && op.birth.Some?
    requires FabricPrimary(s.view).Some? ==> FabricPrimary(s.view).value.id != op.birth.value.id
    ensures EndRealized(s, op, Onward(s, op, NodeGone(s.view, op.birth.value.id)))
  {
    hide FirstAt, FirstOf, FirstNamed, View.WellFormed, Only, FabricPrimary, View.HoldsMesh;
    var v, v' := s.view, NodeGone(s.view, op.birth.value.id);
    ToldApart(v);
    Kept(v);
    OnlyOnce(v.nodes, (n: Node) => n.id != op.birth.value.id);
    SameMeshesHeld(v, v');
    WellFormedFrom(v');
    if FabricPrimary(v).Some? {
      PrimaryIsOne(v);
      PrimaryKept(v, v');
    }
    EndOnward(s, op, v');
  }

  /** Every planned operation can be realised. */
  lemma EndOneRealized(s: State, op: Operation) returns (s': State)
    requires EndFit(s) && op in EndPlan(s)
    ensures EndRealized(s, op, s')
  {
    hide EndRealized, FabricDeletePlan, Done, Final, OwnerResume, OpenDeletes, FabricPrimary, View.WellFormed,
        MeshIdsOnce;
    var v, open := s.view, OpenDeletes(s.view, s.steps);
    FabricDeleteHas(v, open, s.steps, op);
    if m :| m in v.meshes && IsLed(m, open, s.steps, op) {
      CloseMesh(s, m);
      s' := Onward(s, op, MeshClosed(v, m.name));
    } else if m, n :| m in v.meshes && n in v.nodes && IsFinal(v, m, n, s.steps, op) {
      NotThePrimary(v, m, n, s.steps, op);
      DropBirth(s, op);
      s' := Onward(s, op, NodeGone(v, op.birth.value.id));
    } else {
      EndOnward(s, op, v);
      s' := Onward(s, op, v);
    }
  }

  lemma NotThePrimary(v: View, m: Mesh, n: Node, steps: seq<Step>, op: Operation)
    requires v.WellFormed() && n in v.nodes && IsFinal(v, m, n, steps, op)
    ensures op.DeleteNode? && op.birth.Some?
        && (FabricPrimary(v).Some? ==> FabricPrimary(v).value.id != op.birth.value.id)
  {
    hide FirstAt, FirstOf, FirstNamed, FabricPrimary, Done, OwnerResume, Began, View.WellFormed;
    if FabricPrimary(v).Some? {
      PrimaryIsOne(v);
      ToldApart(v);
    }
  }

  // ---------------------------------------------------------------------------------------------
  // Planning ends
  // ---------------------------------------------------------------------------------------------

  /** The fabric is deleted, no mesh is still to shut, and no birth of another deleted mesh is still to delete. */
  ghost predicate FabricEnded(s: State) {
    && Step(OpKey.FabricDelete(s.view.fabricId), "Complete", Complete) in s.steps
    && (forall m :: m in s.view.meshes ==> !ToShut(m, OpenDeletes(s.view, s.steps), s.steps))
    && (forall m, n :: m in s.view.meshes && n in s.view.nodes ==> !ToDelete(s.view, m, n, s.steps))
  }

  ghost predicate EndDrive(drive: seq<State>) {
    drive != [] && EndFit(drive[0]) && forall i :: 0 <= i < |drive| - 1 ==> EndPass(drive[i], drive[i + 1])
  }

  lemma EmptyIsEnded(s: State)
    ensures EndPlan(s) == [] <==> FabricEnded(s)
  {
    hide FabricDeletePlan, ToShut, ToDelete, DeleteIs, OpenDeletes;
    var v, open := s.view, OpenDeletes(s.view, s.steps);
    if EndPlan(s) != [] {
      FabricDeleteByFields(v, open, s.steps, EndPlan(s)[0]);
    } else {
      FabricDeleteByFields(v, open, s.steps, DeleteFabric(v.fabricId));
      forall m | m in v.meshes ensures !ToShut(m, open, s.steps) {
        ShutPlanned(v, open, s.steps, m);
      }
      forall m, n | m in v.meshes && n in v.nodes ensures !ToDelete(v, m, n, s.steps) {
        DeletePlanned(v, open, s.steps, m, n);
      }
    }
  }

  lemma ShutPlanned(v: View, open: set<string>, steps: seq<Step>, m: Mesh)
    requires m in v.meshes
    ensures ToShut(m, open, steps) ==> FabricDeletePlan(v, open, steps) != []
  {
    hide FabricDeletePlan, ToDelete, DeleteIs;
    if ToShut(m, open, steps) { FabricDeleteByFields(v, open, steps, ShutdownMesh(m.name, m.id.value)); }
  }

  lemma DeletePlanned(v: View, open: set<string>, steps: seq<Step>, m: Mesh, n: Node)
    requires m in v.meshes && n in v.nodes
    ensures ToDelete(v, m, n, steps) ==> FabricDeletePlan(v, open, steps) != []
  {
    hide FabricDeletePlan, ToShut, PrimaryIn;
    if ToDelete(v, m, n, steps) {
      var op := DeleteNode(n.at, n.mesh, n.kind, Some(PinnedBirth(n.kind, n.mesh, n.id, n.incarnation.value)));
      assert DeleteIs(n, op);
      FabricDeleteByFields(v, open, steps, op);
    }
  }

  lemma {:induction false} EndPassesBounded(drive: seq<State>)
    requires EndDrive(drive)
    ensures
      var last := drive[|drive| - 1];
      EndFit(last) && |drive| - 1 + |EndOwed(last.view, last.steps)| <= |EndOwed(drive[0].view, drive[0].steps)|
  {
    hide EndFit, EndPass, EndOwed;
    if |drive| > 1 {
      var before := drive[..|drive| - 1];
      forall i | 0 <= i < |before| - 1 ensures EndPass(before[i], before[i + 1]) {
        assert before[i] == drive[i] && before[i + 1] == drive[i + 1];
      }
      EndPassesBounded(before);
      EndPassDecreases(drive[|drive| - 2], drive[|drive| - 1]);
    }
  }

  lemma SomeEndPass(s: State) returns (s': State)
    requires EndFit(s) && EndPlan(s) != []
    ensures EndPass(s, s')
  {
    hide EndFit, EndPlan, EndRealized;
    var op := EndPlan(s)[0];
    s' := EndOneRealized(s, op);
    assert [op][1..] == [] && [op][0] == op && EndRan(s', [], s');
    assert [op] != [] && EndRan(s, [op], s') && forall x :: x in [op] ==> x in EndPlan(s);
  }

  lemma NothingToEnd(s: State, s': State)
    requires EndPlan(s) == []
    ensures !EndPass(s, s')
  {
    hide EndPlan, EndRan;
    forall ops | EndRan(s, ops, s') ensures ops != [] ==> exists op :: op in ops && op !in EndPlan(s) {
      if ops != [] { assert ops[0] in ops; }
    }
  }

  /** Planning a fabric.delete ends, and ends with the empty plan: a drive makes no more passes than operations may be
      owed at its start, and one that no pass can continue is one whose plan is empty and whose fabric is deleted. */
  lemma FabricPlanningEnds(drive: seq<State>)
    requires EndDrive(drive)
    ensures
      var last := drive[|drive| - 1];
      && EndFit(last) && |drive| - 1 <= |EndOwed(drive[0].view, drive[0].steps)|
      && ((forall s' :: !EndPass(last, s')) <==> EndPlan(last) == [])
      && ((forall s' :: !EndPass(last, s')) <==> FabricEnded(last))
  {
    hide EndFit, EndPass, EndOwed, EndPlan, FabricEnded;
    EndPassesBounded(drive);
    var last := drive[|drive| - 1];
    EmptyIsEnded(last);
    if EndPlan(last) != [] {
      var s' := SomeEndPass(last);
    } else {
      forall s' ensures !EndPass(last, s') { NothingToEnd(last, s'); }
    }
  }

  /** From every fit state some drive gets there. */
  lemma {:induction false} SomeFabricDriveEnds(s: State) returns (drive: seq<State>)
    requires EndFit(s)
    ensures EndDrive(drive) && drive[0] == s && FabricEnded(drive[|drive| - 1])
    decreases |EndOwed(s.view, s.steps)|
  {
    hide EndFit, EndPass, EndOwed, EndPlan, FabricEnded;
    EmptyIsEnded(s);
    if EndPlan(s) == [] {
      drive := [s];
    } else {
      var s' := SomeEndPass(s);
      EndPassDecreases(s, s');
      var rest := SomeFabricDriveEnds(s');
      drive := [s] + rest;
      forall i | 0 <= i < |drive| - 1 ensures EndPass(drive[i], drive[i + 1]) {
        if i > 0 { assert drive[i] == rest[i - 1] && drive[i + 1] == rest[i]; }
      }
    }
  }
}
