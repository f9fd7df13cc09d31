/** A Delete touches only what it names, over every plan of it: which births it deletes, which meshes it shuts down and
    which it makes again, whatever the view, the history and the pass. */
module DeleteScope {
  import opened Order
  import opened Model
  import opened Changes
  import opened Records
  import opened Creation
  import opened Deletion
  import opened Compile
  import opened Continuity
  import opened Planner
  import opened PlanShape
  import opened BuildScope
  import Acceptance
  import FabricDelete

  /** A mesh the Delete leaves: held at acceptance, not named, and not a Dead mesh whose every birth it names. */
  ghost predicate Leaves(change: Change, v: View, m: string)
    requires change.Delete?
  {
    Acceptance.Left(v, change.meshes, change.ids, m)
  }

  /** The Delete's topology holds exactly the meshes it leaves, and none of the locations it names. */
  lemma DeleteMeshes(accepted: Topology, change: Change, v: View, replaced: seq<PathName>, mints: Mints, t: Topology)
    requires AcceptedAs(accepted, change, v, replaced, mints, t) && change.Delete?
    ensures t.created == [] && Filed(t)
    ensures forall m :: m in t.meshes <==> Leaves(change, v, m)
    ensures forall m, p :: m in t.meshes && p in t.meshes[m].nodes ==> p !in Gone(v, change.ids)
  {
    hide View.WellFormed, CompileReplacing, DeleteAdmitted, Gone, HeldMesh, HeldNames, View.DeadMesh, MeshWellFormed,
        Acceptance.Left, Pins;
    DeleteStages(accepted, change, v, Among(replaced), mints);
    AcceptedWellFormed(accepted, change, v, Among(replaced), mints);
    forall m ensures m in t.meshes <==> Leaves(change, v, m) {
      Acceptance.LeftExactly(v, accepted, mints.mesh, change.meshes, change.ids, m);
    }
  }

  lemma NotContained(t: Topology, gone: set<PathName>, p: PathName)
    requires Filed(t) && p in gone && forall m, q :: m in t.meshes && q in t.meshes[m].nodes ==> q !in gone
    ensures !t.Contains(p)
  {
    hide Topology.SpecAt;
    ContainsFiled(t, p);
  }

  // ---------------------------------------------------------------------------------------------
  // What a plan of a Delete holds
  // ---------------------------------------------------------------------------------------------

  /** The view holds at `p` a birth for the delete of `b` to take: `b` itself, or a live or stopped one of a mesh left.
      */
  ghost predicate HoldsSurplus(change: Change, v: View, v': View, created: set<PathName>, p: PathName, b: PinnedBirth)
    requires change.Delete?
  {
    exists n ::
        n in v'.nodes && n.at == p && p !in created
          && (b.Is(n) || ((n.status.Live() || n.stopped) && Leaves(change, v, n.mesh)))
  }

  /** The unfinished delete of a birth the change names, as pinned at acceptance, whose path still holds surplus. */
  ghost predicate DeletesNamed(change: Change, v: View, v': View, steps: seq<Step>, created: set<PathName>,
      op: Operation)
    requires change.Delete?
  {
    exists id :: id in change.ids && BirthOf(v, id).Some? && PinOf(BirthOf(v, id).value).Some?
      && op == DeleteOf(BirthOf(v, id).value.at, PinOf(BirthOf(v, id).value).value) && !Done(steps, op.Key())
      && HoldsSurplus(change, v, v', created, BirthOf(v, id).value.at, PinOf(BirthOf(v, id).value).value)
  }

  /** The shutdown of a mesh the view lists with a known id, not Dead or its delete open, and the Delete does not leave:
      named, emptied, or not held at acceptance. */
  ghost predicate ShutsDown(change: Change, v: View, v': View, open: set<string>, op: Operation)
    requires change.Delete?
  {
    exists m :: m in v'.meshes && m.id.Some? && op == ShutdownMesh(m.name, m.id.value)
      && (m.status != ScopeDead || m.name in open) && !Leaves(change, v, m.name)
  }

  /** The create, under its held id, of a mesh the Delete leaves and the view does not list. */
  ghost predicate MakesAgain(accepted: Topology, change: Change, v: View, mints: Mints, v': View, op: Operation)
    requires change.Delete?
  {
    op.CreateMesh? && Leaves(change, v, op.mesh) && !v'.HoldsMesh(op.mesh)
        && op.meshId == HeldId(v, accepted, op.mesh, mints.mesh)
  }

  lemma PinnedOnlyHere(accepted: Topology, change: Change, v: View, replaced: seq<PathName>, mints: Mints,
      t: Topology, p: PathName, b: PinnedBirth)
    requires AcceptedAs(accepted, change, v, replaced, mints, t) && (p, b) in t.pinned
    ensures t.PinAt(p) == Some(b)
    ensures forall n: Node :: n.at == p ==> (PinnedHere(t, n) <==> b.Is(n))
  {
    hide CompileReplacing, Filed, PinnedBirth.Is, BuildScope.Deleting, Pins, View.WellFormed;
    var e := (p, b);
    assert e in t.pinned;
    var c := (p, t.PinAt(p).value);
    PinnedApart(v, BuildScope.Deleting(v, change, replaced), e, c);
    forall n: Node | n.at == p && PinnedHere(t, n) ensures b.Is(n) {
      var x :| x in t.pinned && x.0 == n.at && x.1.Is(n);
      PinnedApart(v, BuildScope.Deleting(v, change, replaced), e, x);
    }
  }

  /** The birth a pin names is one of the change's. */
  lemma PinnedIsNamed(accepted: Topology, change: Change, v: View, replaced: seq<PathName>, mints: Mints, t: Topology,
      p: PathName, b: PinnedBirth)
    returns (id: NodeId)
    requires AcceptedAs(accepted, change, v, replaced, mints, t) && change.Delete? && (p, b) in t.pinned
    ensures id in change.ids && BirthOf(v, id).Some? && BirthOf(v, id).value.at == p
        && PinOf(BirthOf(v, id).value) == Some(b)
    ensures p in Gone(v, change.ids)
  {
    hide CompileReplacing, Filed, View.WellFormed, PinOf, FirstAt, FirstOf;
    PinnedAtAcceptance(accepted, change, v, replaced, mints, t, p, b);
    id :| id in change.ids && BirthOf(v, id).Some? && BirthOf(v, id).value.at == p;
    assert BirthOf(v, id) == v.At(p);
  }

  lemma NamedIsPinned(accepted: Topology, change: Change, v: View, replaced: seq<PathName>, mints: Mints, t: Topology,
      id: NodeId)
    requires AcceptedAs(accepted, change, v, replaced, mints, t) && change.Delete? && id in change.ids
    requires BirthOf(v, id).Some? && PinOf(BirthOf(v, id).value).Some?
    ensures (BirthOf(v, id).value.at, PinOf(BirthOf(v, id).value).value) in t.pinned
        && BirthOf(v, id).value.at in Gone(v, change.ids)
  {
    hide CompileReplacing, Filed, View.WellFormed, PinOf, FirstAt, FirstOf;
    var n := BirthOf(v, id).value;
    assert n.at in Gone(v, change.ids) && n.at in BuildScope.Deleting(v, change, replaced);
    assert v.At(n.at) == Some(n);
  }

  /** The plan's deletes, over every view. */
  lemma DeletesExactly(
    accepted: Topology, change: Change, v: View, replaced: seq<PathName>, mints: Mints, t: Topology,
    v': View, steps: seq<Step>, created: set<PathName>, op: Operation)
    requires AcceptedAs(accepted, change, v, replaced, mints, t) && change.Delete?
    ensures IsExtraDelete(t, v', steps, created, op) <==> DeletesNamed(change, v, v', steps, created, op)
  {
    hide AcceptedAs, Done, Topology.SpecAt, PinOf, Gone, Leaves, PinnedHere, PinnedBirth.Is, Lookup, BirthOf;
    DeleteMeshes(accepted, change, v, replaced, mints, t);
    if IsExtraDelete(t, v', steps, created, op) {
      var n :| n in v'.nodes && Extra(t, n, created) && op in DeleteAt(t, steps)(n.at);
      var b := t.PinAt(n.at).value;
      assert (n.at, b) in t.pinned;
      PinnedOnlyHere(accepted, change, v, replaced, mints, t, n.at, b);
      var id := PinnedIsNamed(accepted, change, v, replaced, mints, t, n.at, b);
      assert HoldsSurplus(change, v, v', created, n.at, b);
    }
    if DeletesNamed(change, v, v', steps, created, op) {
      var id :| id in change.ids && BirthOf(v, id).Some? && PinOf(BirthOf(v, id).value).Some?
        && op == DeleteOf(BirthOf(v, id).value.at, PinOf(BirthOf(v, id).value).value) && !Done(steps, op.Key())
        && HoldsSurplus(change, v, v', created, BirthOf(v, id).value.at, PinOf(BirthOf(v, id).value).value);
      var p, b := BirthOf(v, id).value.at, PinOf(BirthOf(v, id).value).value;
      NamedIsPinned(accepted, change, v, replaced, mints, t, id);
      PinnedOnlyHere(accepted, change, v, replaced, mints, t, p, b);
      NotContained(t, Gone(v, change.ids), p);
      var n :|
          n in v'.nodes && n.at == p && p !in created
            && (b.Is(n) || ((n.status.Live() || n.stopped) && Leaves(change, v, n.mesh)));
      assert Extra(t, n, created) && op in DeleteAt(t, steps)(n.at);
    }
  }

  /** The plan's shutdowns, over every view. */
  lemma ShutdownsExactly(
    accepted: Topology, change: Change, v: View, replaced: seq<PathName>, mints: Mints, t: Topology,
    v': View, open: set<string>, op: Operation)
    requires AcceptedAs(accepted, change, v, replaced, mints, t) && change.Delete? && v'.WellFormed()
    ensures IsShutdown(t, v', open, op) <==> ShutsDown(change, v, v', open, op)
  {
    hide AcceptedAs, Gone, Leaves, FirstAt, FirstOf, FirstNamed;
    DeleteMeshes(accepted, change, v, replaced, mints, t);
    forall m | m in v'.meshes ensures v'.MeshNamed(m.name) == Some(m) { }
  }

  /** The plan's mesh creates, over every view. */
  lemma MeshCreatesExactly(
    accepted: Topology, change: Change, v: View, replaced: seq<PathName>, mints: Mints, t: Topology, v': View,
        op: Operation)
    requires AcceptedAs(accepted, change, v, replaced, mints, t) && change.Delete?
    ensures IsMeshCreate(t, v', op) <==> MakesAgain(accepted, change, v, mints, v', op)
  {
    hide AcceptedAs, Gone, HeldId, View.HoldsMesh, HeldNames, View.DeadMesh;
    DeleteMeshes(accepted, change, v, replaced, mints, t);
    if op.CreateMesh? && op.mesh in t.meshes { MeshIdOf(accepted, change, v, replaced, mints, t, op.mesh); }
  }

  lemma NoCreates(t: Topology, v': View, held: set<string>, steps: seq<Step>, op: Operation)
    requires t.WellFormed() && t.created == []
    ensures !IsReplacement(t, steps, op) && !IsOrdinaryCreate(t, v', held, steps, op)
  {
    hide Topology.WellFormed, Done, Topology.SpecAt, Satisfied, CreateOpen;
    forall name | name in t.meshes ensures ReplacementStep(t, name, steps).None? { NoStep(t, name, t.pinned, steps); }
  }

  lemma {:induction false} NoStep(t: Topology, name: string, pins: seq<(PathName, PinnedBirth)>, steps: seq<Step>)
    requires name in t.meshes && t.created == []
    ensures StepFrom(t, name, pins, steps).None?
  {
    if pins != [] { NoStep(t, name, pins[1..], steps); }
  }

  /** Over every view, history and pass, a Delete plans exactly: the unfinished deletes of the births it names, as
      pinned at acceptance, whose paths still hold surplus; the shutdowns of the listed meshes it does not leave; and
      the creates of the meshes it leaves that the view does not list. */
  lemma DeleteTouchesExactlyItsOwn(
    accepted: Topology, change: Change, v: View, replaced: seq<PathName>, mints: Mints, t: Topology,
    v': View, open: set<string>, held: set<string>, steps: seq<Step>, created: set<PathName>, op: Operation)
    requires AcceptedAs(accepted, change, v, replaced, mints, t) && change.Delete? && t.WellFormed() && v'.WellFormed()
    ensures op in BuildPlan(t, v', open, held, steps, created) <==>
            || DeletesNamed(change, v, v', steps, created, op)
            || ShutsDown(change, v, v', open, op)
            || MakesAgain(accepted, change, v, mints, v', op)
  {
    hide BuildPlan, AcceptedAs, Topology.WellFormed, View.WellFormed, IsReplacement, IsOrdinaryCreate, IsExtraDelete,
        IsShutdown, IsMeshCreate;
    hide DeletesNamed, ShutsDown, MakesAgain, Gone, Leaves;
    DeleteMeshes(accepted, change, v, replaced, mints, t);
    PlanHas(t, v', open, held, steps, created, op);
    NoCreates(t, v', held, steps, op);
    DeletesExactly(accepted, change, v, replaced, mints, t, v', steps, created, op);
    ShutdownsExactly(accepted, change, v, replaced, mints, t, v', open, op);
    MeshCreatesExactly(accepted, change, v, replaced, mints, t, v', op);
  }

  // ---------------------------------------------------------------------------------------------
  // Over the view it was accepted on
  // ---------------------------------------------------------------------------------------------

  /** The unfinished delete of a birth the change names. */
  ghost predicate NamedDelete(change: Change, v: View, steps: seq<Step>, op: Operation)
    requires change.Delete?
  {
    exists id :: id in change.ids && BirthOf(v, id).Some? && PinOf(BirthOf(v, id).value).Some?
      && op == DeleteOf(BirthOf(v, id).value.at, PinOf(BirthOf(v, id).value).value) && !Done(steps, op.Key())
  }

  /** The shutdown of a mesh the change names that is not Dead and whose id is known. */
  ghost predicate NamedShutdown(change: Change, v: View, op: Operation)
    requires change.Delete?
  {
    exists m ::
        m in v.meshes && m.name in change.meshes && m.status != ScopeDead && m.id.Some?
          && op == ShutdownMesh(m.name, m.id.value)
  }

  /** Over the view it was accepted on, whatever deletes have completed, a Delete plans exactly the unfinished deletes
      of the births it names and the shutdowns of the meshes it names that are not Dead and whose id is known. */
  lemma DeleteAtAcceptance(
    accepted: Topology, change: Change, v: View, replaced: seq<PathName>, mints: Mints, t: Topology,
    held: set<string>, steps: seq<Step>, op: Operation)
    requires AcceptedAs(accepted, change, v, replaced, mints, t) && change.Delete? && t.WellFormed()
        && NoMeshDelete(steps)
    ensures op in BuildPlan(t, v, OpenDeletes(v, steps), held, steps, {}) <==>
        NamedDelete(change, v, steps, op) || NamedShutdown(change, v, op)
  {
    hide BuildPlan, Topology.WellFormed, View.WellFormed, CompileReplacing, Filed, Pins, Leaves, Done, PinOf,
        OpenDeletes, BirthOf;
    NothingOpen(v, steps);
    DeleteTouchesExactlyItsOwn(accepted, change, v, replaced, mints, t, v, {}, held, steps, {}, op);
    forall id | id in change.ids && BirthOf(v, id).Some? && PinOf(BirthOf(v, id).value).Some?
      ensures HoldsSurplus(change, v, v, {}, BirthOf(v, id).value.at, PinOf(BirthOf(v, id).value).value)
    {
      assert BirthOf(v, id).value in v.nodes && PinOf(BirthOf(v, id).value).value.Is(BirthOf(v, id).value);
    }
    HeldOrDead(change, v);
  }

  lemma HeldOrDead(change: Change, v: View)
    requires change.Delete? && v.WellFormed()
    ensures forall m ::
        m in v.meshes && m.status != ScopeDead ==> (Leaves(change, v, m.name) <==> m.name !in change.meshes)
    ensures forall m :: Leaves(change, v, m) ==> v.HoldsMesh(m)
  {
    hide Gone, FirstAt, FirstOf, FirstNamed;
    HeldNamesAre(v);
    forall m | m in v.meshes && m.status != ScopeDead ensures m.name in HeldNames(v) && !v.DeadMesh(m.name) {
      assert v.MeshNamed(m.name) == Some(m);
    }
  }

  // ---------------------------------------------------------------------------------------------
  // The births surplus to a Delete
  // ---------------------------------------------------------------------------------------------

  lemma KeptNode(accepted: Topology, change: Change, v: View, replaced: seq<PathName>, mints: Mints, t: Topology,
      n: Node)
    requires AcceptedAs(accepted, change, v, replaced, mints, t) && change.Delete?
    requires n in v.nodes && n.mesh in t.meshes && n.at !in Gone(v, change.ids)
    ensures n.at in t.meshes[n.mesh].nodes && v.At(n.at) == Some(n)
  {
    hide CompileReplacing, DeleteAdmitted, Gone, OfRecords, HeldNames, View.DeadMesh, MeshWellFormed, Filed, FirstAt;
    DeleteStages(accepted, change, v, Among(replaced), mints);
    HeldSpec(v, accepted, mints.mesh, n.at);
  }

  lemma SameBirth(accepted: Topology, change: Change, v: View, replaced: seq<PathName>, mints: Mints, t: Topology,
      n: Node)
    requires AcceptedAs(accepted, change, v, replaced, mints, t) && n in v.nodes
    ensures v.At(n.at) == Some(n)
  {
  }

  /** A birth the Delete names, live or stopped in a mesh it leaves. */
  ghost predicate NamedKept(change: Change, v: View, n: Node)
    requires change.Delete?
  {
    (exists id :: id in change.ids && BirthOf(v, id) == Some(n)) && (n.status.Live() || n.stopped)
        && Leaves(change, v, n.mesh)
  }

  /** Before anything is pinned, the births surplus to a Delete's topology are exactly the named ones the view holds
      live or stopped in kept meshes. */
  lemma SurplusExactly(accepted: Topology, change: Change, v: View, replaced: seq<PathName>, mints: Mints,
      t: Topology, n: Node)
    requires AcceptedAs(accepted, change, v, replaced, mints, t) && change.Delete? && n in v.nodes
    ensures Surplus(t.(pinned := []), n) <==> NamedKept(change, v, n)
  {
    hide CompileReplacing, FirstOf, FirstAt, Pins, HeldNames, AcceptedAs, View.WellFormed, Leaves;
    var bare := t.(pinned := []);
    DeleteMeshes(accepted, change, v, replaced, mints, t);
    if n.mesh in t.meshes {
      if n.at in Gone(v, change.ids) {
        NotContained(bare, Gone(v, change.ids), n.at);
        var id :| id in change.ids && BirthOf(v, id).Some? && BirthOf(v, id).value.at == n.at;
        assert BirthOf(v, id) == v.At(n.at);
        SameBirth(accepted, change, v, replaced, mints, t, n);
      } else {
        KeptNode(accepted, change, v, replaced, mints, t, n);
        SpecAtFiled(bare, n.mesh, n.at);
      }
    }
  }

  /** Exactly the surplus births are pinned. */
  ghost predicate SurplusPinned(bare: Topology, v: View, pinned: seq<(PathName, PinnedBirth)>) {
    forall e :: e in pinned <==> exists n :: n in v.nodes && Surplus(bare, n) && n.at == e.0 && PinOf(n) == Some(e.1)
  }

  lemma SameShape(t: Topology, t': Topology)
    requires t.WellFormed() && t'.meshes == t.meshes
    ensures t'.WellFormed()
  {
  }

  /** A surplus pin is the only one at its path. */
  lemma SurplusPinOnly(
    accepted: Topology, change: Change, v: View, replaced: seq<PathName>, mints: Mints, t: Topology,
        pinned: seq<(PathName, PinnedBirth)>,
    p: PathName, b: PinnedBirth)
    requires AcceptedAs(accepted, change, v, replaced, mints, t) && SurplusPinned(t.(pinned := []), v, pinned)
        && (p, b) in pinned
    ensures v.At(p).Some? && Surplus(t.(pinned := []), v.At(p).value) && PinOf(v.At(p).value) == Some(b)
    ensures t.(pinned := pinned).PinAt(p) == Some(b)
    ensures forall n: Node :: n.at == p ==> (PinnedHere(t.(pinned := pinned), n) <==> b.Is(n))
  {
    hide AcceptedAs, Surplus, PinOf, PinnedBirth.Is, View.At;
    var e := (p, b);
    assert e in pinned;
    forall c | c in pinned && c.0 == p ensures v.At(p).Some? && Surplus(t.(pinned := []), v.At(p).value)
        && PinOf(v.At(p).value) == Some(c.1) {
      var n :| n in v.nodes && Surplus(t.(pinned := []), n) && n.at == c.0 && PinOf(n) == Some(c.1);
      SameBirth(accepted, change, v, replaced, mints, t, n);
    }
  }

  /** With exactly its surplus births pinned, a Delete plans, over every view, history and pass, the unfinished deletes
      of exactly the named births held live or stopped in kept meshes at acceptance whose paths still hold surplus. */
  lemma SurplusPinnedDeletes(
    accepted: Topology, change: Change, v: View, replaced: seq<PathName>, mints: Mints, t: Topology,
        pinned: seq<(PathName, PinnedBirth)>,
    v': View, open: set<string>, held: set<string>, steps: seq<Step>, created: set<PathName>, op: Operation)
    requires AcceptedAs(accepted, change, v, replaced, mints, t) && change.Delete? && t.WellFormed()
    requires SurplusPinned(t.(pinned := []), v, pinned) && op.DeleteNode?
    ensures op in BuildPlan(t.(pinned := pinned), v', open, held, steps, created) <==>
            exists n ::
              && n in v.nodes && NamedKept(change, v, n) && PinOf(n).Some? && op == DeleteOf(n.at, PinOf(n).value)
              && !Done(steps, op.Key()) && HoldsSurplus(change, v, v', created, n.at, PinOf(n).value)
  {
    hide BuildPlan, AcceptedAs, Topology.WellFormed, Done, IsOrdinaryCreate, IsReplacement, View.At, Gone, NamedKept,
        PinOf, Leaves;
    var t' := t.(pinned := pinned);
    DeleteMeshes(accepted, change, v, replaced, mints, t);
    assert t'.WellFormed() by { SameShape(t, t'); }
    PlanHas(t', v', open, held, steps, created, op);
    NoCreates(t', v', held, steps, op);
    SurplusDeletes(accepted, change, v, replaced, mints, t, pinned, v', steps, created, op);
  }

  lemma SurplusDeletes(
    accepted: Topology, change: Change, v: View, replaced: seq<PathName>, mints: Mints, t: Topology,
        pinned: seq<(PathName, PinnedBirth)>,
    v': View, steps: seq<Step>, created: set<PathName>, op: Operation)
    requires AcceptedAs(accepted, change, v, replaced, mints, t) && change.Delete?
        && SurplusPinned(t.(pinned := []), v, pinned)
    ensures IsExtraDelete(t.(pinned := pinned), v', steps, created, op) <==>
            exists n ::
              && n in v.nodes && NamedKept(change, v, n) && PinOf(n).Some? && op == DeleteOf(n.at, PinOf(n).value)
              && !Done(steps, op.Key()) && HoldsSurplus(change, v, v', created, n.at, PinOf(n).value)
  {
    hide AcceptedAs, Done, FirstSpec, Names, PinOf, Gone, Leaves, PinnedHere, PinnedBirth.Is, Lookup, BirthOf,
        NamedKept, View.At;
    var bare, t' := t.(pinned := []), t.(pinned := pinned);
    DeleteMeshes(accepted, change, v, replaced, mints, t);
    if IsExtraDelete(t', v', steps, created, op) {
      var n :| n in v'.nodes && Extra(t', n, created) && op in DeleteAt(t', steps)(n.at);
      var b := t'.PinAt(n.at).value;
      assert (n.at, b) in pinned;
      SurplusPinOnly(accepted, change, v, replaced, mints, t, pinned, n.at, b);
      var n0 := v.At(n.at).value;
      BirthThere(v, n.at);
      SurplusExactly(accepted, change, v, replaced, mints, t, n0);
      assert HoldsSurplus(change, v, v', created, n.at, b);
    }
    if n0 :| n0 in v.nodes && NamedKept(change, v, n0) && PinOf(n0).Some? && op == DeleteOf(n0.at, PinOf(n0).value)
             && !Done(steps, op.Key()) && HoldsSurplus(change, v, v', created, n0.at, PinOf(n0).value) {
      var p, b := n0.at, PinOf(n0).value;
      SurplusExactly(accepted, change, v, replaced, mints, t, n0);
      assert (p, b) in pinned;
      SurplusPinOnly(accepted, change, v, replaced, mints, t, pinned, p, b);
      var n :|
          n in v'.nodes && n.at == p && p !in created
            && (b.Is(n) || ((n.status.Live() || n.stopped) && Leaves(change, v, n.mesh)));
      assert t'.Contains(p) == bare.Contains(p);
      assert Extra(t', n, created) && op in DeleteAt(t', steps)(n.at);
    }
  }

  lemma BirthThere(v: View, p: PathName)
    requires v.At(p).Some?
    ensures v.At(p).value in v.nodes && v.At(p).value.at == p
  {
  }

  // ---------------------------------------------------------------------------------------------
  // A Delete that is planned as a fabric.delete
  // ---------------------------------------------------------------------------------------------

  /** A Delete's topology is the one a fabric.delete is told by, no mesh and no pin, exactly when it names no birth and
      leaves no mesh: then, and only then, its plan ends the fabric. */
  lemma DeleteEndsTheFabricExactly(
    accepted: Topology, change: Change, v: View, replaced: seq<PathName>, mints: Mints, t: Topology,
    v': View, open: set<string>, held: set<string>, steps: seq<Step>, created: set<PathName>)
    requires AcceptedAs(accepted, change, v, replaced, mints, t) && change.Delete? && t.WellFormed() && v'.WellFormed()
    ensures
      var ends := change.ids == [] && forall m :: !Leaves(change, v, m);
      var plan := FabricDelete.PlanWith(t, v', open, held, steps, created);
      && (ends ==> plan == FabricDelete.FabricDeletePlan(v', open, steps))
      && (!ends ==> plan == BuildPlan(t, v', open, held, steps, created))
      && (DeleteFabric(v'.fabricId) in plan <==> ends && !Done(steps, OpKey.FabricDelete(v'.fabricId)))
  {
    hide BuildPlan, Topology.WellFormed, View.WellFormed, Leaves, Done, FabricDelete.FabricDeletePlan,
        CompileReplacing, Filed, HoldsSurplus;
    hide FabricDelete.IsLed, FabricDelete.IsFinal;
    DeleteMeshes(accepted, change, v, replaced, mints, t);
    NothingPinned(accepted, change, v, replaced, mints, t);
    assert (forall m :: !Leaves(change, v, m)) <==> t.meshes == map[];
    var op := DeleteFabric(v'.fabricId);
    FabricDelete.FabricDeleteHas(v', open, steps, op);
    FabricNotLed(v', open, steps);
    DeleteTouchesExactlyItsOwn(accepted, change, v, replaced, mints, t, v', open, held, steps, created, op);
  }

  lemma FabricNotLed(v: View, open: set<string>, steps: seq<Step>)
    ensures forall m :: !FabricDelete.IsLed(m, open, steps, DeleteFabric(v.fabricId))
    ensures forall m, n :: !FabricDelete.IsFinal(v, m, n, steps, DeleteFabric(v.fabricId))
  {
  }

  lemma NothingPinned(accepted: Topology, change: Change, v: View, replaced: seq<PathName>, mints: Mints, t: Topology)
    requires AcceptedAs(accepted, change, v, replaced, mints, t) && change.Delete?
    ensures t.pinned == [] <==> change.ids == []
  {
    hide CompileReplacing, Filed, View.WellFormed, PinOf, FirstAt, FirstOf, OfRecords, Without, AdminKept;
    if change.ids != [] {
      DeleteStages(accepted, change, v, Among(replaced), mints);
      var id := change.ids[0];
      assert id in change.ids && Nameable(OfRecords(v, accepted, mints.mesh), {}, id, v);
      var n := BirthOf(v, id).value;
      assert n.at in Gone(v, change.ids) && n.at in BuildScope.Deleting(v, change, replaced) && v.At(n.at) == Some(n);
    }
  }
}
