/** Small accepted Builds whose later plans reach past what their changes name. */
module ScopeExamples {
  import opened Model
  import opened Changes
  import opened Records
  import opened Creation
  import opened Deletion
  import opened Compile
  import opened Continuity
  import opened Planner
  import opened BuildScope
  import Acceptance
  import DeleteScope
  import FabricDelete

  const Empty := Topology("fabric", map[], None, [], [])
  const Plain := Mints((m: string) => "m-" + m, (p: PathName) => "n-" + p.path + p.name)
  const AdminPath := PathName("a", "x")
  const BrokerPath := PathName("a", "y")
  const Admin := Node(AdminPath, NODE_ADMIN, "a", "n1", Some("i1"), Ready, true, true, false)
  const Broker := Node(BrokerPath, "broker", "a", "n2", Some("i2"), Ready, false, false, false)
  const Request := NodeRequest(AdminPath, "a", NODE_ADMIN, None, Some(Binding("l", "e", "s", None)), {}, map[])

  /** A view of the mesh `a`, and of another made after the Build was accepted. */
  function Seen(nodes: seq<Node>, status: ScopeStatus): View {
    View("f", "fabric", [Mesh(Some("1"), "a", status)], nodes)
  }

  const Later := View("f", "fabric", [Mesh(Some("1"), "a", ScopeReady), Mesh(Some("2"), "b", ScopeReady)], [Admin])

  lemma Names1()
    ensures ValidMeshName("a") && ValidPathName(AdminPath)
  {
    assert Segments(""[0..]) == [""] && "a"[1..] == "" && ['a'] + "" == "a";
    assert Segments("a") == ["a"];
  }

  lemma LaterSound()
    ensures Later.WellFormed() && !Later.DeadMesh("a") && !Later.DeadMesh("b")
  {
    var b := Later.meshes[1..];
    assert Later.meshes[1..][0] == Mesh(Some("2"), "b", ScopeReady);
    assert FirstNamed(Later.meshes, "b") == FirstNamed(Later.meshes[1..], "b");
    assert Later.HoldsMesh("a") by { assert Later.meshes[0] in Later.meshes; }
  }

  // ---------------------------------------------------------------------------------------------
  // A Create
  // ---------------------------------------------------------------------------------------------

  const Unborn := View("f", "fabric", [], [])

  /** A change that compiles, its births pinned, is accepted. */
  lemma Accepts(accepted: Topology, change: Change, v: View, replaced: seq<PathName>, mints: Mints)
      returns (t: Topology)
    requires v.WellFormed() && Filed(accepted) && !change.RemoveFabric?
        && Pins(v, BuildScope.Deleting(v, change, replaced)).Some?
    requires CompileReplacing(accepted, change, v, Among(replaced), mints).Ok?
    ensures AcceptedAs(accepted, change, v, replaced, mints, t) && t.WellFormed()
  {
    hide CompileReplacing, MeshWellFormed, View.WellFormed, Filed, Pins, OfRecords;
    var compiled := CompileReplacing(accepted, change, v, Among(replaced), mints).value;
    if change.Create? { CreateStages(accepted, change, v, Among(replaced), mints); }
        else { DeleteStages(accepted, change, v, Among(replaced), mints); }
    t := compiled.(pinned := Pins(v, BuildScope.Deleting(v, change, replaced)).value);
    assert t.(pinned := []) == compiled;
  }

  lemma FirstCreateAdmitted()
    ensures Unborn.WellFormed() && Filed(Empty) && HeldNames(Unborn) == {}
    ensures CreateAdmitted(OfRecords(Unborn, Empty, Plain.mesh), ["a"], [Request], Unborn, {})
        && Acceptance.CreateFits(Unborn, [Request])
  {
    hide ValidMeshName, ValidPathName;
    Names1();
    assert HeldNames(Unborn) == {} && OfRecords(Unborn, Empty, Plain.mesh).meshes == map[];
    assert Request in [Request] && AdminListed("a", [Request]);
  }

  lemma FirstCreateAccepted() returns (t: Topology)
    ensures AcceptedAs(Empty, Create(["a"], [Request]), Unborn, [], Plain, t) && t.WellFormed()
  {
    hide CompileReplacing, Topology.WellFormed, View.WellFormed, Filed, CreateAdmitted, Acceptance.CreateFits,
        OfRecords, AcceptedAs;
    FirstCreateAdmitted();
    Acceptance.CreateAcceptedExactly(Empty, ["a"], [Request], Unborn, {}, Plain);
    assert Among([]) == {};
    t := Accepts(Empty, Create(["a"], [Request]), Unborn, [], Plain);
  }

  /** A Create of the mesh `a` shuts down the mesh `b`, made by another Build after it was accepted. */
  lemma CreateShutsALaterMesh()
    ensures exists t :: AcceptedAs(Empty, Create(["a"], [Request]), Unborn, [], Plain, t) && t.WellFormed()
                        && ShutdownMesh("b", "2") in BuildPlan(t, Later, OpenDeletes(Later, []), {}, [], {})
  {
    hide AcceptedAs, Topology.WellFormed, BuildPlan, View.WellFormed;
    var t := FirstCreateAccepted();
    LaterSound();
    assert HeldNames(Unborn) == {};
    var m := Mesh(Some("2"), "b", ScopeReady);
    assert m == Later.meshes[1] && m in Later.meshes;
    CreateShutsExactly(Empty, Create(["a"], [Request]), Unborn, [], Plain, t, Later, OpenDeletes(Later, []), {}, [],
        {}, m);
  }

  // ---------------------------------------------------------------------------------------------
  // A Delete
  // ---------------------------------------------------------------------------------------------

  const Both := Seen([Admin, Broker], ScopeReady)

  lemma BothSound()
    ensures Both.WellFormed() && Filed(Empty) && Both.At(AdminPath) == Some(Admin)
        && Both.At(BrokerPath) == Some(Broker)
    ensures BirthOf(Both, "n2") == Some(Broker) && HeldNames(Both) == {"a"} && !Both.DeadMesh("a")
        && Gone(Both, ["n2"]) == {BrokerPath}
  {
    var rest := Both.nodes[1..];
    assert rest == [Broker];
    assert FirstAt(Both.nodes, BrokerPath) == FirstAt(rest, BrokerPath) == Some(Broker);
    assert FirstOf(Both.nodes, "n2") == FirstOf(rest, "n2") == Some(Broker);
    assert Both.meshes[0] in Both.meshes && Both.HoldsMesh("a");
    assert Admin == Both.nodes[0] && Broker == Both.nodes[1];
  }

  /** What the records compose of the mesh `a`. */
  lemma BothHeld()
    ensures
      var next := OfRecords(Both, Empty, Plain.mesh);
      && Filed(next) && next.meshes.Keys == {"a"} && AdminPath in next.meshes["a"].Admins()
      && next.Contains(BrokerPath) && next.meshes["a"].nodes != {}
  {
    hide View.WellFormed, FirstAt, FirstOf, BirthOf, HeldNames, Gone, KeptSpec, Filed, View.DeadMesh, View.At,
        Topology.SpecAt;
    BothSound();
    var next := OfRecords(Both, Empty, Plain.mesh);
    RecordsFiled(Both, Empty, Plain.mesh);
    HeldMeshFiled(Both, Empty, "a", Plain.mesh);
    assert next.meshes["a"] == HeldMesh(Both.nodes, Both, Empty, "a", Plain.mesh);
    Acceptance.KeptKind(Empty, Admin);
    SpecAtFiled(next, "a", BrokerPath);
  }

  lemma BrokerDeleteAdmitted()
    ensures DeleteAdmitted(OfRecords(Both, Empty, Plain.mesh), [], ["n2"], Both)
  {
    hide View.WellFormed, FirstAt, FirstOf, BirthOf, HeldNames, Gone, Filed, View.DeadMesh, View.At, OfRecords,
        Topology.SpecAt;
    BothSound();
    BothHeld();
    var next := OfRecords(Both, Empty, Plain.mesh);
    assert Nameable(next, {}, "n2", Both);
    assert AdminKept(next, "a", {}, {} + Gone(Both, ["n2"]), [], Both);
    Acceptance.LeftExactly(Both, Empty, Plain.mesh, [], ["n2"], "a");
    assert Acceptance.Left(Both, [], ["n2"], "a");
  }

  lemma BrokerDeleteFits()
    ensures Acceptance.DeleteFits(Both, [], ["n2"])
  {
    hide View.WellFormed, FirstAt, FirstOf, BirthOf, HeldNames, Gone, View.DeadMesh, View.At, ValidMeshName;
    BothSound();
    Names1();
    assert Admin == Both.nodes[0] && Admin in Both.nodes;
  }

  lemma BrokerPinned()
    ensures Pins(Both, BuildScope.Deleting(Both, Delete([], ["n2"]), [])).Some?
  {
    hide View.WellFormed, FirstAt, FirstOf, BirthOf, HeldNames, Gone, View.At;
    BothSound();
    assert ["n2"][1..] == [] && DeletedAt(Both, []) == [];
    assert DeletedAt(Both, ["n2"]) == [BrokerPath] && [BrokerPath][..0] == [];
  }

  lemma BrokerDeleteAccepted() returns (t: Topology)
    ensures AcceptedAs(Empty, Delete([], ["n2"]), Both, [], Plain, t) && t.WellFormed()
  {
    hide CompileReplacing, Topology.WellFormed, View.WellFormed, Filed, DeleteAdmitted, Acceptance.DeleteFits,
        OfRecords, AcceptedAs, HeldNames, Gone, BirthOf;
    BothSound();
    BrokerDeleteAdmitted();
    BrokerDeleteFits();
    BrokerPinned();
    Acceptance.DeleteAcceptedExactly(Empty, [], ["n2"], Both, {}, Plain);
    assert Among([]) == {};
    t := Accepts(Empty, Delete([], ["n2"]), Both, [], Plain);
  }

  /** A Delete of one broker shuts down the mesh `b`, made by another Build after it was accepted. */
  lemma DeleteShutsALaterMesh()
    ensures exists t :: AcceptedAs(Empty, Delete([], ["n2"]), Both, [], Plain, t) && t.WellFormed()
                        && ShutdownMesh("b", "2") in BuildPlan(t, Later, OpenDeletes(Later, []), {}, [], {})
  {
    hide AcceptedAs, Topology.WellFormed, BuildPlan, View.WellFormed, HeldNames, OpenDeletes;
    var change := Delete([], ["n2"]);
    var t := BrokerDeleteAccepted();
    LaterSound();
    BothSound();
    var m, op := Mesh(Some("2"), "b", ScopeReady), ShutdownMesh("b", "2");
    assert m == Later.meshes[1] && m in Later.meshes && !DeleteScope.Leaves(change, Both, "b");
    assert DeleteScope.ShutsDown(change, Both, Later, OpenDeletes(Later, []), op);
    DeleteScope.DeleteTouchesExactlyItsOwn(Empty, change, Both, [], Plain, t, Later, OpenDeletes(Later, []), {}, [],
        {}, op);
  }

  // ---------------------------------------------------------------------------------------------
  // A Delete of the last, Dead mesh
  // ---------------------------------------------------------------------------------------------

  const LastDead := Seen([Admin], ScopeDead)

  lemma LastSound()
    ensures LastDead.WellFormed() && HeldNames(LastDead) == {"a"} && !AnyLiveMesh(LastDead)
        && Gone(LastDead, []) == {} && Filed(Empty)
  {
    assert LastDead.meshes[0] in LastDead.meshes && LastDead.HoldsMesh("a") && Admin == LastDead.nodes[0]
        && Admin in LastDead.nodes;
    assert LastDead.Stands(Admin);
  }

  /** A Delete of the fabric's last mesh, Dead with a birth still standing, is accepted and planned as a fabric.delete.
      */
  lemma DeadMeshDeleteEndsTheFabric()
    ensures exists t :: AcceptedAs(Empty, Delete(["a"], []), LastDead, [], Plain, t) && t.WellFormed()
                        && DeleteFabric("f") in FabricDelete.PlanWith(t, LastDead, {}, {}, [], {})
  {
    hide CompileReplacing, Topology.WellFormed, View.WellFormed, Filed, FirstAt, FirstOf, HeldNames, KeptSpec,
        FabricDelete.PlanWith, Gone;
    var change := Delete(["a"], []);
    LastSound();
    var next := OfRecords(LastDead, Empty, Plain.mesh);
    RecordsFiled(LastDead, Empty, Plain.mesh);
    WithoutNone(next, LastDead);
    assert next.meshes.Keys == {"a"} && AfterDelete(next, ["a"], [], LastDead).meshes == map[];
    assert DeleteAdmitted(next, ["a"], [], LastDead);
    assert Acceptance.DeleteFits(LastDead, ["a"], []);
    Acceptance.DeleteAcceptedExactly(Empty, ["a"], [], LastDead, {}, Plain);
    assert Among([]) == {};
    var t := Accepts(Empty, change, LastDead, [], Plain);
    DeleteScope.DeleteEndsTheFabricExactly(Empty, change, LastDead, [], Plain, t, LastDead, {}, {}, [], {});
  }
}
