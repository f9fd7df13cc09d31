/** The decision on a caller birth a primary refused as one it does not hold: from this admin's atlas, then from the
    root's. */
module RefusedCaller {
  import opened Model

  /** A node's current record. */
  datatype Record = Record(at: PathName, id: NodeId, incarnation: Incarnation, state: NodeStatus) {
    function Mesh(): string { MeshOfPath(at.path) }

    predicate Gone() { state in {NodeStatus.Deleted, Withdrawn} }
  }

  datatype Decision =
    | DeleteHeld(at: PathName, holder: string)
    | DeleteUnneeded(at: PathName)
    | DeleteDeletedBirth(at: PathName, needed: bool)
    | ReAdmit(at: PathName)
    | NoRecord
    | NotMine(at: PathName)
  {
    predicate Deletes() { DeleteHeld? || DeleteUnneeded? || DeleteDeletedBirth? }
  }

  function BirthText(id: NodeId, incarnation: Incarnation): string { id + "@" + incarnation }

  /** Another node's live record at the caller's path. */
  predicate HeldByAnother(caller: Record, atPath: Option<Record>) {
    atPath.Some? && atPath.value.at == caller.at && atPath.value.id != caller.id && !atPath.value.Gone()
  }

  /** The local decision. */
  function Local(meshes: set<string>, caller: Option<Record>, atPath: Option<Record>, incarnation: Incarnation,
                 planned: map<string, seq<PathName>>): Decision
  {
    if caller.None? then NoRecord
    else
      var c := caller.value;
      if c.Mesh() !in meshes then NotMine(c.at)
      else if HeldByAnother(c, atPath) then DeleteHeld(c.at, BirthText(atPath.value.id, atPath.value.incarnation))
      else if !c.Gone() && c.incarnation != incarnation then DeleteHeld(c.at, BirthText(c.id, c.incarnation))
      else
        var needed := c.Mesh() in planned && c.at in planned[c.Mesh()];
        if c.Gone() then DeleteDeletedBirth(c.at, needed) else if needed then ReAdmit(c.at) else DeleteUnneeded(c.at)
  }

  /** A birth as the root's atlas lists it; its incarnation once its row records one. */
  datatype RootRow = RootRow(at: PathName, id: NodeId, incarnation: Option<Incarnation>)

  function RowOf(root: seq<RootRow>, id: NodeId): (r: Option<RootRow>)
    ensures r.Some? ==> r.value in root && r.value.id == id
    ensures r.None? ==> forall x :: x in root ==> x.id != id
  {
    if root == [] then None else if root[0].id == id then Some(root[0]) else RowOf(root[1..], id)
  }

  function RowAt(root: seq<RootRow>, at: PathName): (r: Option<RootRow>)
    ensures r.Some? ==> r.value in root && r.value.at == at
    ensures r.None? ==> forall x :: x in root ==> x.at != at
  {
    if root == [] then None else if root[0].at == at then Some(root[0]) else RowAt(root[1..], at)
  }

  /** The local decision once the root answered from its atlas. */
  function Verified(own: Decision, id: NodeId, incarnation: Incarnation, root: seq<RootRow>, needed: bool): Decision {
    if own.NoRecord? || own.NotMine? then own
    else
      var row := if RowOf(root, id).Some? then RowOf(root, id) else RowAt(root, own.at);
      if row.None? then if needed then DeleteDeletedBirth(own.at, needed) else DeleteUnneeded(own.at)
      else if row.value.id == id && own.DeleteDeletedBirth? then own
      else if row.value.id == id && row.value.incarnation in {None, Some(incarnation)} then ReAdmit(own.at)
      else
        var incarnation := if row.value.incarnation.Some? then row.value.incarnation.value else "";
        DeleteHeld(own.at, BirthText(row.value.id, incarnation))
  }

  predicate NeededAnywhere(planned: map<string, seq<PathName>>, at: PathName) {
    exists mesh :: mesh in planned && at in planned[mesh]
  }

  /** The whole decision: `root` is `None` when this admin is the root itself. */
  function Decide(meshes: set<string>, caller: Option<Record>, atPath: Option<Record>, id: NodeId,
      incarnation: Incarnation,
                  planned: map<string, seq<PathName>>, root: Option<seq<RootRow>>): Decision
  {
    var own := Local(meshes, caller, atPath, incarnation, planned);
    if root.None? || caller.None? then own
    else Verified(own, id, incarnation, root.value, NeededAnywhere(planned, caller.value.at))
  }

  /** The root lists this very birth of the caller, or its node with no incarnation recorded. */
  predicate RootLists(root: seq<RootRow>, id: NodeId, incarnation: Incarnation) {
    RowOf(root, id).Some? && RowOf(root, id).value.incarnation in {None, Some(incarnation)}
  }

  /** Whatever the root answers, a decision that the caller's record is deleted stays a delete. */
  lemma DeletedBirthNeverReAdmitted(own: Decision, id: NodeId, incarnation: Incarnation, root: seq<RootRow>,
      needed: bool)
    requires own.DeleteDeletedBirth?
    ensures Verified(own, id, incarnation, root, needed).Deletes()
    ensures Verified(own, id, incarnation, root, needed).at == own.at
    ensures RowOf(root, id).Some? ==> Verified(own, id, incarnation, root, needed) == own
  {
  }

  /** When the whole decision re-admits, for every caller, plan and root. */
  lemma ReAdmittedExactly(meshes: set<string>, caller: Option<Record>, atPath: Option<Record>, id: NodeId,
      incarnation: Incarnation,
                          planned: map<string, seq<PathName>>, root: Option<seq<RootRow>>)
    requires caller.Some? ==> caller.value.id == id
    ensures Decide(meshes, caller, atPath, id, incarnation, planned, root).ReAdmit? <==>
              && caller.Some? && caller.value.Mesh() in meshes
              && var c := caller.value;
                 if root.Some? then RootLists(root.value, id, incarnation) && (c.Gone() ==> HeldByAnother(c, atPath))
                 else
                   && !c.Gone() && c.incarnation == incarnation && !HeldByAnother(c, atPath)
                   && c.Mesh() in planned && c.at in planned[c.Mesh()]
  {
  }

  /** A caller whose local record is deleted is re-admitted exactly when its mesh is in scope, another live birth holds
      its path here, and the root still lists the caller; otherwise it is deleted or left to the primary whose mesh it
      is. */
  lemma DeletedCallerExactly(meshes: set<string>, c: Record, atPath: Option<Record>, incarnation: Incarnation,
                             planned: map<string, seq<PathName>>, root: Option<seq<RootRow>>)
    requires c.Gone()
    ensures
      var decided := Decide(meshes, Some(c), atPath, c.id, incarnation, planned, root);
      && (decided.ReAdmit? <==>
            c.Mesh() in meshes && HeldByAnother(c, atPath) && root.Some? && RootLists(root.value, c.id, incarnation))
      && (decided.NotMine? <==> c.Mesh() !in meshes)
      && (decided.ReAdmit? || decided.NotMine? || decided.Deletes())
  {
    hide RowOf, RowAt, NeededAnywhere, BirthText;
    ReAdmittedExactly(meshes, Some(c), atPath, c.id, incarnation, planned, root);
  }

  /** A live record of another node is at the caller's path. */
  ghost predicate Taken(c: Record, atPath: Option<Record>) {
    && atPath.Some? && atPath.value.at == c.at && atPath.value.id != c.id
    && atPath.value.state != NodeStatus.Deleted && atPath.value.state != Withdrawn
  }

  /** What this admin decides alone, by the caller's record, the one at its path and the plan: which delete, and of
      whose holding. */
  lemma LocalExactly(meshes: set<string>, c: Record, atPath: Option<Record>, incarnation: Incarnation,
      planned: map<string, seq<PathName>>)
    ensures
      var own, mesh := Local(meshes, Some(c), atPath, incarnation, planned), MeshOfPath(c.at.path);
      var gone := c.state == NodeStatus.Deleted || c.state == Withdrawn;
      var needed := mesh in planned && c.at in planned[mesh];
      && (own == NotMine(c.at) <==> mesh !in meshes)
      && (mesh in meshes && Taken(c, atPath) ==>
          own == DeleteHeld(c.at, atPath.value.id + "@" + atPath.value.incarnation))
      && (mesh in meshes && !Taken(c, atPath) && !gone && c.incarnation != incarnation ==>
          own == DeleteHeld(c.at, c.id + "@" + c.incarnation))
      && (mesh in meshes && !Taken(c, atPath) && gone ==> own == DeleteDeletedBirth(c.at, needed))
      && (mesh in meshes && !Taken(c, atPath) && !gone && c.incarnation == incarnation ==>
          own == if needed then ReAdmit(c.at) else DeleteUnneeded(c.at))
  {
    hide MeshOfPath;
  }

  /** What the root's answer makes of it: a caller it lists stays deleted, is re-admitted under a matching
      incarnation, or gives way to the listed one; a path another node is listed at is held; and nothing listed
      deletes the caller. */
  lemma VerifiedExactly(own: Decision, id: NodeId, incarnation: Incarnation, root: seq<RootRow>, needed: bool)
    ensures
      var decided := Verified(own, id, incarnation, root, needed);
      && (own.NoRecord? || own.NotMine? ==> decided == own)
      && (!own.NoRecord? && !own.NotMine? ==>
          && ((forall x :: x in root ==> x.id != id && x.at != own.at) ==>
              decided == if needed then DeleteDeletedBirth(own.at, true) else DeleteUnneeded(own.at))
          && (forall x :: x in root && x.id == id && (forall y :: y in root && y.id == id ==> y == x) ==>
              decided == if own.DeleteDeletedBirth? then own
                  else if x.incarnation == None || x.incarnation == Some(incarnation) then ReAdmit(own.at)
                  else DeleteHeld(own.at, id + "@" + x.incarnation.value))
          && (forall x ::
              x in root && x.at == own.at && (forall y :: y in root ==> y.id != id)
                  && (forall y :: y in root && y.at == own.at ==> y == x) ==>
              decided == DeleteHeld(own.at, x.id + "@" + if x.incarnation.Some? then x.incarnation.value else "")))
  {
    hide RowOf, RowAt;
  }

  /** A caller in scope that the root lists neither by its node nor at its path is deleted: as a deleted birth to create
      again exactly when some mesh's plan names its path. */
  lemma UnlistedCaller(meshes: set<string>, c: Record, atPath: Option<Record>, incarnation: Incarnation,
      planned: map<string, seq<PathName>>, root: seq<RootRow>)
    requires MeshOfPath(c.at.path) in meshes && forall x :: x in root ==> x.id != c.id && x.at != c.at
    ensures
      var decided := Decide(meshes, Some(c), atPath, c.id, incarnation, planned, Some(root));
      decided == if exists mesh :: mesh in planned && c.at in planned[mesh] then DeleteDeletedBirth(c.at, true)
          else DeleteUnneeded(c.at)
  {
    hide MeshOfPath;
  }

  lemma {:induction false} FirstLocation(mesh: string, rest: string)
    requires '.' !in mesh
    ensures MeshOfPath(mesh + "." + rest) == mesh
  {
    var path := mesh + "." + rest;
    if mesh != "" {
      FirstLocation(mesh[1..], rest);
      assert path[1..] == mesh[1..] + "." + rest;
    }
  }

  /** It happens: a deleted birth whose path a new birth took is re-admitted by a root that has not heard. */
  lemma DeletedCallerReAdmitted()
    ensures
      var at := PathName("mesh1.node", "1");
      var gone, taker := Record(at, "old", "i1", NodeStatus.Deleted), Record(at, "new", "i2", Ready);
      gone.Gone() && Decide({"mesh1"}, Some(gone), Some(taker), "old", "i1", map[],
          Some([RootRow(at, "old", Some("i1"))])).ReAdmit?
  {
    hide MeshOfPath, Decide;
    var at := PathName("mesh1" + "." + "node", "1");
    assert at.path == "mesh1.node";
    FirstLocation("mesh1", "node");
    var gone, taker, root := Record(at, "old", "i1", NodeStatus.Deleted), Record(at, "new", "i2", Ready),
        [RootRow(at, "old", Some("i1"))];
    assert gone.Gone() && gone.Mesh() == "mesh1" && HeldByAnother(gone, Some(taker)) && RootLists(root, "old", "i1");
    DeletedCallerExactly({"mesh1"}, gone, Some(taker), "i1", map[], Some(root));
  }
}
