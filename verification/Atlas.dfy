/** A node-admin's atlas: what it holds and the operations that change it, in place. */
module Atlas {
  import opened Order
  import opened Model
  import opened Effects
  import opened Primaries

  /** What a streamed receipt wrote in the atlas. */
  datatype Taken =
    | NoReceipt | Nothing | Lifecycle(lifecycle: Option<Effects.Lifecycle>) | Status(status: NodeStatus)
    | CreatedBirth(birth: Birth) | Refresh(id: NodeId)

  /** What the receipt of `operation` in `mesh` is taken as. */
  function TakenAs(rows: seq<Row>, p: Projection, operation: string, mesh: string): Taken {
    var i := LastMatch(p.steps, |p.steps|, operation, mesh);
    if i.None? then NoReceipt
    else
      var s := p.steps[i.value];
      if s.subject.None? then Nothing
      else
        var id, row := s.subject.value, RowOfId(rows, s.subject.value);
        var birth := BirthOfStep(rows, p, s);
        var lifecycle := if birth.Some? then LifecycleOf(operation) else None;
        match ActionOf(operation)
        case "node.stop" => if birth.Some? then Status(Stopped) else Lifecycle(None)
        case "node.delete" => if birth.Some? then Status(NodeStatus.Deleted) else Lifecycle(None)
        case "node.start" => Lifecycle(lifecycle)
        case "node.update" => Refresh(id)
        case "node.config.update" => Refresh(id)
        case "node.tag.create" => Refresh(id)
        case "node.tag.delete" => Refresh(id)
        case "node.create" => if row.Some? then CreatedBirth(Birth(id, row.value.incarnation)) else Nothing
        case _ => Nothing
  }

  /** The `i`th event is the last that completes `operation` in `mesh`. */
  ghost predicate LastReceipt(p: Projection, operation: string, mesh: string, i: nat) {
    && i < |p.steps| && ReceiptOf(p.steps[i], operation, mesh)
    && forall j :: i < j < |p.steps| ==> !ReceiptOf(p.steps[j], operation, mesh)
  }

  ghost predicate ReceiptOf(s: Receipt, operation: string, mesh: string) {
    s.operation == operation && s.mesh == mesh && s.step == "Complete" && s.outcome == Complete
  }

  /** The operation changes a node's record in place. */
  ghost predicate Edits(operation: string) {
    OfAction(operation, "node.update") || OfAction(operation, "node.config.update")
        || OfAction(operation, "node.tag.create") || OfAction(operation, "node.tag.delete")
  }

  /** What a receipt is taken as, by its action: a stop's and a delete's as their birth's new status, a start's as its
      lifecycle, an edit's as a refresh, a create's as the birth its record names. */
  lemma TakenByFields(rows: seq<Row>, p: Projection, operation: string, mesh: string, i: nat)
    requires LastReceipt(p, operation, mesh, i)
    ensures
      var s, taken := p.steps[i], TakenAs(rows, p, operation, mesh);
      var found := exists b :: ActsOn(rows, p, s, b);
      && (s.subject == None ==> taken == Nothing)
      && (s.subject.Some? ==>
          && (OfAction(operation, "node.stop") ==> taken == if found then Status(Stopped) else Lifecycle(None))
          && (OfAction(operation, "node.delete") ==>
              taken == if found then Status(NodeStatus.Deleted) else Lifecycle(None))
          && (OfAction(operation, "node.start") ==> taken == Lifecycle(if found then Some(HasStarted) else None))
          && (Edits(operation) ==> taken == Refresh(s.subject.value))
          && (OfAction(operation, "node.create") ==>
              && (taken == Nothing <==> forall r :: r in rows ==> r.id != s.subject.value)
              && forall k :: RowFirst(rows, s.subject.value, k) ==>
                  taken == CreatedBirth(Birth(s.subject.value, rows[k].incarnation)))
          && (!OfAction(operation, "node.stop") && !OfAction(operation, "node.delete")
                  && !OfAction(operation, "node.start") && !Edits(operation) && !OfAction(operation, "node.create") ==>
              taken == Nothing))
  {
    hide ActsOn, ActionOf, BirthOfStep, RowOfId, OfAction;
    var s := p.steps[i];
    assert LastMatch(p.steps, |p.steps|, operation, mesh) == Some(i);
    ActionsRead(operation);
    if s.subject.Some? {
      forall b { BirthByFields(rows, p, s, b); }
      if BirthOfStep(rows, p, s).Some? { assert ActsOn(rows, p, s, BirthOfStep(rows, p, s).value); }
      RowOfIdIs(rows, s.subject.value);
    }
  }

  lemma ActionsRead(operation: string)
    ensures forall a | a in {"node.stop", "node.delete", "node.start", "node.update", "node.config.update",
        "node.tag.create", "node.tag.delete", "node.create"} ::
          ActionOf(operation) == a <==> OfAction(operation, a)
  {
    hide ActionOf, OfAction;
    forall a | a in {"node.stop", "node.delete", "node.start", "node.update", "node.config.update",
        "node.tag.create", "node.tag.delete", "node.create"}
      ensures ActionOf(operation) == a <==> OfAction(operation, a)
    {
      ActionExactly(operation, a);
    }
  }

  /** A receipt's lifecycle step is taken the moment it streams up, over an older effect of its birth. */
  lemma StreamedByFields(effects: map<Birth, Effect>, rows: seq<Row>, p: Projection, operation: string, mesh: string,
      i: nat, b: Birth, l: Effects.Lifecycle)
    requires LastReceipt(p, operation, mesh, i) && LeavesIt(operation, l) && ActsOn(rows, p, p.steps[i], b)
    ensures
      var stamp := Stamp(p.time, p.build, i);
      Absorb(effects, StreamedItems(rows, p, |p.steps|, operation, mesh)) ==
        if b in effects && NotNewer(stamp, effects[b].stamp) then effects else effects[b := Effect(l, stamp)]
  {
    hide LeavesIt, NotNewer, Absorb, ItemAt;
    assert LastMatch(p.steps, |p.steps|, operation, mesh) == Some(i);
    TakenOverOlder(effects, rows, p, i, b, l);
  }

  /** With no such receipt, nothing is taken. */
  lemma NoReceiptTaken(rows: seq<Row>, p: Projection, operation: string, mesh: string)
    ensures TakenAs(rows, p, operation, mesh) == NoReceipt <==> forall s ::
        s in p.steps ==> !ReceiptOf(s, operation, mesh)
  {
    hide ActionOf, BirthOfStep, RowOfId;
    var i := LastMatch(p.steps, |p.steps|, operation, mesh);
    if i.Some? { assert p.steps[i.value] in p.steps; }
  }

  class Atlas {
    var effects: map<Birth, Effect>
    var created: set<Birth>
    var meshes: set<string>
    var held: Held

    constructor ()
      ensures effects == map[] && created == {} && meshes == {} && held == Start.held
    {
      effects, created, meshes, held := map[], {}, {}, Start.held;
    }

    /** The completed lifecycle step at `i`, taken over an older effect of its birth. */
    method TakeEffect(rows: seq<Row>, p: Projection, i: nat) returns (lifecycle: Option<Effects.Lifecycle>)
      requires i < |p.steps|
      modifies `effects
      ensures effects == Absorb(old(effects), ItemAt(rows, p, i))
      ensures forall b, l :: LeavesIt(p.steps[i].operation, l) && ActsOn(rows, p, p.steps[i], b) ==>
          var stamp := Stamp(p.time, p.build, i);
          effects == if b in old(effects) && NotNewer(stamp, old(effects)[b].stamp) then old(effects)
              else old(effects)[b := Effect(l, stamp)]
      ensures (forall b, l :: !(LeavesIt(p.steps[i].operation, l) && ActsOn(rows, p, p.steps[i], b))) ==>
          effects == old(effects)
      ensures lifecycle == if BirthOfStep(rows, p, p.steps[i]).Some? then LifecycleOf(p.steps[i].operation) else None
    {
      hide LifecycleOf, BirthOfStep, StampLess, LeavesIt, ActsOn, NotNewer;
      ghost var was := effects;
      forall b, l | LeavesIt(p.steps[i].operation, l) && ActsOn(rows, p, p.steps[i], b)
        ensures
          var stamp := Stamp(p.time, p.build, i);
          Absorb(was, ItemAt(rows, p, i)) == if b in was && NotNewer(stamp, was[b].stamp) then was
              else was[b := Effect(l, stamp)]
      {
        TakenOverOlder(was, rows, p, i, b, l);
      }
      if forall b, l :: !(LeavesIt(p.steps[i].operation, l) && ActsOn(rows, p, p.steps[i], b)) {
        NothingTaken(was, rows, p, i);
      }
      var found := LifecycleOf(p.steps[i].operation);
      if found.None? { return None; }
      var birth := BirthOfStep(rows, p, p.steps[i]);
      if birth.None? { return None; }
      var stamp := Stamp(p.time, p.build, i);
      ghost var item := (birth.value, Effect(found.value, stamp));
      assert ItemAt(rows, p, i) == [item] && [item][..0] == [];
      assert Absorb(effects, [item]) == Join(Absorb(effects, []), item);
      if birth.value !in effects || StampLess(effects[birth.value].stamp, stamp) {
        effects := effects[birth.value := Effect(found.value, stamp)];
      }
      return found;
    }

    /** The Build completed: every completed lifecycle step of it is taken. */
    method Receipts(p: Projection, rows: seq<Row>)
      modifies `effects
      ensures effects == Absorb(old(effects), WholeItems(rows, p, |p.steps|))
    {
      hide ItemAt, Finished;
      for i := 0 to |p.steps|
        invariant effects == Absorb(old(effects), WholeItems(rows, p, i))
      {
        ghost var items := WholeItems(rows, p, i);
        assert items + [] == items;
        if Finished(p.steps[i]) {
          AbsorbSplit(old(effects), items, ItemAt(rows, p, i));
          var _ := TakeEffect(rows, p, i);
        }
      }
    }

    /** One operation's receipt, taken the moment it streams up. */
    method TakeReceipt(p: Projection, operation: string, mesh: string, rows: seq<Row>) returns (taken: Taken)
      modifies `effects, `created
      ensures effects == Absorb(old(effects), StreamedItems(rows, p, |p.steps|, operation, mesh))
      ensures forall i: nat, b, l ::
          LastReceipt(p, operation, mesh, i) && LeavesIt(operation, l) && ActsOn(rows, p, p.steps[i], b) ==>
            var stamp := Stamp(p.time, p.build, i);
            effects == if b in old(effects) && NotNewer(stamp, old(effects)[b].stamp) then old(effects)
                else old(effects)[b := Effect(l, stamp)]
      ensures taken == TakenAs(rows, p, operation, mesh)
      ensures created == if taken.CreatedBirth? then old(created) + {taken.birth} else old(created)
    {
      hide ItemAt, Finished, LifecycleOf, BirthOfStep, ActionOf, RowOfId, LeavesIt, ActsOn, NotNewer;
      ghost var was := effects;
      forall k: nat, b, l | LastReceipt(p, operation, mesh, k) && LeavesIt(operation, l)
          && ActsOn(rows, p, p.steps[k], b)
        ensures
          var stamp := Stamp(p.time, p.build, k);
          Absorb(was, StreamedItems(rows, p, |p.steps|, operation, mesh)) ==
            if b in was && NotNewer(stamp, was[b].stamp) then was else was[b := Effect(l, stamp)]
      {
        StreamedByFields(was, rows, p, operation, mesh, k, b, l);
      }
      var i := |p.steps|;
      while i > 0 && !Matches(p.steps[i - 1], operation, mesh)
        invariant 0 <= i <= |p.steps|
        invariant LastMatch(p.steps, |p.steps|, operation, mesh) == LastMatch(p.steps, i, operation, mesh)
      {
        i := i - 1;
      }
      if i == 0 { return NoReceipt; }
      var s := p.steps[i - 1];
      assert LastMatch(p.steps, |p.steps|, operation, mesh) == Some(i - 1);
      if s.subject.None? { return Nothing; }
      var lifecycle := TakeEffect(rows, p, i - 1);
      var action, birth := ActionOf(operation), BirthOfStep(rows, p, s);
      if action == "node.stop" || action == "node.delete" {
        var to := if action == "node.stop" then Stopped else NodeStatus.Deleted;
        taken := if birth.Some? then Status(to) else Lifecycle(lifecycle);
      } else if action == "node.start" {
        taken := Lifecycle(lifecycle);
      } else if action in ["node.update", "node.config.update", "node.tag.create", "node.tag.delete"] {
        taken := Refresh(s.subject.value);
      } else if action == "node.create" {
        var row := RowOfId(rows, s.subject.value);
        if row.Some? {
          var made := Birth(s.subject.value, row.value.incarnation);
          created := created + {made};
          taken := CreatedBirth(made);
        } else {
          taken := Nothing;
        }
      } else {
        taken := Nothing;
      }
    }

    /** The atlas's meshes set; the meshes taken and handed away. */
    method Scope(now: set<string>) returns (taken: set<string>, handed: set<string>)
      modifies `meshes
      ensures meshes == now && taken !! old(meshes) && handed <= old(meshes)
      ensures old(meshes) + taken - handed == now && handed !! now
    {
      taken, handed := now - meshes, meshes - now;
      meshes := now;
    }

    /** A primary update's answer. */
    method PrimaryUpdated(records: Records, role: Role, sentTo: NodeId, id: NodeId)
      modifies `held
      ensures held == Answer(old(held), records, role, sentTo, id)
    {
      var record := Against(RecordOf(records, role), sentTo, id);
      held := held.(given := true);
      if SameAnswer(held, role, sentTo, id) { return; }
      if record.Some? {
        held := held.(answers := held.answers[role := Updated(record.value, id, sentTo)]);
      } else {
        held := held.(answers := held.answers - {role});
      }
    }

    method FabricPrimaryUpdated(records: Records, sentTo: NodeId, id: NodeId)
      modifies `held
      ensures held == AnswerFabric(old(held), records, sentTo, id)
    {
      var record := Against(records.fabric, sentTo, id);
      held := held.(given := true, fabric := if record.Some? then Some(Updated(record.value, id, sentTo)) else None);
    }

    /** The answers that no longer stand go; the roles of those that do. */
    method Retain(records: Records, nodes: seq<Node>) returns (roles: map<Role, (NodeId, NodeId)>)
      requires held.given
      modifies `held
      ensures held == Kept(old(held), records, nodes).(fabric := old(held).fabric)
      ensures forall role :: role in roles <==> LaidAt(old(held), records, nodes, role).Some?
      ensures forall role :: role in roles ==> LaidAt(old(held), records, nodes, role) == Some(roles[role])
    {
      hide NamesPrimary, RecordOf, LaidFabric, Laid;
      roles := map[];
      var left, kept: map<Role, Updated> := held.answers.Keys, map[];
      while left != {}
        invariant left <= held.answers.Keys && held == old(held)
        invariant forall role ::
            role in roles <==> role in held.answers && role !in left && LaidAt(held, records, nodes, role).Some?
        invariant forall role :: role in roles ==> LaidAt(held, records, nodes, role) == Some(roles[role])
        invariant kept.Keys == roles.Keys && forall role :: role in kept ==> kept[role] == held.answers[role]
      {
        var role :| role in left;
        var u := held.answers[role];
        var laid := Laid(u, RecordOf(records, role), NamesPrimary(nodes, u.sentTo));
        if laid.Some? {
          roles := roles[role := laid.value];
          kept := kept[role := u];
        }
        left := left - {role};
      }
      assert kept == Kept(held, records, nodes).answers;
      held := held.(answers := kept);
    }

    /** `nodes` with the primaries the held answers name. */
    method LayPrimaries(records: Records, nodes: seq<Node>) returns (laid: seq<Node>)
      modifies `held
      ensures laid == Overlay(old(held), records, nodes) && held == Kept(old(held), records, nodes)
    {
      hide LaidAt, LaidFabric, NamesFabricPrimary;
      if !held.given { return nodes; }
      ghost var was := held;
      var roles := Retain(records, nodes);
      var fabric := LaidFabric(held, records, nodes);
      FabricUnmoved(was, held, records, nodes);
      if fabric.None? { held := held.(fabric := None); }
      laid := [];
      for i := 0 to |nodes|
        invariant |laid| == i && forall k :: 0 <= k < i ==> laid[k] == Relabel(was, records, nodes, nodes[k])
      {
        var n := nodes[i];
        var role := Role(n.mesh, n.kind);
        if role in roles {
          if n.id == roles[role].0 { n := n.(isPrimary := true); }
          else if n.id == roles[role].1 { n := n.(isPrimary := false); }
        }
        if fabric.Some? {
          if n.id == fabric.value.0 { n := n.(isFabricPrimary := true); }
          else if n.id == fabric.value.1 { n := n.(isFabricPrimary := false); }
        }
        laid := laid + [n];
      }
    }
  }

  lemma FabricUnmoved(was: Held, now: Held, records: Records, nodes: seq<Node>)
    requires was.fabric == now.fabric
    ensures LaidFabric(was, records, nodes) == LaidFabric(now, records, nodes)
  {
  }
}
