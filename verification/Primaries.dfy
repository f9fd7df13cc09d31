/** The primaries an admin decides from: the answers to primary updates laid over a view that lags them, until the
    records catch up. */
module Primaries {
  import opened Order
  import opened Model

  /** A primary as it is recorded. */
  datatype Primary = Primary(mesh: string, id: NodeId, incarnation: Incarnation, revision: nat)

  /** A later revision, or the same one announced by another birth of the lower node id. */
  predicate Supersedes(a: Primary, held: Primary) {
    if a.revision != held.revision then a.revision > held.revision
    else (a.id != held.id || a.incarnation != held.incarnation) && Less(a.id, held.id)
  }

  /** A node-type primary's role: its mesh and its type. */
  datatype Role = Role(mesh: string, kind: string)

  /** The records an admin holds. */
  datatype Records = Records(roles: map<Role, Primary>, fabric: Option<Primary>)

  function Take(r: Records, role: Role, p: Primary): Records {
    if role in r.roles && !Supersedes(p, r.roles[role]) then r else r.(roles := r.roles[role := p])
  }

  function TakeFabric(r: Records, p: Primary): Records {
    if r.fabric.Some? && !Supersedes(p, r.fabric.value) then r else r.(fabric := Some(p))
  }

  /** A primary update's answer: the record held when it came, the new primary it names, and the node the update was
      sent to. */
  datatype Updated = Updated(record: Primary, id: NodeId, sentTo: NodeId)

  /** The answers an atlas holds; `given` once it was handed the records its first answer came with. */
  datatype Held = Held(answers: map<Role, Updated>, fabric: Option<Updated>, given: bool)

  /** The record an answer is held against: one naming the node it was sent to or the one it names. */
  function Against(record: Option<Primary>, sentTo: NodeId, id: NodeId): Option<Primary> {
    if record.Some? && sentTo != id && (record.value.id == sentTo || record.value.id == id) then record else None
  }

  function RecordOf(r: Records, role: Role): Option<Primary> {
    if role in r.roles then Some(r.roles[role]) else None
  }

  predicate SameAnswer(h: Held, role: Role, sentTo: NodeId, id: NodeId) {
    role in h.answers && h.answers[role].id == id && h.answers[role].sentTo == sentTo
  }

  function Answer(h: Held, r: Records, role: Role, sentTo: NodeId, id: NodeId): Held {
    var record := Against(RecordOf(r, role), sentTo, id);
    if SameAnswer(h, role, sentTo, id) then h.(given := true)
    else if record.Some? then h.(given := true, answers := h.answers[role := Updated(record.value, id, sentTo)])
    else h.(given := true, answers := h.answers - {role})
  }

  function AnswerFabric(h: Held, r: Records, sentTo: NodeId, id: NodeId): Held {
    var record := Against(r.fabric, sentTo, id);
    h.(given := true, fabric := if record.Some? then Some(Updated(record.value, id, sentTo)) else None)
  }

  /** What an answer makes of its role: the node laid as primary and the node it is taken from; `None` once the answer
      goes. `named`: the view still names the node the update was sent to. */
  function Laid(u: Updated, record: Option<Primary>, named: bool): Option<(NodeId, NodeId)> {
    if record.None? then None
    else if record.value == u.record && record.value.id == u.sentTo then Some((u.id, u.sentTo))
    else if record.value.id != u.sentTo && named then Some((record.value.id, u.sentTo))
    else None
  }

  predicate NamesPrimary(nodes: seq<Node>, id: NodeId) {
    FirstOf(nodes, id).Some? && FirstOf(nodes, id).value.isPrimary
  }

  predicate NamesFabricPrimary(nodes: seq<Node>, id: NodeId) {
    FirstOf(nodes, id).Some? && FirstOf(nodes, id).value.isFabricPrimary
  }

  function LaidAt(h: Held, r: Records, nodes: seq<Node>, role: Role): Option<(NodeId, NodeId)> {
    if role !in h.answers then None
        else Laid(h.answers[role], RecordOf(r, role), NamesPrimary(nodes, h.answers[role].sentTo))
  }

  function LaidFabric(h: Held, r: Records, nodes: seq<Node>): Option<(NodeId, NodeId)> {
    if h.fabric.None? then None else Laid(h.fabric.value, r.fabric, NamesFabricPrimary(nodes, h.fabric.value.sentTo))
  }

  /** A flag as `laid` sets it on the node `id`. */
  function Flag(laid: Option<(NodeId, NodeId)>, id: NodeId, was: bool): bool {
    if laid.None? then was else if id == laid.value.0 then true else if id == laid.value.1 then false else was
  }

  function Relabel(h: Held, r: Records, nodes: seq<Node>, n: Node): Node {
    n.(isPrimary := Flag(LaidAt(h, r, nodes, Role(n.mesh, n.kind)), n.id, n.isPrimary),
       isFabricPrimary := Flag(LaidFabric(h, r, nodes), n.id, n.isFabricPrimary))
  }

  /** The view's births with the answers laid over them. */
  function Overlay(h: Held, r: Records, nodes: seq<Node>): seq<Node> {
    if !h.given then nodes else seq(|nodes|, i requires 0 <= i < |nodes| => Relabel(h, r, nodes, nodes[i]))
  }

  /** The answers that stand after a read. */
  function Kept(h: Held, r: Records, nodes: seq<Node>): Held {
    if !h.given then h
    else h.(answers := map role | role in h.answers && LaidAt(h, r, nodes, role).Some? :: h.answers[role],
            fabric := if LaidFabric(h, r, nodes).Some? then h.fabric else None)
  }

  // ---------------------------------------------------------------------------------------------
  // One read
  // ---------------------------------------------------------------------------------------------

  /** An answer moves a role from one node to another. */
  ghost predicate Moves(h: Held) {
    && (forall role :: role in h.answers ==> h.answers[role].id != h.answers[role].sentTo)
    && (h.fabric.Some? ==> h.fabric.value.id != h.fabric.value.sentTo)
  }

  /** Laid again over the view it was laid over, an answer says the same or nothing. */
  lemma LaidAgain(h: Held, r: Records, nodes: seq<Node>, role: Role)
    requires h.given
    ensures LaidAt(Kept(h, r, nodes), r, Overlay(h, r, nodes), role) in {None, LaidAt(h, r, nodes, role)}
  {
    hide Relabel, NamesPrimary, LaidFabric;
  }

  lemma LaidFabricAgain(h: Held, r: Records, nodes: seq<Node>)
    requires h.given
    ensures LaidFabric(Kept(h, r, nodes), r, Overlay(h, r, nodes)) in {None, LaidFabric(h, r, nodes)}
  {
    hide Relabel, NamesFabricPrimary, LaidAt;
  }

  /** Reading the overlaid view lays the same view: the overlay is idempotent. */
  lemma OverlayIdempotent(h: Held, r: Records, nodes: seq<Node>)
    ensures Overlay(Kept(h, r, nodes), r, Overlay(h, r, nodes)) == Overlay(h, r, nodes)
  {
    if h.given {
      hide Kept, LaidAt, LaidFabric;
      var kept, laid := Kept(h, r, nodes), Overlay(h, r, nodes);
      assert kept.given by { KeptReads(h, r, nodes); }
      forall i | 0 <= i < |nodes| ensures Relabel(kept, r, laid, laid[i]) == laid[i] {
        LaidAgain(h, r, nodes, Role(nodes[i].mesh, nodes[i].kind));
        LaidFabricAgain(h, r, nodes);
      }
    }
  }

  lemma KeptReads(h: Held, r: Records, nodes: seq<Node>)
    ensures Kept(h, r, nodes).given == h.given
  {
  }

  /** The first birth listed under `id` is at `k`. */
  ghost predicate ListedAt(nodes: seq<Node>, id: NodeId, k: int) {
    0 <= k < |nodes| && nodes[k].id == id && forall j :: 0 <= j < k ==> nodes[j].id != id
  }

  lemma {:induction false} FirstListed(nodes: seq<Node>, id: NodeId)
    ensures FirstOf(nodes, id).Some? ==> exists k :: ListedAt(nodes, id, k) && nodes[k] == FirstOf(nodes, id).value
  {
    if nodes != [] {
      FirstListed(nodes[1..], id);
      if nodes[0].id == id {
        assert ListedAt(nodes, id, 0);
      } else if FirstOf(nodes, id).Some? {
        var k :| ListedAt(nodes[1..], id, k) && nodes[1..][k] == FirstOf(nodes, id).value;
        assert ListedAt(nodes, id, k + 1);
      }
    }
  }

  lemma FirstIs(nodes: seq<Node>, id: NodeId, k: int)
    requires ListedAt(nodes, id, k)
    ensures FirstOf(nodes, id) == Some(nodes[k])
  {
    FirstListed(nodes, id);
    assert nodes[k] in nodes;
  }

  /** The read makes `now` the role's primary in place of `was`: the record is the one the answer was held against and
      still names the node it was sent to, and the answer is laid; or the record names another node while the view still
      names that one primary, and the record's node is laid. */
  ghost predicate Lays(u: Updated, record: Option<Primary>, namesOld: bool, now: NodeId, was: NodeId) {
    && record.Some? && was == u.sentTo
    && if record.value.id == u.sentTo then record.value == u.record && now == u.id
       else namesOld && now == record.value.id
  }

  lemma LaidExactly(u: Updated, record: Option<Primary>, named: bool, now: NodeId, was: NodeId)
    ensures Laid(u, record, named) == Some((now, was)) <==> Lays(u, record, named, now, was)
  {
  }

  ghost predicate LaysRole(h: Held, r: Records, nodes: seq<Node>, role: Role, now: NodeId, was: NodeId) {
    && role in h.answers
    && Lays(h.answers[role], if role in r.roles then Some(r.roles[role]) else None,
        exists k :: ListedAt(nodes, h.answers[role].sentTo, k) && nodes[k].isPrimary, now, was)
  }

  ghost predicate LaysFabric(h: Held, r: Records, nodes: seq<Node>, now: NodeId, was: NodeId) {
    && h.fabric.Some?
    && Lays(h.fabric.value, r.fabric,
        exists k :: ListedAt(nodes, h.fabric.value.sentTo, k) && nodes[k].isFabricPrimary, now, was)
  }

  lemma NamesExactly(nodes: seq<Node>, id: NodeId)
    ensures NamesPrimary(nodes, id) <==> exists k :: ListedAt(nodes, id, k) && nodes[k].isPrimary
    ensures NamesFabricPrimary(nodes, id) <==> exists k :: ListedAt(nodes, id, k) && nodes[k].isFabricPrimary
  {
    FirstListed(nodes, id);
    forall k | ListedAt(nodes, id, k) { FirstIs(nodes, id, k); }
  }

  lemma LaysExactly(h: Held, r: Records, nodes: seq<Node>, role: Role, now: NodeId, was: NodeId)
    ensures LaidAt(h, r, nodes, role) == Some((now, was)) <==> LaysRole(h, r, nodes, role, now, was)
    ensures LaidFabric(h, r, nodes) == Some((now, was)) <==> LaysFabric(h, r, nodes, now, was)
  {
    hide ListedAt, NamesPrimary, NamesFabricPrimary, Laid, Lays;
    if role in h.answers {
      NamesExactly(nodes, h.answers[role].sentTo);
      LaidExactly(h.answers[role], RecordOf(r, role), NamesPrimary(nodes, h.answers[role].sentTo), now, was);
    }
    if h.fabric.Some? {
      NamesExactly(nodes, h.fabric.value.sentTo);
      LaidExactly(h.fabric.value, r.fabric, NamesFabricPrimary(nodes, h.fabric.value.sentTo), now, was);
    }
  }

  /** The flag is set on the new primary, cleared on the old one, and left as it was on every other birth. */
  ghost predicate Flagged(now: NodeId, was: NodeId, id: NodeId, before: bool, after: bool) {
    (id == now ==> after) && (id == was && id != now ==> !after) && (id != now && id != was ==> after == before)
  }

  /** A read, birth by birth: each flag as what is laid of its role sets it, and as it was where nothing is. */
  lemma ReadByFields(h: Held, r: Records, nodes: seq<Node>, i: nat)
    requires h.given && i < |nodes|
    ensures |Overlay(h, r, nodes)| == |nodes|
    ensures
      var n, laid := nodes[i], Overlay(h, r, nodes)[i];
      && (forall now, was ::
          LaysRole(h, r, nodes, Role(n.mesh, n.kind), now, was) ==>
            Flagged(now, was, n.id, n.isPrimary, laid.isPrimary))
      && (forall now, was ::
          LaysFabric(h, r, nodes, now, was) ==> Flagged(now, was, n.id, n.isFabricPrimary, laid.isFabricPrimary))
      && ((forall now, was :: !LaysRole(h, r, nodes, Role(n.mesh, n.kind), now, was)) ==> laid.isPrimary == n.isPrimary)
      && ((forall now, was :: !LaysFabric(h, r, nodes, now, was)) ==> laid.isFabricPrimary == n.isFabricPrimary)
  {
    hide LaidAt, LaidFabric, LaysRole, LaysFabric;
    var role := Role(nodes[i].mesh, nodes[i].kind);
    forall now, was ensures LaidAt(h, r, nodes, role) == Some((now, was)) <==> LaysRole(h, r, nodes, role, now, was)
                    ensures LaidFabric(h, r, nodes) == Some((now, was)) <==> LaysFabric(h, r, nodes, now, was)
    {
      LaysExactly(h, r, nodes, role, now, was);
    }
    if LaidAt(h, r, nodes, role).Some? {
      var x := LaidAt(h, r, nodes, role).value;
      assert LaidAt(h, r, nodes, role) == Some((x.0, x.1));
    }
    if LaidFabric(h, r, nodes).Some? {
      var x := LaidFabric(h, r, nodes).value;
      assert LaidFabric(h, r, nodes) == Some((x.0, x.1));
    }
  }

  /** Before any answer came, a read changes nothing. */
  lemma ReadBeforeAnswers(h: Held, r: Records, nodes: seq<Node>)
    requires !h.given
    ensures Overlay(h, r, nodes) == nodes && Kept(h, r, nodes) == h
  {
  }

  /** The answers that stand after a read are exactly those it laid. */
  lemma KeptByFields(h: Held, r: Records, nodes: seq<Node>, role: Role)
    requires h.given
    ensures
      var kept := Kept(h, r, nodes);
      && kept.given
      && (role in kept.answers <==> exists now, was :: LaysRole(h, r, nodes, role, now, was))
      && (role in kept.answers ==> kept.answers[role] == h.answers[role])
      && (kept.fabric.Some? <==> exists now, was :: LaysFabric(h, r, nodes, now, was))
      && (kept.fabric.Some? ==> kept.fabric == h.fabric)
  {
    hide LaidAt, LaidFabric;
    forall now, was ensures LaidAt(h, r, nodes, role) == Some((now, was)) <==> LaysRole(h, r, nodes, role, now, was)
                    ensures LaidFabric(h, r, nodes) == Some((now, was)) <==> LaysFabric(h, r, nodes, now, was)
    {
      LaysExactly(h, r, nodes, role, now, was);
    }
    if LaidAt(h, r, nodes, role).Some? {
      var x := LaidAt(h, r, nodes, role).value;
      assert LaidAt(h, r, nodes, role) == Some((x.0, x.1));
      assert LaysRole(h, r, nodes, role, x.0, x.1);
    }
    if LaidFabric(h, r, nodes).Some? {
      var x := LaidFabric(h, r, nodes).value;
      assert LaidFabric(h, r, nodes) == Some((x.0, x.1));
      assert LaysFabric(h, r, nodes, x.0, x.1);
    }
  }

  /** A role with nothing laid is untouched, and so is everything of a birth but its two flags. */
  lemma OthersUntouched(h: Held, r: Records, nodes: seq<Node>, i: nat)
    requires i < |nodes|
    ensures |Overlay(h, r, nodes)| == |nodes|
    ensures
      var n, laid := nodes[i], Overlay(h, r, nodes)[i];
      && laid.(isPrimary := n.isPrimary, isFabricPrimary := n.isFabricPrimary) == n
      && (LaidAt(h, r, nodes, Role(n.mesh, n.kind)).None? ==> laid.isPrimary == n.isPrimary)
      && (LaidFabric(h, r, nodes).None? ==> laid.isFabricPrimary == n.isFabricPrimary)
  {
    hide LaidAt, LaidFabric;
  }

  /** The only primary of `role` in the view is `id`. */
  ghost predicate Sole(nodes: seq<Node>, role: Role, id: NodeId) {
    && (exists n :: n in nodes && Role(n.mesh, n.kind) == role && n.id == id && n.isPrimary)
    && (forall n :: n in nodes && Role(n.mesh, n.kind) == role && n.isPrimary ==> n.id == id)
  }

  /** A view naming only the old primary, and holding the new one, names only the new one once laid. */
  lemma OldGivesWayToNew(h: Held, r: Records, nodes: seq<Node>, role: Role, was: NodeId, now: NodeId)
    requires h.given && LaidAt(h, r, nodes, role) == Some((now, was)) && now != was
    requires Sole(nodes, role, was) && exists n :: n in nodes && Role(n.mesh, n.kind) == role && n.id == now
    ensures Sole(Overlay(h, r, nodes), role, now)
  {
    hide LaidAt, LaidFabric;
    var laid := Overlay(h, r, nodes);
    var n :| n in nodes && Role(n.mesh, n.kind) == role && n.id == now;
    var k :| 0 <= k < |nodes| && nodes[k] == n;
    assert laid[k] == Relabel(h, r, nodes, n) && laid[k] in laid;
    forall x | x in laid && Role(x.mesh, x.kind) == role && x.isPrimary ensures x.id == now {
      var i :| 0 <= i < |laid| && laid[i] == x;
      assert x == Relabel(h, r, nodes, nodes[i]) && nodes[i] in nodes;
    }
  }

  ghost predicate SoleFabric(nodes: seq<Node>, id: NodeId) {
    && (exists n :: n in nodes && n.id == id && n.isFabricPrimary)
    && (forall n :: n in nodes && n.isFabricPrimary ==> n.id == id)
  }

  lemma OldFabricGivesWayToNew(h: Held, r: Records, nodes: seq<Node>, was: NodeId, now: NodeId)
    requires h.given && LaidFabric(h, r, nodes) == Some((now, was)) && now != was
    requires SoleFabric(nodes, was) && exists n :: n in nodes && n.id == now
    ensures SoleFabric(Overlay(h, r, nodes), now)
  {
    hide LaidAt, LaidFabric;
    var laid := Overlay(h, r, nodes);
    var n :| n in nodes && n.id == now;
    var k :| 0 <= k < |nodes| && nodes[k] == n;
    assert laid[k] == Relabel(h, r, nodes, n) && laid[k] in laid;
    forall x | x in laid && x.isFabricPrimary ensures x.id == now {
      var i :| 0 <= i < |laid| && laid[i] == x;
      assert x == Relabel(h, r, nodes, nodes[i]) && nodes[i] in nodes;
    }
  }

  // ---------------------------------------------------------------------------------------------
  // Any interleaving of records, answers and reads
  // ---------------------------------------------------------------------------------------------

  datatype Event =
    | Recorded(role: Role, record: Primary) | RecordedFabric(record: Primary)
    | Answered(role: Role, sentTo: NodeId, id: NodeId) | AnsweredFabric(sentTo: NodeId, id: NodeId)
    | Read(nodes: seq<Node>)

  datatype World = World(held: Held, records: Records)

  const Start := World(Held(map[], None, false), Records(map[], None))

  function Next(w: World, e: Event): World {
    match e
    case Recorded(role, p) => w.(records := Take(w.records, role, p))
    case RecordedFabric(p) => w.(records := TakeFabric(w.records, p))
    case Answered(role, sentTo, id) => w.(held := Answer(w.held, w.records, role, sentTo, id))
    case AnsweredFabric(sentTo, id) => w.(held := AnswerFabric(w.held, w.records, sentTo, id))
    case Read(nodes) => w.(held := Kept(w.held, w.records, nodes))
  }

  function After(events: seq<Event>): World {
    if events == [] then Start else Next(After(events[..|events| - 1]), events[|events| - 1])
  }

  /** `p` is no later than `held`: of no higher revision, and of its revision no other birth of a lower node id. */
  ghost predicate NoLater(p: Primary, held: Primary) {
    && p.revision <= held.revision
    && (p.revision == held.revision ==> !Less(p.id, held.id))
  }

  lemma NoLaterExactly(p: Primary, held: Primary)
    ensures NoLater(p, held) <==> !Supersedes(p, held)
  {
    hide Less;
    TextOrder();
  }

  /** The record held of a role came as an event, and no record that came is later. */
  lemma {:induction false} RecordIsNewest(events: seq<Event>, role: Role, p: Primary)
    requires Recorded(role, p) in events
    ensures role in After(events).records.roles
    ensures Recorded(role, After(events).records.roles[role]) in events
        && NoLater(p, After(events).records.roles[role])
  {
    hide Supersedes, NoLater, LaidAt, LaidFabric, Answer, AnswerFabric, Kept;
    var n := |events| - 1;
    var rest, last := events[..n], events[n];
    assert events == rest + [last];
    var was, now := After(rest).records, After(events).records;
    IrreflexiveRecords(p);
    forall x, y { NoLaterExactly(x, y); }
    if Recorded(role, p) in rest {
      RecordIsNewest(rest, role, p);
      if last == Recorded(role, now.roles[role]) && Supersedes(now.roles[role], was.roles[role]) {
        if Supersedes(p, now.roles[role]) { SupersedesOn(p, now.roles[role], was.roles[role]); }
      }
    } else {
      RecordHeldCame(rest, role);
    }
  }

  /** The same of the fabric-primary's record. */
  lemma {:induction false} FabricRecordIsNewest(events: seq<Event>, p: Primary)
    requires RecordedFabric(p) in events
    ensures After(events).records.fabric.Some?
    ensures RecordedFabric(After(events).records.fabric.value) in events
        && NoLater(p, After(events).records.fabric.value)
  {
    hide Supersedes, NoLater, LaidAt, LaidFabric, Answer, AnswerFabric, Kept;
    var n := |events| - 1;
    var rest, last := events[..n], events[n];
    assert events == rest + [last];
    var was, now := After(rest).records, After(events).records;
    IrreflexiveRecords(p);
    forall x, y { NoLaterExactly(x, y); }
    if RecordedFabric(p) in rest {
      FabricRecordIsNewest(rest, p);
      if last == RecordedFabric(now.fabric.value) && Supersedes(now.fabric.value, was.fabric.value) {
        if Supersedes(p, now.fabric.value) { SupersedesOn(p, now.fabric.value, was.fabric.value); }
      }
    } else {
      FabricRecordCame(rest);
    }
  }

  lemma {:induction false} FabricRecordCame(events: seq<Event>)
    ensures After(events).records.fabric.Some? ==> RecordedFabric(After(events).records.fabric.value) in events
  {
    hide Supersedes, LaidAt, LaidFabric, Answer, AnswerFabric, Kept;
    if events != [] {
      var n := |events| - 1;
      FabricRecordCame(events[..n]);
      assert events == events[..n] + [events[n]];
    }
  }

  lemma IrreflexiveRecords(p: Primary)
    ensures !Supersedes(p, p)
  {
  }

  lemma {:induction false} RecordHeldCame(events: seq<Event>, role: Role)
    ensures role in After(events).records.roles ==> Recorded(role, After(events).records.roles[role]) in events
  {
    hide Supersedes, LaidAt, LaidFabric, Answer, AnswerFabric, Kept;
    if events != [] {
      var n := |events| - 1;
      RecordHeldCame(events[..n], role);
      assert events == events[..n] + [events[n]];
    }
  }

  /** The record is the one the answer was held against, or a later one. */
  ghost predicate NotBehind(u: Updated, record: Option<Primary>) {
    record.Some? && (record.value == u.record || Supersedes(record.value, u.record))
  }

  ghost predicate Sound(w: World) {
    && Moves(w.held)
    && (forall role :: role in w.held.answers ==> NotBehind(w.held.answers[role], RecordOf(w.records, role)))
    && (w.held.fabric.Some? ==> NotBehind(w.held.fabric.value, w.records.fabric))
  }

  lemma SupersedesOn(a: Primary, b: Primary, c: Primary)
    requires Supersedes(a, b) && (b == c || Supersedes(b, c))
    ensures Supersedes(a, c) && a != c
  {
    hide Less;
    TextOrder();
  }

  lemma NextSound(w: World, e: Event)
    requires Sound(w)
    ensures Sound(Next(w, e))
  {
    hide Supersedes, LaidAt, LaidFabric;
    var w' := Next(w, e);
    if e.Recorded? && e.role in w.records.roles && Supersedes(e.record, w.records.roles[e.role])
        && e.role in w.held.answers {
      SupersedesOn(e.record, w.records.roles[e.role], w.held.answers[e.role].record);
    }
    if e.RecordedFabric? && w.records.fabric.Some? && Supersedes(e.record, w.records.fabric.value)
        && w.held.fabric.Some? {
      SupersedesOn(e.record, w.records.fabric.value, w.held.fabric.value.record);
    }
  }

  lemma {:induction false} AlwaysSound(events: seq<Event>)
    ensures Sound(After(events))
  {
    hide Next, Sound;
    if events == [] {
      StartSound();
    } else {
      AlwaysSound(events[..|events| - 1]);
      NextSound(After(events[..|events| - 1]), events[|events| - 1]);
    }
  }

  lemma StartSound()
    ensures Sound(Start)
  {
  }

  /** The `i`th event is the answer `u`, and `u.record` is what the records then held of `role`. */
  ghost predicate CameAt(events: seq<Event>, i: int, role: Role, u: Updated) {
    0 <= i < |events| && events[i] == Answered(role, u.sentTo, u.id)
        && RecordOf(After(events[..i]).records, role) == Some(u.record)
  }

  /** Every held answer came as an event, and the record it is held against is the one of that moment. */
  lemma {:induction false} HeldFromItsAnswer(events: seq<Event>, role: Role)
    requires role in After(events).held.answers
    ensures exists i :: CameAt(events, i, role, After(events).held.answers[role])
  {
    hide LaidAt, Supersedes;
    var n := |events| - 1;
    var before, u := After(events[..n]), After(events).held.answers[role];
    if role in before.held.answers && before.held.answers[role] == u {
      HeldFromItsAnswer(events[..n], role);
      var i :| CameAt(events[..n], i, role, u);
      assert events[..n][..i] == events[..i];
      assert CameAt(events, i, role, u);
    } else {
      assert CameAt(events, n, role, u);
    }
  }

  /** After any interleaving, what a read lays is the record's own primary, or the answer over exactly the record it was
      held against: never an answer over a newer record. */
  lemma NeverOverANewerRecord(events: seq<Event>, nodes: seq<Node>, role: Role)
    ensures
      var w := After(events);
      var laid := LaidAt(w.held, w.records, nodes, role);
      laid.Some? ==>
        && role in w.records.roles && laid.value.0 != laid.value.1
        && (Supersedes(w.records.roles[role], w.held.answers[role].record) ==> laid.value.0 == w.records.roles[role].id)
        && (laid.value.0 != w.records.roles[role].id ==>
            w.records.roles[role] == w.held.answers[role].record && laid.value.1 == w.records.roles[role].id)
        && (exists i :: CameAt(events, i, role, w.held.answers[role]))
  {
    hide After, NamesPrimary, CameAt;
    AlwaysSound(events);
    TextOrder();
    if role in After(events).held.answers { HeldFromItsAnswer(events, role); }
  }

  lemma NeverOverANewerFabricRecord(events: seq<Event>, nodes: seq<Node>)
    ensures
      var w := After(events);
      var laid := LaidFabric(w.held, w.records, nodes);
      laid.Some? ==>
        && w.records.fabric.Some? && laid.value.0 != laid.value.1
        && (Supersedes(w.records.fabric.value, w.held.fabric.value.record) ==>
            laid.value.0 == w.records.fabric.value.id)
        && (laid.value.0 != w.records.fabric.value.id ==>
            w.records.fabric.value == w.held.fabric.value.record && laid.value.1 == w.records.fabric.value.id)
  {
    hide After, NamesFabricPrimary;
    AlwaysSound(events);
    TextOrder();
  }

  // ---------------------------------------------------------------------------------------------
  // An answer given again
  // ---------------------------------------------------------------------------------------------

  /** The pair is already held, against an older record than the one held now. */
  predicate StaleRepeat(w: World, role: Role, sentTo: NodeId, id: NodeId) {
    SameAnswer(w.held, role, sentTo, id) && Some(w.held.answers[role].record) != RecordOf(w.records, role)
  }

  /** An answer that comes while the record names the node it was sent to is laid by the next read exactly when it does
      not repeat a pair still held against an older record. */
  lemma AnswerTakesEffectExactly(w: World, nodes: seq<Node>, role: Role, sentTo: NodeId, id: NodeId)
    requires sentTo != id && role in w.records.roles && w.records.roles[role].id == sentTo
    ensures
      var w' := Next(w, Answered(role, sentTo, id));
      && (LaidAt(w'.held, w'.records, nodes, role) == Some((id, sentTo)) <==> !StaleRepeat(w, role, sentTo, id))
      && (StaleRepeat(w, role, sentTo, id) ==> LaidAt(w'.held, w'.records, nodes, role) == None)
  {
  }

  /** An answer whose record came first, already naming the new primary: while the view still names the old one, the
      next read lays the new one in its place. */
  lemma AnswerAfterItsRecord(w: World, nodes: seq<Node>, role: Role, sentTo: NodeId, id: NodeId)
    requires sentTo != id && role in w.records.roles && w.records.roles[role].id == id
    ensures
      var w' := Next(w, Answered(role, sentTo, id));
      LaidAt(w'.held, w'.records, nodes, role) ==
        if exists k :: ListedAt(nodes, sentTo, k) && nodes[k].isPrimary then Some((id, sentTo)) else None
  {
    hide ListedAt, NamesPrimary;
    NamesExactly(nodes, sentTo);
  }

  /** An answer over a record that names neither node, and that repeats no pair still held, is dropped. */
  lemma AnswerOfNeither(w: World, nodes: seq<Node>, role: Role, sentTo: NodeId, id: NodeId)
    requires role !in w.records.roles || w.records.roles[role].id !in {sentTo, id} || sentTo == id
    requires role in w.held.answers ==> w.held.answers[role].id != id || w.held.answers[role].sentTo != sentTo
    ensures role !in Next(w, Answered(role, sentTo, id)).held.answers
    ensures forall other :: other != role ==>
        (other in Next(w, Answered(role, sentTo, id)).held.answers <==> other in w.held.answers)
  {
  }

  /** A fabric-primary's answer is always held against the record of its moment, so it always takes effect. */
  lemma FabricAnswerTakesEffect(w: World, nodes: seq<Node>, sentTo: NodeId, id: NodeId)
    requires sentTo != id && w.records.fabric.Some? && w.records.fabric.value.id == sentTo
    ensures
      var w' := Next(w, AnsweredFabric(sentTo, id));
      LaidFabric(w'.held, w'.records, nodes) == Some((id, sentTo))
  {
  }

  /** And one whose record came first is laid while the view still names the old fabric-primary. */
  lemma FabricAnswerAfterItsRecord(w: World, nodes: seq<Node>, sentTo: NodeId, id: NodeId)
    requires sentTo != id && w.records.fabric.Some? && w.records.fabric.value.id == id
    ensures
      var w' := Next(w, AnsweredFabric(sentTo, id));
      LaidFabric(w'.held, w'.records, nodes) ==
        if exists k :: ListedAt(nodes, sentTo, k) && nodes[k].isFabricPrimary then Some((id, sentTo)) else None
  {
    hide ListedAt, NamesFabricPrimary;
    NamesExactly(nodes, sentTo);
  }

  /** The stale repeat happens: a role goes from one node to another and back with no read between, and the second
      answer of the same pair is dropped by the next read. */
  lemma StaleRepeatHappens()
    ensures
      var role := Role("mesh1", "broker");
      var events := [Recorded(role, Primary("mesh1", "a", "i", 1)), Answered(role, "a", "b"),
                     Recorded(role, Primary("mesh1", "b", "j", 2)), Recorded(role, Primary("mesh1", "a", "i", 3))];
      var w := After(events);
      StaleRepeat(w, role, "a", "b") && w.records.roles[role].id == "a" &&
      forall nodes :: LaidAt(Next(w, Answered(role, "a", "b")).held, w.records, nodes, role) == None
  {
    var role := Role("mesh1", "broker");
    var r1, r2, r3 := Primary("mesh1", "a", "i", 1), Primary("mesh1", "b", "j", 2), Primary("mesh1", "a", "i", 3);
    var e := [Recorded(role, r1), Answered(role, "a", "b"), Recorded(role, r2), Recorded(role, r3)];
    assert e[..3][..2][..1][..0] == [] && e[..3][..2][..1] == [e[0]] && e[..3][..2] == [e[0], e[1]]
        && e[..3] == [e[0], e[1], e[2]];
    assert After([]) == Start;
    assert After([e[0]]) == World(Start.held, Records(map[role := r1], None));
    var held := Held(map[role := Updated(r1, "b", "a")], None, true);
    assert After([e[0], e[1]]) == World(held, Records(map[role := r1], None));
    assert After([e[0], e[1], e[2]]) == World(held, Records(map[role := r2], None));
    assert After(e) == World(held, Records(map[role := r3], None));
  }
}
