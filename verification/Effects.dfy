/** The effects a node-admin's atlas holds: the completed lifecycle operation of each exact birth, taken only over an
    older one, whatever order its receipts arrive in. */
module Effects {
  import opened Order
  import opened Model

  /** Effect order: Build admission, then the step's place in its Build's events. */
  datatype Stamp = Stamp(time: nat, build: string, index: nat)

  predicate StampLess(a: Stamp, b: Stamp) {
    a.time < b.time || (a.time == b.time && (Less(a.build, b.build) || (a.build == b.build && a.index < b.index)))
  }

  lemma StampOrder()
    ensures Strict(StampLess)
  {
    hide Less;
    TextOrder();
  }

  /** `a` is no newer than `b`: its Build was admitted no later; of Builds admitted at one time, its id is no greater;
      and within one Build it came no later. */
  ghost predicate NotNewer(a: Stamp, b: Stamp) {
    && a.time <= b.time
    && (a.time == b.time ==> !Less(b.build, a.build))
    && (a.time == b.time && a.build == b.build ==> a.index <= b.index)
  }

  lemma NotNewerExactly(a: Stamp, b: Stamp)
    ensures NotNewer(a, b) <==> !StampLess(b, a)
  {
    hide Less;
    TextOrder();
  }

  datatype Lifecycle = HasStarted | HasStopped | IsDeleted
  datatype Effect = Effect(lifecycle: Lifecycle, stamp: Stamp)
  datatype Birth = Birth(id: NodeId, incarnation: Incarnation)

  /** One step event of a Build, as its receipts carry it. */
  datatype Receipt = Receipt(mesh: string, operation: string, step: string, outcome: Outcome, subject: Option<NodeId>)

  /** A Build as the atlas reads it: its admission, the births its acceptance pinned, its events. */
  datatype Projection = Projection(build: string, time: nat, pinned: seq<PinnedBirth>, steps: seq<Receipt>)

  /** A node's current record. */
  datatype Row = Row(id: NodeId, incarnation: Incarnation)

  /** The action of an operation `noun.verb:<subject>`. */
  function ActionOf(operation: string): string {
    if operation == "" || operation[0] == ':' then "" else [operation[0]] + ActionOf(operation[1..])
  }

  function LifecycleOf(operation: string): Option<Lifecycle> {
    match ActionOf(operation)
    case "node.stop" => Some(HasStopped)
    case "node.start" => Some(HasStarted)
    case "node.delete" => Some(IsDeleted)
    case _ => None
  }

  function PinOfId(pinned: seq<PinnedBirth>, id: NodeId): Option<PinnedBirth> {
    if pinned == [] then None else if pinned[0].id == id then Some(pinned[0]) else PinOfId(pinned[1..], id)
  }

  function RowOfId(rows: seq<Row>, id: NodeId): Option<Row> {
    if rows == [] then None else if rows[0].id == id then Some(rows[0]) else RowOfId(rows[1..], id)
  }

  /** The exact birth a step acted on: the one its Build pinned for its subject, else its record's. */
  function BirthOfStep(rows: seq<Row>, p: Projection, s: Receipt): Option<Birth> {
    if s.subject.None? then None
    else
      var pin, row := PinOfId(p.pinned, s.subject.value), RowOfId(rows, s.subject.value);
      if pin.Some? then Some(Birth(pin.value.id, pin.value.incarnation))
      else if row.Some? then Some(Birth(s.subject.value, row.value.incarnation))
      else None
  }

  /** A written operation's action is read back from it, whatever its subject. */
  lemma {:induction false} ActionReads(action: string, subject: string)
    requires ':' !in action
    ensures ActionOf(action) == ActionOf(action + ":" + subject) == action
  {
    if action == "" {
      assert ("" + ":" + subject)[0] == ':';
    } else {
      ActionReads(action[1..], subject);
      assert (action + ":" + subject)[1..] == action[1..] + ":" + subject;
      assert [action[0]] + action[1..] == action;
    }
  }

  /** The operation is `action`, or `action:<subject>`. */
  ghost predicate OfAction(operation: string, action: string) { operation == action || action + ":" <= operation }

  lemma {:induction false} ActionSplits(operation: string)
    ensures
      var a := ActionOf(operation);
      ':' !in a && a <= operation && (|a| < |operation| ==> operation[|a|] == ':')
  {
    if operation != "" && operation[0] != ':' {
      ActionSplits(operation[1..]);
      assert operation == [operation[0]] + operation[1..];
    }
  }

  lemma ActionExactly(operation: string, action: string)
    requires ':' !in action
    ensures ActionOf(operation) == action <==> OfAction(operation, action)
  {
    ActionSplits(operation);
    if operation == action {
      ActionReads(action, "");
    } else if action + ":" <= operation {
      assert operation == action + ":" + operation[|action| + 1..];
      ActionReads(action, operation[|action| + 1..]);
    }
    if ActionOf(operation) == action && operation != action { assert operation[..|action| + 1] == action + ":"; }
  }

  /** The operation leaves its birth in this lifecycle. */
  ghost predicate LeavesIt(operation: string, l: Lifecycle) {
    match l
    case HasStarted => OfAction(operation, "node.start")
    case HasStopped => OfAction(operation, "node.stop")
    case IsDeleted => OfAction(operation, "node.delete")
  }

  lemma LifecycleByText(operation: string, l: Lifecycle)
    ensures LifecycleOf(operation) == Some(l) <==> LeavesIt(operation, l)
  {
    ActionExactly(operation, "node.start");
    ActionExactly(operation, "node.stop");
    ActionExactly(operation, "node.delete");
  }

  /** The three lifecycle operations leave their three lifecycles, and no other operation leaves one. */
  lemma LifecycleExactly(action: string, subject: string)
    requires ':' !in action
    ensures
      var l := LifecycleOf(action + ":" + subject);
      && (l == Some(HasStopped) <==> action == "node.stop") && (l == Some(HasStarted) <==> action == "node.start")
      && (l == Some(IsDeleted) <==> action == "node.delete")
  {
    ActionReads(action, subject);
  }

  /** Of the operations a plan writes, a node's delete leaves its birth deleted, and no other leaves a lifecycle. */
  lemma PlannedLifecycles(key: OpKey)
    ensures LifecycleOf(key.Text()) ==
        if key.NodeDelete? || key.NodeDeleteUnscoped? then Some(IsDeleted) else None
  {
    hide ActionOf;
    var subject := match key case MeshCreate(id) => id case NodeCreate(id) => id case NodeDelete(id) => id
                   case NodeDeleteUnscoped => "" case MeshDelete(id) => id case FabricDelete(id) => id;
    assert ':' !in key.Action();
    ActionReads(key.Action(), subject);
  }

  /** A pinned birth is the one acted on, whatever the current records name: an effect of a replaced birth never lands
      on its successor. */
  lemma PinnedBirthActedOn(rows: seq<Row>, p: Projection, s: Receipt, b: PinnedBirth)
    requires s.subject == Some(b.id) && b in p.pinned && forall c :: c in p.pinned && c.id == b.id ==> c == b
    ensures BirthOfStep(rows, p, s) == Some(Birth(b.id, b.incarnation))
  {
    PinFound(p.pinned, b);
  }

  lemma {:induction false} PinFound(pinned: seq<PinnedBirth>, b: PinnedBirth)
    requires b in pinned && forall c :: c in pinned && c.id == b.id ==> c == b
    ensures PinOfId(pinned, b.id) == Some(b)
  {
    if pinned[0].id != b.id { PinFound(pinned[1..], b); }
  }

  /** `i` is the first pin of `id`. */
  ghost predicate PinFirst(pinned: seq<PinnedBirth>, id: NodeId, i: int) {
    0 <= i < |pinned| && pinned[i].id == id && forall j :: 0 <= j < i ==> pinned[j].id != id
  }

  ghost predicate RowFirst(rows: seq<Row>, id: NodeId, i: int) {
    0 <= i < |rows| && rows[i].id == id && forall j :: 0 <= j < i ==> rows[j].id != id
  }

  /** `b` is the birth the step acted on: the one its Build pinned under its subject; with none pinned, the one the
      subject's record names. */
  ghost predicate ActsOn(rows: seq<Row>, p: Projection, s: Receipt, b: Birth) {
    && s.subject == Some(b.id)
    && (|| (exists i :: PinFirst(p.pinned, b.id, i) && b.incarnation == p.pinned[i].incarnation)
        || ((forall c :: c in p.pinned ==> c.id != b.id) && exists i ::
            RowFirst(rows, b.id, i) && b.incarnation == rows[i].incarnation))
  }

  lemma {:induction false} PinOfIdIs(pinned: seq<PinnedBirth>, id: NodeId)
    ensures PinOfId(pinned, id).None? <==> forall c :: c in pinned ==> c.id != id
    ensures PinOfId(pinned, id).Some? ==> exists i :: PinFirst(pinned, id, i) && pinned[i] == PinOfId(pinned, id).value
  {
    if pinned != [] {
      PinOfIdIs(pinned[1..], id);
      if pinned[0].id == id {
        assert PinFirst(pinned, id, 0);
      } else if PinOfId(pinned, id).Some? {
        var i :| PinFirst(pinned[1..], id, i) && pinned[1..][i] == PinOfId(pinned, id).value;
        assert PinFirst(pinned, id, i + 1);
      }
    }
  }

  lemma {:induction false} RowOfIdIs(rows: seq<Row>, id: NodeId)
    ensures RowOfId(rows, id).None? <==> forall r :: r in rows ==> r.id != id
    ensures RowOfId(rows, id).Some? ==> exists i :: RowFirst(rows, id, i) && rows[i] == RowOfId(rows, id).value
  {
    if rows != [] {
      RowOfIdIs(rows[1..], id);
      if rows[0].id == id {
        assert RowFirst(rows, id, 0);
      } else if RowOfId(rows, id).Some? {
        var i :| RowFirst(rows[1..], id, i) && rows[1..][i] == RowOfId(rows, id).value;
        assert RowFirst(rows, id, i + 1);
      }
    }
  }

  lemma BirthByFields(rows: seq<Row>, p: Projection, s: Receipt, b: Birth)
    ensures BirthOfStep(rows, p, s) == Some(b) <==> ActsOn(rows, p, s, b)
  {
    hide PinOfId, RowOfId;
    PinOfIdIs(p.pinned, b.id);
    RowOfIdIs(rows, b.id);
    if s.subject.Some? {
      PinOfIdIs(p.pinned, s.subject.value);
      RowOfIdIs(rows, s.subject.value);
    }
  }

  predicate Finished(s: Receipt) { s.step == "Complete" && s.outcome == Complete }

  /** The effect the `i`th event of `p` is, on which birth; nothing when it is no lifecycle step. */
  function ItemAt(rows: seq<Row>, p: Projection, i: nat): seq<(Birth, Effect)>
    requires i < |p.steps|
  {
    var s := p.steps[i];
    var lifecycle, birth := LifecycleOf(s.operation), BirthOfStep(rows, p, s);
    if lifecycle.Some? && birth.Some? then [(birth.value, Effect(lifecycle.value, Stamp(p.time, p.build, i)))] else []
  }

  /** One effect taken over an older one of its birth. */
  function Join(effects: map<Birth, Effect>, item: (Birth, Effect)): map<Birth, Effect> {
    if item.0 !in effects || StampLess(effects[item.0].stamp, item.1.stamp) then effects[item.0 := item.1] else effects
  }

  function Absorb(effects: map<Birth, Effect>, items: seq<(Birth, Effect)>): map<Birth, Effect> {
    if items == [] then effects else Join(Absorb(effects, items[..|items| - 1]), items[|items| - 1])
  }

  lemma {:induction false} AbsorbSplit(effects: map<Birth, Effect>, a: seq<(Birth, Effect)>, b: seq<(Birth, Effect)>)
    ensures Absorb(effects, a + b) == Absorb(Absorb(effects, a), b)
  {
    if b == [] {
      assert a + b == a;
    } else {
      assert (a + b)[..|a + b| - 1] == a + b[..|b| - 1];
      AbsorbSplit(effects, a, b[..|b| - 1]);
    }
  }

  // ---------------------------------------------------------------------------------------------
  // The join
  // ---------------------------------------------------------------------------------------------

  /** `e` is the newest of what `effects` holds of `b` and what `items` say of it. */
  ghost predicate Newest(effects: map<Birth, Effect>, items: seq<(Birth, Effect)>, b: Birth, e: Effect) {
    && ((b, e) in items || (b in effects && effects[b] == e))
    && (b in effects ==> NotNewer(effects[b].stamp, e.stamp))
    && (forall item :: item in items && item.0 == b ==> NotNewer(item.1.stamp, e.stamp))
  }

  ghost predicate Spoken(effects: map<Birth, Effect>, items: seq<(Birth, Effect)>, b: Birth) {
    b in effects || exists item :: item in items && item.0 == b
  }

  /** What is absorbed is, birth by birth, the newest effect: no stamp ever goes back. */
  lemma {:induction false} AbsorbIsNewest(effects: map<Birth, Effect>, items: seq<(Birth, Effect)>, b: Birth)
    ensures b in Absorb(effects, items) <==> Spoken(effects, items, b)
    ensures b in Absorb(effects, items) ==> Newest(effects, items, b, Absorb(effects, items)[b])
  {
    hide StampLess, NotNewer;
    StampOrder();
    forall x, y { NotNewerExactly(x, y); }
    if items != [] {
      var rest, last := items[..|items| - 1], items[|items| - 1];
      assert items == rest + [last];
      AbsorbIsNewest(effects, rest, b);
      var was := Absorb(effects, rest);
      if b in Absorb(effects, items) {
        var e := Absorb(effects, items)[b];
        if b in was { assert !StampLess(e.stamp, was[b].stamp); }
        forall item | item in items && item.0 == b ensures NotNewer(item.1.stamp, e.stamp) {
          if item in rest { NotOlder(e.stamp, was[b].stamp, item.1.stamp); }
        }
        if b in effects { NotOlder(e.stamp, was[b].stamp, effects[b].stamp); }
      }
    }
  }

  lemma NotOlder(a: Stamp, b: Stamp, c: Stamp)
    requires !StampLess(a, b) && !StampLess(b, c)
    ensures !StampLess(a, c)
  {
    hide StampLess;
    StampOrder();
  }

  /** One stamp of one birth is one effect. */
  ghost predicate Functional(items: seq<(Birth, Effect)>) {
    forall x, y :: x in items && y in items && x.0 == y.0 && x.1.stamp == y.1.stamp ==> x == y
  }

  /** Any order, any duplication: the same items give the same effects. */
  lemma OrderIrrelevant(a: seq<(Birth, Effect)>, b: seq<(Birth, Effect)>)
    requires Functional(a) && forall x :: x in a <==> x in b
    ensures Absorb(map[], a) == Absorb(map[], b)
  {
    hide Absorb, StampLess, NotNewer;
    StampOrder();
    forall x, y { NotNewerExactly(x, y); }
    forall k ensures (k in Absorb(map[], a) <==> k in Absorb(map[], b))
             ensures k in Absorb(map[], a) ==> Absorb(map[], a)[k] == Absorb(map[], b)[k]
    {
      AbsorbIsNewest(map[], a, k);
      AbsorbIsNewest(map[], b, k);
      if k in Absorb(map[], a) {
        var x, y := (k, Absorb(map[], a)[k]), (k, Absorb(map[], b)[k]);
        assert x in a && y in a;
      }
    }
  }

  /** A lifecycle step's effect is taken exactly when its birth holds none, or an older one. */
  lemma TakenOverOlder(effects: map<Birth, Effect>, rows: seq<Row>, p: Projection, i: nat, b: Birth, l: Lifecycle)
    requires i < |p.steps| && LeavesIt(p.steps[i].operation, l) && ActsOn(rows, p, p.steps[i], b)
    ensures
      var stamp := Stamp(p.time, p.build, i);
      Absorb(effects, ItemAt(rows, p, i)) ==
        if b in effects && NotNewer(stamp, effects[b].stamp) then effects else effects[b := Effect(l, stamp)]
  {
    hide LeavesIt, ActsOn, LifecycleOf, BirthOfStep, StampLess, NotNewer;
    LifecycleByText(p.steps[i].operation, l);
    BirthByFields(rows, p, p.steps[i], b);
    var item: (Birth, Effect) := (b, Effect(l, Stamp(p.time, p.build, i)));
    assert ItemAt(rows, p, i) == [item] && [item][..0] == [];
    assert Absorb(effects, [item]) == Join(Absorb(effects, []), item);
    if b in effects { NotNewerExactly(item.1.stamp, effects[b].stamp); }
  }

  /** A step that is no lifecycle step of a birth changes nothing. */
  lemma NothingTaken(effects: map<Birth, Effect>, rows: seq<Row>, p: Projection, i: nat)
    requires i < |p.steps| && forall b, l :: !(LeavesIt(p.steps[i].operation, l) && ActsOn(rows, p, p.steps[i], b))
    ensures Absorb(effects, ItemAt(rows, p, i)) == effects
  {
    hide LeavesIt, ActsOn, LifecycleOf, BirthOfStep;
    var lifecycle, birth := LifecycleOf(p.steps[i].operation), BirthOfStep(rows, p, p.steps[i]);
    if lifecycle.Some? && birth.Some? {
      LifecycleByText(p.steps[i].operation, lifecycle.value);
      BirthByFields(rows, p, p.steps[i], birth.value);
    }
  }

  // ---------------------------------------------------------------------------------------------
  // Receipts, streamed or whole
  // ---------------------------------------------------------------------------------------------

  /** What the atlas is handed: one completed operation as it streams up, or a whole Build's events, each read from the
      Build's first `upTo` events. */
  datatype Delivery = Streamed(build: string, upTo: nat, operation: string, mesh: string) | Whole(build: string,
      upTo: nat)

  predicate Matches(s: Receipt, operation: string, mesh: string) { s.mesh == mesh && s.operation == operation
      && Finished(s) }

  /** The last of the first `n` events that completes `operation` in `mesh`. */
  function LastMatch(steps: seq<Receipt>, n: nat, operation: string, mesh: string): (r: Option<nat>)
    requires n <= |steps|
    ensures r.Some? ==> r.value < n && Matches(steps[r.value], operation, mesh) && forall j ::
        r.value < j < n ==> !Matches(steps[j], operation, mesh)
    ensures r.None? ==> forall j :: 0 <= j < n ==> !Matches(steps[j], operation, mesh)
  {
    if n == 0 then None
        else if Matches(steps[n - 1], operation, mesh) then Some(n - 1) else LastMatch(steps, n - 1, operation, mesh)
  }

  /** The effects of the completed events among the first `n`, in order. */
  function WholeItems(rows: seq<Row>, p: Projection, n: nat): seq<(Birth, Effect)>
    requires n <= |p.steps|
  {
    if n == 0 then [] else WholeItems(rows, p, n - 1) + if Finished(p.steps[n - 1]) then ItemAt(rows, p, n - 1) else []
  }

  function StreamedItems(rows: seq<Row>, p: Projection, n: nat, operation: string, mesh: string): seq<(Birth, Effect)>
    requires n <= |p.steps|
  {
    var i := LastMatch(p.steps, n, operation, mesh);
    if i.None? || p.steps[i.value].subject.None? then [] else ItemAt(rows, p, i.value)
  }

  /** The Builds are filed under their own ids. */
  ghost predicate Filing(builds: map<string, Projection>) { forall b :: b in builds ==> builds[b].build == b }

  function ItemsOf(rows: seq<Row>, builds: map<string, Projection>, d: Delivery): seq<(Birth, Effect)> {
    if d.build !in builds || d.upTo > |builds[d.build].steps| then []
    else if d.Whole? then WholeItems(rows, builds[d.build], d.upTo)
    else StreamedItems(rows, builds[d.build], d.upTo, d.operation, d.mesh)
  }

  function AllItems(rows: seq<Row>, builds: map<string, Projection>): Delivery -> seq<(Birth, Effect)> {
    (d: Delivery) => ItemsOf(rows, builds, d)
  }

  /** The effects after `deliveries`, from an empty atlas. */
  function After(rows: seq<Row>, builds: map<string, Projection>, deliveries: seq<Delivery>): map<Birth, Effect> {
    Absorb(map[], Gather(deliveries, AllItems(rows, builds)))
  }

  /** `item` is the effect of a completed event of a Build. */
  ghost predicate IsEffect(rows: seq<Row>, builds: map<string, Projection>, item: (Birth, Effect)) {
    exists b, i :: b in builds && EffectAt(rows, builds[b], i, item)
  }

  ghost predicate EffectAt(rows: seq<Row>, p: Projection, i: int, item: (Birth, Effect)) {
    0 <= i < |p.steps| && Finished(p.steps[i]) && item in ItemAt(rows, p, i)
  }

  lemma {:induction false} WholeHas(rows: seq<Row>, p: Projection, n: nat, item: (Birth, Effect))
    requires n <= |p.steps|
    ensures item in WholeItems(rows, p, n) <==> exists i :: 0 <= i < n && EffectAt(rows, p, i, item)
  {
    hide ItemAt;
    if n > 0 {
      WholeHas(rows, p, n - 1, item);
      if item in WholeItems(rows, p, n)
          && item !in WholeItems(rows, p, n - 1) { assert EffectAt(rows, p, n - 1, item); }
      if i :| 0 <= i < n && EffectAt(rows, p, i, item) {
        if i < n - 1 { assert item in WholeItems(rows, p, n - 1); }
      }
    }
  }

  lemma StreamedHas(rows: seq<Row>, p: Projection, n: nat, operation: string, mesh: string, item: (Birth, Effect))
    requires n <= |p.steps| && item in StreamedItems(rows, p, n, operation, mesh)
    ensures exists i :: 0 <= i < n && EffectAt(rows, p, i, item)
  {
    hide ItemAt;
    var i := LastMatch(p.steps, n, operation, mesh);
    assert EffectAt(rows, p, i.value, item);
  }

  lemma EffectsFunctional(rows: seq<Row>, builds: map<string, Projection>, x: (Birth, Effect), y: (Birth, Effect))
    requires Filing(builds) && IsEffect(rows, builds, x) && IsEffect(rows, builds, y) && x.1.stamp == y.1.stamp
    ensures x == y
  {
    var b, i :| b in builds && EffectAt(rows, builds[b], i, x);
    var c, j :| c in builds && EffectAt(rows, builds[c], j, y);
    assert b == c && i == j;
  }

  /** Once every Build's whole events are in, the deliveries have said exactly what the Builds' completed events say. */
  lemma SaidExactly(rows: seq<Row>, builds: map<string, Projection>, deliveries: seq<Delivery>, item: (Birth, Effect))
    requires forall b :: b in builds ==> Whole(b, |builds[b].steps|) in deliveries
    ensures item in Gather(deliveries, AllItems(rows, builds)) <==> IsEffect(rows, builds, item)
  {
    hide ItemAt, WholeItems, StreamedItems, Gather, EffectAt;
    GatherHas(deliveries, AllItems(rows, builds), item);
    if item in Gather(deliveries, AllItems(rows, builds)) {
      var d :| d in deliveries && item in ItemsOf(rows, builds, d);
      var p := builds[d.build];
      if d.Whole? { WholeHas(rows, p, d.upTo, item); } else { StreamedHas(rows, p, d.upTo, d.operation, d.mesh, item); }
      var i :| 0 <= i < d.upTo && EffectAt(rows, p, i, item);
      assert d.build in builds && EffectAt(rows, builds[d.build], i, item);
    }
    if IsEffect(rows, builds, item) {
      var b, i :| b in builds && EffectAt(rows, builds[b], i, item);
      EffectInRange(rows, builds[b], i, item);
      WholeHas(rows, builds[b], |builds[b].steps|, item);
      var d := Whole(b, |builds[b].steps|);
      assert d in deliveries && item in ItemsOf(rows, builds, d);
    }
  }

  lemma EffectInRange(rows: seq<Row>, p: Projection, i: int, item: (Birth, Effect))
    requires EffectAt(rows, p, i, item)
    ensures 0 <= i < |p.steps|
  {
  }

  /** Streamed receipts in any order and any number, with each Build's whole receipts anywhere among them, leave the
      same effects. */
  lemma ReceiptsJoin(rows: seq<Row>, builds: map<string, Projection>, one: seq<Delivery>, other: seq<Delivery>)
    requires Filing(builds)
    requires forall b :: b in builds ==> Whole(b, |builds[b].steps|) in one && Whole(b, |builds[b].steps|) in other
    ensures After(rows, builds, one) == After(rows, builds, other)
  {
    hide Gather, Absorb, IsEffect;
    var f := AllItems(rows, builds);
    forall item ensures item in Gather(one, f) <==> IsEffect(rows, builds, item)
                ensures item in Gather(other, f) <==> IsEffect(rows, builds, item)
    {
      SaidExactly(rows, builds, one, item);
      SaidExactly(rows, builds, other, item);
    }
    forall x: (Birth, Effect), y: (Birth, Effect) | x in Gather(one, f) && y in Gather(one, f) && x.0 == y.0
        && x.1.stamp == y.1.stamp ensures x == y {
      EffectsFunctional(rows, builds, x, y);
    }
    OrderIrrelevant(Gather(one, f), Gather(other, f));
  }

  /** The `i`th event of the Build completed a lifecycle operation that left `b` in `l`. */
  ghost predicate Acted(rows: seq<Row>, p: Projection, i: nat, b: Birth, l: Lifecycle) {
    && i < |p.steps| && p.steps[i].step == "Complete" && p.steps[i].outcome == Complete
    && LeavesIt(p.steps[i].operation, l) && ActsOn(rows, p, p.steps[i], b)
  }

  lemma EffectByFields(rows: seq<Row>, p: Projection, i: nat, b: Birth, e: Effect)
    ensures EffectAt(rows, p, i, (b, e)) <==> Acted(rows, p, i, b, e.lifecycle) && e.stamp == Stamp(p.time, p.build, i)
  {
    hide LeavesIt, ActsOn, LifecycleOf, BirthOfStep;
    if i < |p.steps| {
      LifecycleByText(p.steps[i].operation, e.lifecycle);
      BirthByFields(rows, p, p.steps[i], b);
    }
  }

  /** And the effect each birth is left with is of a completed lifecycle step on it, and no other one on it is newer. */
  lemma ReceiptsAreNewest(rows: seq<Row>, builds: map<string, Projection>, deliveries: seq<Delivery>, b: Birth)
    requires forall x :: x in builds ==> Whole(x, |builds[x].steps|) in deliveries
    ensures b in After(rows, builds, deliveries) <==>
        exists x, i: nat, l :: x in builds && Acted(rows, builds[x], i, b, l)
    ensures b in After(rows, builds, deliveries) ==>
              var e := After(rows, builds, deliveries)[b];
              && (exists x, i: nat ::
                  x in builds && Acted(rows, builds[x], i, b, e.lifecycle)
                    && e.stamp == Stamp(builds[x].time, builds[x].build, i))
              && forall x, i: nat, l ::
                  x in builds && Acted(rows, builds[x], i, b, l) ==>
                    NotNewer(Stamp(builds[x].time, builds[x].build, i), e.stamp)
  {
    hide Gather, Absorb, IsEffect, NotNewer, Acted, EffectAt;
    var items := Gather(deliveries, AllItems(rows, builds));
    AbsorbIsNewest(map[], items, b);
    forall item ensures item in items <==> IsEffect(rows, builds, item) { SaidExactly(rows, builds, deliveries, item); }
    forall x, i: nat, l | x in builds && Acted(rows, builds[x], i, b, l)
      ensures (b, Effect(l, Stamp(builds[x].time, builds[x].build, i))) in items
    {
      StepSaid(rows, builds, x, i, b, l);
    }
    if item :| item in items && item.0 == b { var x, i := SaidBy(rows, builds, b, item.1); }
    if b in After(rows, builds, deliveries) {
      var e := After(rows, builds, deliveries)[b];
      var x, i := SaidBy(rows, builds, b, e);
    }
  }

  lemma StepSaid(rows: seq<Row>, builds: map<string, Projection>, x: string, i: nat, b: Birth, l: Lifecycle)
    requires x in builds && Acted(rows, builds[x], i, b, l)
    ensures IsEffect(rows, builds, (b, Effect(l, Stamp(builds[x].time, builds[x].build, i))))
  {
    hide Acted, EffectAt;
    EffectByFields(rows, builds[x], i, b, Effect(l, Stamp(builds[x].time, builds[x].build, i)));
  }

  lemma SaidBy(rows: seq<Row>, builds: map<string, Projection>, b: Birth, e: Effect) returns (x: string, i: nat)
    requires IsEffect(rows, builds, (b, e))
    ensures x in builds && Acted(rows, builds[x], i, b, e.lifecycle)
        && e.stamp == Stamp(builds[x].time, builds[x].build, i)
  {
    hide Acted, EffectAt;
    var k;
    x, k :| x in builds && EffectAt(rows, builds[x], k, (b, e));
    EffectInRange(rows, builds[x], k, (b, e));
    i := k;
    EffectByFields(rows, builds[x], i, b, e);
  }

  /** A lifecycle step later than every other one on its birth decides it, whatever order the receipts came in: a start
      admitted after a stop leaves the birth started. */
  lemma LatestStepDecides(rows: seq<Row>, builds: map<string, Projection>, deliveries: seq<Delivery>, b: Birth,
      x: string, i: nat, l: Lifecycle)
    requires forall y :: y in builds ==> Whole(y, |builds[y].steps|) in deliveries
    requires x in builds && Acted(rows, builds[x], i, b, l)
    requires forall y, j: nat, l' :: y in builds && Acted(rows, builds[y], j, b, l') ==>
        builds[y].time < builds[x].time || (y == x && j < i) || (y == x && j == i && l' == l)
    ensures b in After(rows, builds, deliveries) && After(rows, builds, deliveries)[b].lifecycle == l
  {
    hide After, Acted;
    ReceiptsAreNewest(rows, builds, deliveries, b);
    assert b in After(rows, builds, deliveries);
    var e := After(rows, builds, deliveries)[b];
    var y, j: nat :| y in builds && Acted(rows, builds[y], j, b, e.lifecycle)
        && e.stamp == Stamp(builds[y].time, builds[y].build, j);
    assert NotNewer(Stamp(builds[x].time, builds[x].build, i), e.stamp);
  }
}
