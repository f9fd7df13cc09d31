/** Executable replacement over every run of a Build: plan, run any of what was planned, record any of its steps, crash,
    plan again. */
module ReplacementRuns {
  import opened Model
  import opened Planner
  import opened PlanShape
  import opened PlanKeys

  /** One pass: the view and the arguments it planned with, and the step events it left behind. */
  datatype Pass = Pass(view: View, open: set<string>, held: set<string>, created: set<PathName>, events: seq<Step>)

  ghost predicate Planned(t: Topology, steps: seq<Step>, p: Pass, key: OpKey)
    requires t.WellFormed()
  {
    exists op :: op in BuildPlan(t, p.view, p.open, p.held, steps, p.created) && op.Key() == key
  }

  /** A pass records steps of node creates and deletes it planned, and of no other. */
  ghost predicate Records(t: Topology, steps: seq<Step>, p: Pass)
    requires t.WellFormed()
  {
    forall e ::
        e in p.events && (e.operation.NodeCreate? || e.operation.NodeDelete?) ==> Planned(t, steps, p, e.operation)
  }

  /** Every event the passes left behind, in order. */
  function History(passes: seq<Pass>): seq<Step> {
    if passes == [] then [] else History(passes[..|passes| - 1]) + passes[|passes| - 1].events
  }

  /** A run of the Build: each pass planned on what the passes before it recorded. A crash ends a pass after any of its
      events; the next pass knows only the history. */
  ghost predicate Run(t: Topology, passes: seq<Pass>)
    requires t.WellFormed()
  {
    forall i :: 0 <= i < |passes| ==> Records(t, History(passes[..i]), passes[i])
  }

  /** Creates follow their own delete, and a path's delete follows every create queued before it. */
  ghost predicate InTurn(q: seq<Replacement>, steps: seq<Step>) {
    && (forall i :: 0 <= i < |q| && Done(steps, NodeCreate(q[i].id)) ==> Done(steps, NodeDelete(q[i].birth.id)))
    && (forall i, j :: 0 <= i < j < |q| && Done(steps, NodeDelete(q[j].birth.id)) ==> Done(steps, NodeCreate(q[i].id)))
  }

  lemma DoneJoin(a: seq<Step>, b: seq<Step>, key: OpKey)
    ensures Done(a + b, key) <==> Done(a, key) || Done(b, key)
  {
  }

  lemma {:induction false} QueueOnce(t: Topology, name: string, pins: seq<(PathName, PinnedBirth)>, i: nat, j: nat)
    requires name in t.meshes && Identified(t) && NoRepeats(pins) && (forall e :: e in pins ==> e in t.pinned)
    requires i < j < |Queue(t, name, pins)|
    ensures Queue(t, name, pins)[i].at != Queue(t, name, pins)[j].at
  {
    hide Identified, Lookup, NoRepeats, Queue, Topology.CreatedId;
    var rest := Queue(t, name, pins[1..]);
    QueueNext(t, name, pins);
    TailOnce(pins);
    if pins[0].0 in t.meshes[name].nodes && t.CreatedId(pins[0].0).Some? {
      if i > 0 {
        QueueOnce(t, name, pins[1..], i - 1, j - 1);
      } else {
        var later := (rest[j - 1].at, rest[j - 1].birth);
        if rest[j - 1].at == pins[0].0 {
          SamePinned(t, pins[0].0, later.0, pins[0].1, later.1);
        }
      }
    } else {
      QueueOnce(t, name, pins[1..], i, j);
    }
  }

  lemma QueueNext(t: Topology, name: string, pins: seq<(PathName, PinnedBirth)>)
    requires name in t.meshes && Queue(t, name, pins) != []
    ensures pins != []
    ensures Queue(t, name, pins) ==
              if pins[0].0 in t.meshes[name].nodes && t.CreatedId(pins[0].0).Some?
              then [Replacement(pins[0].0, pins[0].1, t.CreatedId(pins[0].0).value)] + Queue(t, name, pins[1..])
              else Queue(t, name, pins[1..])
  {
  }

  lemma TailOnce<T>(s: seq<T>)
    requires NoRepeats(s) && s != []
    ensures NoRepeats(s[1..]) && s[0] !in s[1..] && forall x :: x in s[1..] ==> x in s
  {
  }

  /** Of a mesh's replacements, a plan holds one step: its head's. */
  lemma OnlyTheHeads(t: Topology, name: string, steps: seq<Step>, p: Pass, i: nat)
    requires t.WellFormed() && Identified(t) && name in t.meshes && i < |Queue(t, name, t.pinned)|
    ensures
      var q := Queue(t, name, t.pinned);
      var h := Head(q, steps);
      && (Planned(t, steps, p, NodeDelete(q[i].birth.id)) ==> i == h && !Done(steps, NodeDelete(q[h].birth.id)))
      && (Planned(t, steps, p, NodeCreate(q[i].id)) ==> i == h && Done(steps, NodeDelete(q[h].birth.id)))
  {
    hide BuildPlan, Topology.WellFormed, Identified, Done, Queue, Head;
    var q := Queue(t, name, t.pinned);
    if op :| op in BuildPlan(t, p.view, p.open, p.held, steps, p.created) && op.Key() == NodeDelete(q[i].birth.id) {
      HeadsDelete(t, name, steps, p, op, i);
    }
    if op :| op in BuildPlan(t, p.view, p.open, p.held, steps, p.created) && op.Key() == NodeCreate(q[i].id) {
      HeadsCreate(t, name, steps, p, op, i);
    }
  }

  lemma HeadsDelete(t: Topology, name: string, steps: seq<Step>, p: Pass, op: Operation, i: nat)
    requires t.WellFormed() && Identified(t) && name in t.meshes && i < |Queue(t, name, t.pinned)|
    requires op in BuildPlan(t, p.view, p.open, p.held, steps, p.created)
        && op.Key() == NodeDelete(Queue(t, name, t.pinned)[i].birth.id)
    ensures
      var q := Queue(t, name, t.pinned);
      i == Head(q, steps) && !Done(steps, NodeDelete(q[i].birth.id))
  {
    hide BuildPlan, ReplacementStep, Topology.WellFormed, Identified, Done, Topology.SpecAt, Extra, CreateDue, Queue,
        Head;
    var q := Queue(t, name, t.pinned);
    Named(t, name, q[i].at);
    PlanReads(t, p.view, p.open, p.held, steps, p.created, op);
    SamePinned(t, op.at, q[i].at, op.birth.value, q[i].birth);
    HeadsStep(t, name, steps, op, i);
  }

  lemma HeadsCreate(t: Topology, name: string, steps: seq<Step>, p: Pass, op: Operation, i: nat)
    requires t.WellFormed() && Identified(t) && name in t.meshes && i < |Queue(t, name, t.pinned)|
    requires op in BuildPlan(t, p.view, p.open, p.held, steps, p.created)
        && op.Key() == NodeCreate(Queue(t, name, t.pinned)[i].id)
    ensures
      var q := Queue(t, name, t.pinned);
      i == Head(q, steps) && Done(steps, NodeDelete(q[i].birth.id))
  {
    hide BuildPlan, ReplacementStep, Topology.WellFormed, Identified, Done, Topology.SpecAt, Extra, CreateDue, Queue,
        Head;
    var q := Queue(t, name, t.pinned);
    Named(t, name, q[i].at);
    PlanReads(t, p.view, p.open, p.held, steps, p.created, op);
    SameCreated(t, op.at, q[i].at);
    HeadsStep(t, name, steps, op, i);
  }

  /** An operation at a queued path that some mesh's replacement step is, is this mesh's head's. */
  lemma HeadsStep(t: Topology, name: string, steps: seq<Step>, op: Operation, i: nat)
    requires t.WellFormed() && Identified(t) && name in t.meshes && i < |Queue(t, name, t.pinned)|
    requires IsReplacement(t, steps, op) && (op.CreateNode? || op.DeleteNode?)
        && op.at == Queue(t, name, t.pinned)[i].at
    ensures
      var q := Queue(t, name, t.pinned);
      i == Head(q, steps) && (op.CreateNode? <==> Done(steps, NodeDelete(q[i].birth.id)))
  {
    hide Topology.WellFormed, Identified, Done, Topology.SpecAt, StepFrom;
    var q := Queue(t, name, t.pinned);
    var name' :| name' in t.meshes && ReplacementStep(t, name', steps) == Some(op);
    var r := ReplacementSays(t, name', steps, op);
    OneMesh(t, op.at, name, name');
    SpecKeys(t, name);
    StepIsHeads(t, name, t.pinned, steps);
    var h := Head(q, steps);
    if h != i {
      PinnedOnce(t);
      QueueOnce(t, name, t.pinned, if h < i then h else i, if h < i then i else h);
    }
  }

  lemma SpecKeys(t: Topology, name: string)
    requires t.WellFormed() && name in t.meshes
    ensures t.meshes[name].nodes == t.meshes[name].specs.Keys
  {
  }

  lemma PinnedOnce(t: Topology)
    requires Identified(t)
    ensures NoRepeats(t.pinned)
  {
  }

  /** A pass keeps the replacements in turn. */
  lemma PassKeepsTurn(t: Topology, name: string, steps: seq<Step>, p: Pass)
    requires t.WellFormed() && Identified(t) && name in t.meshes && Records(t, steps, p)
    requires InTurn(Queue(t, name, t.pinned), steps)
    ensures InTurn(Queue(t, name, t.pinned), steps + p.events)
  {
    hide Topology.WellFormed, Identified, Done, Queue, Planned;
    var q := Queue(t, name, t.pinned);
    forall i | 0 <= i < |q|
      ensures Done(steps + p.events, NodeDelete(q[i].birth.id)) ==>
          Done(steps, NodeDelete(q[i].birth.id)) || (i == Head(q, steps) && !Done(steps, NodeDelete(q[i].birth.id)))
      ensures Done(steps + p.events, NodeCreate(q[i].id)) ==>
          Done(steps, NodeCreate(q[i].id)) || (i == Head(q, steps) && Done(steps, NodeDelete(q[i].birth.id)))
      ensures Done(steps, NodeDelete(q[i].birth.id)) ==> Done(steps + p.events, NodeDelete(q[i].birth.id))
      ensures Done(steps, NodeCreate(q[i].id)) ==> Done(steps + p.events, NodeCreate(q[i].id))
    {
      DoneJoin(steps, p.events, NodeDelete(q[i].birth.id));
      DoneJoin(steps, p.events, NodeCreate(q[i].id));
      if Done(p.events, NodeDelete(q[i].birth.id)) { DoneRecorded(p.events, NodeDelete(q[i].birth.id)); }
      if Done(p.events, NodeCreate(q[i].id)) { DoneRecorded(p.events, NodeCreate(q[i].id)); }
      OnlyTheHeads(t, name, steps, p, i);
    }
  }

  lemma DoneRecorded(events: seq<Step>, key: OpKey)
    requires Done(events, key)
    ensures exists e :: e in events && e.operation == key
  {
  }

  /** Over every run, every mesh's replacements go in turn: each create after its own delete, each path after every path
      pinned before it. */
  lemma {:induction false} ReplacementsInTurn(t: Topology, passes: seq<Pass>, name: string)
    requires t.WellFormed() && Identified(t) && name in t.meshes && Run(t, passes)
    ensures InTurn(Queue(t, name, t.pinned), History(passes))
  {
    hide Topology.WellFormed, Identified, Queue, Records;
    if passes != [] {
      var before, last := passes[..|passes| - 1], passes[|passes| - 1];
      forall i | 0 <= i < |before| ensures Records(t, History(before[..i]), before[i]) {
        assert before[..i] == passes[..i];
      }
      ReplacementsInTurn(t, before, name);
      PassKeepsTurn(t, name, History(before), last);
    }
  }

  /** At any moment of any run, at most one replaced path of a mesh has its delete complete and its create not. */
  lemma AtMostOneDown(t: Topology, passes: seq<Pass>, name: string, i: nat, j: nat)
    requires t.WellFormed() && Identified(t) && name in t.meshes && Run(t, passes)
    requires
      var q := Queue(t, name, t.pinned);
      && i < |q| && j < |q|
      && Done(History(passes), NodeDelete(q[i].birth.id)) && !Done(History(passes), NodeCreate(q[i].id))
      && Done(History(passes), NodeDelete(q[j].birth.id)) && !Done(History(passes), NodeCreate(q[j].id))
    ensures i == j
  {
    hide Topology.WellFormed, Identified, Queue, Run, Done;
    ReplacementsInTurn(t, passes, name);
  }

  // ---------------------------------------------------------------------------------------------
  // Two steps for each replacement, no more and no fewer
  // ---------------------------------------------------------------------------------------------

  function Bit(b: bool): nat { if b then 1 else 0 }

  /** How many of the queue's deletes and creates are complete. */
  function Progress(q: seq<Replacement>, steps: seq<Step>): (n: nat)
    ensures n <= 2 * |q|
  {
    if q == [] then 0
    else Bit(Done(steps, NodeDelete(q[0].birth.id))) + Bit(Done(steps, NodeCreate(q[0].id))) + Progress(q[1..], steps)
  }

  lemma {:induction false} NothingDone(q: seq<Replacement>, steps: seq<Step>)
    requires forall i :: 0 <= i < |q| ==> !Done(steps, NodeDelete(q[i].birth.id)) && !Done(steps, NodeCreate(q[i].id))
    ensures Progress(q, steps) == 0
  {
    hide Done;
    if q != [] { NothingDone(q[1..], steps); }
  }

  lemma TurnTail(q: seq<Replacement>, steps: seq<Step>)
    requires InTurn(q, steps) && q != []
    ensures InTurn(q[1..], steps)
  {
    hide Done;
    var r := q[1..];
    forall i, j | 0 <= i < j < |r| && Done(steps, NodeDelete(r[j].birth.id)) ensures Done(steps, NodeCreate(r[i].id)) {
      assert r[i] == q[i + 1] && r[j] == q[j + 1];
    }
  }

  /** In turn, progress is the head's place: two for every path before it, one more once its delete is complete. */
  lemma {:induction false} ProgressIsHeads(q: seq<Replacement>, steps: seq<Step>)
    requires InTurn(q, steps)
    ensures
      var h := Head(q, steps);
      Progress(q, steps) == 2 * h + Bit(h < |q| && Done(steps, NodeDelete(q[h].birth.id)))
  {
    hide Done;
    if q != [] {
      if Done(steps, NodeCreate(q[0].id)) {
        TurnTail(q, steps);
        ProgressIsHeads(q[1..], steps);
      } else {
        forall i | 0 <= i < |q[1..]| ensures !Done(steps, NodeDelete(q[1..][i].birth.id))
            && !Done(steps, NodeCreate(q[1..][i].id)) {
          assert q[1..][i] == q[i + 1];
        }
        NothingDone(q[1..], steps);
      }
    }
  }

  /** The pass completed the one replacement step it planned for the mesh. */
  ghost predicate Advanced(t: Topology, name: string, steps: seq<Step>, p: Pass)
    requires name in t.meshes
  {
    ReplacementStep(t, name, steps).Some? && Done(p.events, ReplacementStep(t, name, steps).value.Key())
  }

  lemma StepKey(t: Topology, name: string, steps: seq<Step>)
    requires t.WellFormed() && name in t.meshes
    ensures
      var q := Queue(t, name, t.pinned);
      var h := Head(q, steps);
      && (ReplacementStep(t, name, steps).None? <==> h == |q|)
      && (h < |q| ==> ReplacementStep(t, name, steps).value.Key() ==
                      if Done(steps, NodeDelete(q[h].birth.id)) then NodeCreate(q[h].id) else NodeDelete(q[h].birth.id))
  {
    hide Done, StepFrom, Topology.WellFormed;
    SpecKeys(t, name);
    StepIsHeads(t, name, t.pinned, steps);
  }

  lemma HeadIs(q: seq<Replacement>, steps: seq<Step>, h: nat)
    requires h <= |q| && (forall j :: 0 <= j < h ==> Done(steps, NodeCreate(q[j].id)))
        && (h < |q| ==> !Done(steps, NodeCreate(q[h].id)))
    ensures Head(q, steps) == h
  {
    hide Done, Head;
  }

  /** A pass moves a mesh's replacements on by exactly one when it completes the step it planned, and by none otherwise.
      */
  lemma PassAdvances(t: Topology, name: string, steps: seq<Step>, p: Pass)
    requires t.WellFormed() && Identified(t) && name in t.meshes && Records(t, steps, p)
    requires InTurn(Queue(t, name, t.pinned), steps)
    ensures
      var q := Queue(t, name, t.pinned);
      Progress(q, steps + p.events) == Progress(q, steps) + Bit(Advanced(t, name, steps, p))
  {
    hide Topology.WellFormed, Identified, Done, Queue, Planned, Progress, Head, ReplacementStep;
    var q := Queue(t, name, t.pinned);
    var h := Head(q, steps);
    PassKeepsTurn(t, name, steps, p);
    ProgressIsHeads(q, steps);
    ProgressIsHeads(q, steps + p.events);
    StepKey(t, name, steps);
    forall i | 0 <= i < |q|
      ensures Done(steps + p.events, NodeDelete(q[i].birth.id)) <==>
          Done(steps, NodeDelete(q[i].birth.id)) || (i == h && Done(p.events, NodeDelete(q[i].birth.id)))
      ensures Done(steps + p.events, NodeCreate(q[i].id)) <==>
          Done(steps, NodeCreate(q[i].id)) || (i == h && Done(p.events, NodeCreate(q[i].id)))
      ensures i == h && Done(p.events, NodeDelete(q[i].birth.id)) ==> !Done(steps, NodeDelete(q[i].birth.id))
      ensures i == h && Done(p.events, NodeCreate(q[i].id)) ==> Done(steps, NodeDelete(q[i].birth.id))
    {
      DoneJoin(steps, p.events, NodeDelete(q[i].birth.id));
      DoneJoin(steps, p.events, NodeCreate(q[i].id));
      if Done(p.events, NodeDelete(q[i].birth.id)) { DoneRecorded(p.events, NodeDelete(q[i].birth.id)); }
      if Done(p.events, NodeCreate(q[i].id)) { DoneRecorded(p.events, NodeCreate(q[i].id)); }
      OnlyTheHeads(t, name, steps, p, i);
    }
    HeadIs(q, steps + p.events, if h < |q| && Done(p.events, NodeCreate(q[h].id)) then h + 1 else h);
  }

  /** How many passes completed the replacement step they planned for the mesh. */
  ghost function Advances(t: Topology, name: string, passes: seq<Pass>): nat
    requires name in t.meshes
  {
    if passes == [] then 0
    else
      var before := passes[..|passes| - 1];
      Advances(t, name, before) + Bit(Advanced(t, name, History(before), passes[|passes| - 1]))
  }

  /** Over every run, a mesh's replacements have moved on once for each advancing pass, and there is nothing left to
      replace exactly when k replacements have taken 2k of them. */
  lemma {:induction false} TwoStepsEach(t: Topology, passes: seq<Pass>, name: string)
    requires t.WellFormed() && Identified(t) && name in t.meshes && Run(t, passes)
    ensures Progress(Queue(t, name, t.pinned), History(passes)) == Advances(t, name, passes)
    ensures ReplacementStep(t, name, History(passes)).None? <==>
        Advances(t, name, passes) == 2 * |Queue(t, name, t.pinned)|
  {
    hide Topology.WellFormed, Identified, Done, Queue, Records, Progress, Head, ReplacementStep, Advanced;
    var q := Queue(t, name, t.pinned);
    if passes == [] {
      EmptyHistory(q);
    } else {
      var before, last := passes[..|passes| - 1], passes[|passes| - 1];
      forall i | 0 <= i < |before| ensures Records(t, History(before[..i]), before[i]) {
        assert before[..i] == passes[..i];
      }
      TwoStepsEach(t, before, name);
      ReplacementsInTurn(t, before, name);
      PassAdvances(t, name, History(before), last);
    }
    ReplacementsInTurn(t, passes, name);
    ProgressIsHeads(q, History(passes));
    StepKey(t, name, History(passes));
  }

  lemma EmptyHistory(q: seq<Replacement>)
    ensures Progress(q, []) == 0
  {
    NothingDone(q, []);
  }
}
