/** The calling node's protocol: each operation is submitted to one node at a time, and asked for by its id before it is
    ever submitted again. */
module Caller {
  import opened Model

  datatype WorkReply = IsAccepted | IsPending | IsDone | IsConflict | IsUnknown | IsRefused
  datatype Outcome = Reply(reply: WorkReply) | NotSent | RejectedStale | Unserved | Indeterminate

  /** Where one operation stands for its caller. */
  datatype Progress = ToSend | Accepted(at: PathName) | Uncertain(at: PathName) | Done

  /** A serving node. */
  datatype Target = Target(id: NodeId, at: PathName)

  /** What the `Submit` at `at` leaves. */
  function AfterSubmit(at: PathName, o: Outcome): Progress {
    match o
    case Reply(IsAccepted) => Accepted(at)
    case Reply(IsPending) => Accepted(at)
    case Reply(IsDone) => Done
    case Reply(IsConflict) => Done
    case Reply(_) => ToSend
    case NotSent => ToSend
    case RejectedStale => ToSend
    case Unserved => ToSend
    case Indeterminate => Uncertain(at)
  }

  /** What the `Get` leaves. */
  function AfterGet(p: Progress, o: Outcome): Progress {
    if o == Reply(IsDone) then Done else if o == Reply(IsUnknown) then ToSend else p
  }

  /** A call made for an operation, and how it ended. */
  datatype Call = Submit(at: PathName, outcome: Outcome) | Get(at: PathName, outcome: Outcome)

  /** What a tick offers one operation: the node chosen, the paths a node is at now, and how its call ends. */
  datatype Offer = Offer(chosen: Option<Target>, present: set<PathName>, outcome: Outcome)

  /** The call a tick makes for an operation, if any. */
  function CallOf(p: Progress, o: Offer): Option<Call> {
    match p
    case ToSend => if o.chosen.Some? then Some(Submit(o.chosen.value.at, o.outcome)) else None
    case Done => None
    case Accepted(at) => if at in o.present then Some(Get(at, o.outcome)) else None
    case Uncertain(at) => if at in o.present then Some(Get(at, o.outcome)) else None
  }

  function Stepped(p: Progress, o: Offer): Progress {
    match CallOf(p, o)
    case None => p
    case Some(Submit(at, outcome)) => AfterSubmit(at, outcome)
    case Some(Get(_, outcome)) => AfterGet(p, outcome)
  }

  /** The progress a call leaves, whatever made it. */
  function After(p: Progress, c: Call): Progress {
    if c.Submit? then AfterSubmit(c.at, c.outcome) else AfterGet(p, c.outcome)
  }

  /** Where a tick leaves an operation. One to send goes to the chosen node, if any: taken, it waits for that node's
      path; answered, it is done; unsure, it is asked for there; not taken, it is sent again. One that waits for a
      path is asked for while a node is there: its result ends it, an unknown has it sent again, and any other answer
      leaves it. */
  ghost predicate LeftAs(p: Progress, chosen: Option<Target>, present: set<PathName>, o: Outcome, p': Progress) {
    match p
    case Done => p' == Done
    case Accepted(at) =>
      p' == if at in present && o == Reply(IsDone) then Done
            else if at in present && o == Reply(IsUnknown) then ToSend else p
    case Uncertain(at) =>
      p' == if at in present && o == Reply(IsDone) then Done
            else if at in present && o == Reply(IsUnknown) then ToSend else p
    case ToSend =>
      if chosen.None? then p' == ToSend
      else
        && (o in {Reply(IsAccepted), Reply(IsPending)} ==> p' == Accepted(chosen.value.at))
        && (o in {Reply(IsDone), Reply(IsConflict)} ==> p' == Done)
        && (o == Indeterminate ==> p' == Uncertain(chosen.value.at))
        && (o in {Reply(IsUnknown), Reply(IsRefused), NotSent, RejectedStale, Unserved} ==> p' == ToSend)
  }

  lemma LeftExactly(p: Progress, o: Offer, p': Progress)
    ensures Stepped(p, o) == p' <==> LeftAs(p, o.chosen, o.present, o.outcome, p')
  {
  }

  /** What the caller holds across its ticks. */
  class Calls {
    var pending: map<string, Progress>
    var unserved: set<NodeId>

    constructor ()
      ensures pending == map[] && unserved == {}
    {
      pending, unserved := map[], {};
    }

    /** The one call of an operation. */
    method MakeCall(p: Progress, chosen: Option<Target>, present: set<PathName>, outcome: Outcome)
        returns (state: Progress)
      modifies `unserved
      ensures state == Stepped(p, Offer(chosen, present, outcome))
      ensures unserved == old(unserved) + TurnsAway(p, Offer(chosen, present, outcome))
    {
      state := p;
      match p {
        case ToSend =>
          if chosen.Some? {
            state := AfterSubmit(chosen.value.at, outcome);
            if outcome == Unserved { unserved := unserved + {chosen.value.id}; }
          }
        case Done =>
        case Accepted(at) => if at in present { state := AfterGet(state, outcome); }
        case Uncertain(at) => if at in present { state := AfterGet(state, outcome); }
      }
    }

    /** One tick: the new operation joins, a serving node is chosen, each operation makes its one call in order, and the
        done ones go. `outcomes` are how the calls end. */
    method Tick(n: nat, operation: string, serving: seq<Target>, present: set<PathName>, outcomes: map<string, Outcome>)
      returns (chosen: Option<Target>)
      requires forall x :: x in pending || x == operation ==> x in outcomes
      modifies this
      ensures chosen.Some? ==> chosen.value in serving && chosen.value.id !in old(unserved)
      ensures chosen.None? <==> forall t :: t in serving ==> t.id in old(unserved)
      ensures chosen.Some? ==>
          var left := Candidates(serving, old(unserved));
          left != [] && chosen.value == left[n % |left|]
      ensures
        var all := old(pending)[operation := ToSend];
        && pending.Keys <= all.Keys
        && (forall x ::
            x in all ==> LeftAs(all[x], chosen, present, outcomes[x], if x in pending then pending[x] else Done))
        && (forall id ::
            id in unserved <==>
              id in old(unserved) || (chosen.Some? && id == chosen.value.id && exists x ::
                  x in all && all[x] == ToSend && outcomes[x] == Unserved))
      ensures
        var all := old(pending)[operation := ToSend];
        && (forall x :: x in pending <==> x in all && Stepped(all[x], Offer(chosen, present, outcomes[x])) != Done)
        && (forall x :: x in pending ==> pending[x] == Stepped(all[x], Offer(chosen, present, outcomes[x])))
        && (forall id ::
            id in unserved <==>
              id in old(unserved) || exists x ::
                x in all && id in TurnsAway(all[x], Offer(chosen, present, outcomes[x])))
    {
      hide Stepped, LeftAs, Candidates, Names;
      pending := pending[operation := ToSend];
      ghost var was := unserved;
      var left := Candidates(serving, unserved);
      assert forall t :: t in left <==> t in serving && t.id !in unserved;
      chosen := None;
      if left != [] {
        chosen := Some(left[n % |left|]);
        assert chosen.value in left;
      } else {
        assert forall t :: t in serving ==> t.id in unserved;
      }
      ghost var all := pending;
      var kept := CallEach(pending, chosen, present, outcomes);
      pending := kept;
      forall x | x in all
        ensures LeftAs(all[x], chosen, present, outcomes[x], if x in pending then pending[x] else Done)
      {
        LeftExactly(all[x], Offer(chosen, present, outcomes[x]), if x in pending then pending[x] else Done);
      }
    }

    /** Each operation's call, in order; those not done after it. */
    method CallEach(all: map<string, Progress>, chosen: Option<Target>, present: set<PathName>, outcomes: map<string,
        Outcome>)
      returns (kept: map<string, Progress>)
      requires forall x :: x in all ==> x in outcomes
      modifies `unserved
      ensures forall x :: x in kept <==> x in all && Stepped(all[x], Offer(chosen, present, outcomes[x])) != Done
      ensures forall x :: x in kept ==> kept[x] == Stepped(all[x], Offer(chosen, present, outcomes[x]))
      ensures forall id ::
          id in unserved <==>
            id in old(unserved) || exists x :: x in all && id in TurnsAway(all[x], Offer(chosen, present, outcomes[x]))
    {
      hide Stepped, TurnsAway, Names;
      kept := map[];
      ghost var called: set<string> := {};
      var names := Names(all.Keys);
      for i := 0 to |names|
        invariant called <= all.Keys && forall k :: 0 <= k < |names| ==> (names[k] in called <==> k < i)
        invariant forall x :: x in kept <==> x in called && Stepped(all[x], Offer(chosen, present, outcomes[x])) != Done
        invariant forall x :: x in kept ==> kept[x] == Stepped(all[x], Offer(chosen, present, outcomes[x]))
        invariant forall id :: id in unserved <==>
                    id in old(unserved) || exists x ::
                        x in called && id in TurnsAway(all[x], Offer(chosen, present, outcomes[x]))
      {
        var x := names[i];
        assert x in names;
        NamesNoRepeats(all.Keys);
        var state := MakeCall(all[x], chosen, present, outcomes[x]);
        called := called + {x};
        if state != Done { kept := kept[x := state]; }
      }
      assert called == all.Keys by {
        forall x | x in all ensures x in called { assert x in names; }
      }
    }
  }

  /** The node a call shows not to serve the op. */
  function TurnsAway(p: Progress, o: Offer): set<NodeId> {
    if p == ToSend && o.chosen.Some? && o.outcome == Unserved then {o.chosen.value.id} else {}
  }

  /** The serving nodes not known to leave the op unserved. */
  function Candidates(serving: seq<Target>, unserved: set<NodeId>): (r: seq<Target>)
    ensures forall t :: t in r <==> t in serving && t.id !in unserved
  {
    if serving == [] then []
    else (if serving[0].id in unserved then [] else [serving[0]]) + Candidates(serving[1..], unserved)
  }

  /** The `i`th serving node, if it may be asked, comes after exactly those before it that may: the ticks go round
      them in the order they are listed. */
  lemma {:induction false} CandidatesInOrder(serving: seq<Target>, unserved: set<NodeId>, i: nat)
    requires i < |serving| && serving[i].id !in unserved
    ensures
      var k := |Candidates(serving[..i], unserved)|;
      k < |Candidates(serving, unserved)| && Candidates(serving, unserved)[k] == serving[i]
  {
    hide Candidates;
    CandidatesFirst(serving, unserved);
    if i > 0 {
      CandidatesFirst(serving[..i], unserved);
      CandidatesInOrder(serving[1..], unserved, i - 1);
      assert serving[..i][1..] == serving[1..][..i - 1];
    } else {
      CandidatesNone(unserved);
    }
  }

  lemma CandidatesNone(unserved: set<NodeId>)
    ensures Candidates([], unserved) == []
  {
  }

  lemma CandidatesFirst(serving: seq<Target>, unserved: set<NodeId>)
    requires serving != []
    ensures Candidates(serving, unserved) ==
        (if serving[0].id in unserved then [] else [serving[0]]) + Candidates(serving[1..], unserved)
  {
  }

  // ---------------------------------------------------------------------------------------------
  // One operation over every run of ticks
  // ---------------------------------------------------------------------------------------------

  /** An operation's progress after `offers`. */
  function ProgressAfter(offers: seq<Offer>): Progress {
    if offers == [] then ToSend else Stepped(ProgressAfter(offers[..|offers| - 1]), offers[|offers| - 1])
  }

  /** The `i`th tick's call for the operation. */
  function CallAt(offers: seq<Offer>, i: nat): Option<Call>
    requires i < |offers|
  {
    CallOf(ProgressAfter(offers[..i]), offers[i])
  }

  /** The node provably did not take the operation. */
  predicate NotTaken(o: Outcome) {
    o in {Reply(IsUnknown), Reply(IsRefused), NotSent, RejectedStale, Unserved}
  }

  predicate SaysUnknown(offers: seq<Offer>, k: int, at: PathName) {
    0 <= k < |offers| && CallAt(offers, k) == Some(Get(at, Reply(IsUnknown)))
  }

  /** Between two submits of one operation, the first provably was not taken, or its node answered a later `Get` with
      unknown. */
  lemma NeverSubmittedBlindly(offers: seq<Offer>, i: nat, j: nat)
    requires i < j < |offers|
    requires CallAt(offers, i).Some? && CallAt(offers, i).value.Submit?
    requires CallAt(offers, j).Some? && CallAt(offers, j).value.Submit?
    ensures NotTaken(offers[i].outcome) || exists k :: i < k < j && SaysUnknown(offers, k, CallAt(offers, i).value.at)
  {
    hide CallOf, SaysUnknown;
    var at := CallAt(offers, i).value.at;
    SubmitHolds(offers, i);
    if !NotTaken(offers[i].outcome) {
      StillWaits(offers, i, j);
      OnlyFreshSubmits(offers, j);
    }
  }

  lemma SubmitHolds(offers: seq<Offer>, i: nat)
    requires i < |offers| && CallAt(offers, i).Some? && CallAt(offers, i).value.Submit?
    ensures CallAt(offers, i).value.outcome == offers[i].outcome
    ensures ProgressAfter(offers[..i + 1]) == AfterSubmit(CallAt(offers, i).value.at, offers[i].outcome)
  {
    assert offers[..i + 1][..i] == offers[..i];
  }

  lemma OnlyFreshSubmits(offers: seq<Offer>, j: nat)
    requires j < |offers| && CallAt(offers, j).Some? && CallAt(offers, j).value.Submit?
    ensures ProgressAfter(offers[..j]) == ToSend
  {
  }

  /** A submit that may have been taken holds its path until that path's node says unknown, or it is done. */
  lemma {:induction false} StillWaits(offers: seq<Offer>, i: nat, j: nat)
    requires i < j <= |offers| && CallAt(offers, i).Some? && CallAt(offers, i).value.Submit?
        && !NotTaken(offers[i].outcome)
    ensures
      var at := CallAt(offers, i).value.at;
      ProgressAfter(offers[..j]) in {Accepted(at), Uncertain(at), Done} || exists k ::
          i < k < j && SaysUnknown(offers, k, at)
    decreases j
  {
    SubmitHolds(offers, i);
    if i + 1 < j {
      StillWaits(offers, i, j - 1);
      var at := CallAt(offers, i).value.at;
      assert offers[..j][..j - 1] == offers[..j - 1];
      if CallAt(offers, j - 1) == Some(Get(at, Reply(IsUnknown))) { assert SaysUnknown(offers, j - 1, at); }
    }
  }

  /** The `k`th tick's call ended the operation: its result came back, or its id was refused. */
  predicate Ends(offers: seq<Offer>, k: int) {
    0 <= k < |offers| && CallAt(offers, k).Some? &&
    (offers[k].outcome == Reply(IsDone) || (CallAt(offers, k).value.Submit? && offers[k].outcome == Reply(IsConflict)))
  }

  /** An operation is followed until its result came back or its id was refused: nothing else drops it. */
  lemma {:induction false} DoneExactly(offers: seq<Offer>)
    ensures ProgressAfter(offers) == Done <==> exists k :: Ends(offers, k)
  {
    if offers != [] {
      var n := |offers| - 1;
      DoneExactly(offers[..n]);
      assert offers[..n + 1] == offers;
      if k :| Ends(offers[..n], k) {
        assert offers[..n][..k] == offers[..k] && Ends(offers, k);
      }
      if k :| Ends(offers, k) && k < n {
        assert offers[..n][..k] == offers[..k] && Ends(offers[..n], k);
      }
      if CallAt(offers, n).Some? && ProgressAfter(offers) == Done { assert Ends(offers, n); }
    }
  }

  /** A tick's call is one the operation's progress allows, and leaves what the call leaves. */
  lemma TickMakesTheCall(p: Progress, o: Offer)
    ensures CallOf(p, o).Some? ==>
              var c := CallOf(p, o).value;
              && Stepped(p, o) == After(p, c) && c.outcome == o.outcome
              && (c.Submit? ==> p == ToSend) && (c.Get? ==> p in {Accepted(c.at), Uncertain(c.at)})
    ensures CallOf(p, o).None? ==> Stepped(p, o) == p
  {
  }

  // ---------------------------------------------------------------------------------------------
  // The operation at the nodes
  // ---------------------------------------------------------------------------------------------

  /** The operation's progress, the paths whose durable record holds it, and the submits of it still on their way, each
      by the event that made it. */
  datatype World = World(progress: Progress, recorded: set<PathName>, flying: map<nat, PathName>)

  /** A call the caller makes, and whether a submit reached its node within the call; a tick with no call; or the
      delivery of the submit the event `of` made. */
  datatype Event = Called(call: Call, reached: bool) | Idle | Delivered(of: nat)

  const Start := World(ToSend, {}, map[])

  /** The caller makes the call in this progress. */
  predicate Makes(p: Progress, e: Event) {
    e.Called? ==> if e.call.Submit? then p == ToSend else p in {Accepted(e.call.at), Uncertain(e.call.at)}
  }

  /** The nodes answer as their records are; only what is on its way is delivered. */
  predicate Answers(w: World, e: Event) {
    match e
    case Idle => true
    case Delivered(of) => of in w.flying
    case Called(Submit(at, o), reached) =>
      && (o in {Reply(IsAccepted), Reply(IsPending), Reply(IsDone)} ==> reached)
      && (NotTaken(o) || o == Reply(IsConflict) ==> !reached)
    case Called(Get(at, o), _) =>
      && (o == Reply(IsUnknown) ==> at !in w.recorded)
      && (o in {Reply(IsDone), Reply(IsPending)} ==> at in w.recorded)
  }

  /** What the `i`th event leaves: an undelivered submit with no answer is on its way from then on. */
  function Next(w: World, e: Event, i: nat): World {
    match e
    case Idle => w
    case Delivered(of) => if of in w.flying then World(w.progress, w.recorded + {w.flying[of]}, w.flying - {of}) else w
    case Called(call, reached) =>
      World(After(w.progress, call),
            if call.Submit? && reached then w.recorded + {call.at} else w.recorded,
            if call.Submit? && call.outcome == Indeterminate && !reached then w.flying[i := call.at] else w.flying)
  }

  ghost predicate IsRun(events: seq<Event>, ws: seq<World>) {
    && |ws| == |events| + 1 && ws[0] == Start
    && forall i ::
        0 <= i < |events| ==>
          Makes(ws[i].progress, events[i]) && Answers(ws[i], events[i]) && ws[i + 1] == Next(ws[i], events[i], i)
  }

  /** The event `g` is a get at `at` answered unknown. */
  predicate SaidUnknown(events: seq<Event>, g: int, at: PathName) {
    0 <= g < |events| && events[g].Called? && events[g].call == Get(at, Reply(IsUnknown))
  }

  /** The submit `f` is delivered at `d`, after its node answered a get at `g` that it does not hold the operation. */
  ghost predicate LateAt(events: seq<Event>, f: int, g: int, d: int) {
    && 0 <= f < g < d < |events| && events[d] == Delivered(f)
    && events[f].Called? && events[f].call.Submit? && SaidUnknown(events, g, events[f].call.at)
  }

  /** The submit `f` to `at` was answered for before `i`: delivered now, it would be late. */
  ghost predicate Stale(events: seq<Event>, i: nat, f: nat, at: PathName) {
    exists g :: f < g < i && SaidUnknown(events, g, at)
  }

  /** A submit on its way that is not yet answered for. */
  ghost predicate Flies(events: seq<Event>, i: nat, w: World, f: nat) {
    f in w.flying && !Stale(events, i, f, w.flying[f])
  }

  /** All that is recorded or may be in time is at one path: the one the progress waits for. */
  ghost predicate AtOne(events: seq<Event>, i: nat, w: World) {
    && (forall f ::
        f in w.flying ==>
          f < i <= |events| && events[f].Called? && events[f].call.Submit? && events[f].call.at == w.flying[f])
    && match w.progress
       case ToSend => w.recorded == {} && forall f :: !Flies(events, i, w, f)
       case Accepted(at) => w.recorded == {at} && forall f :: Flies(events, i, w, f) ==> w.flying[f] == at
       case Uncertain(at) => w.recorded <= {at} && forall f :: Flies(events, i, w, f) ==> w.flying[f] == at
       case Done => exists at :: w.recorded <= {at} && forall f :: Flies(events, i, w, f) ==> w.flying[f] == at
  }

  lemma StaleNext(events: seq<Event>, i: nat, f: nat, at: PathName)
    requires i < |events|
    ensures Stale(events, i + 1, f, at) <==> Stale(events, i, f, at) || (f < i && SaidUnknown(events, i, at))
  {
    hide SaidUnknown;
    if g :| f < g < i + 1 && SaidUnknown(events, g, at) {
      if g < i { assert f < g < i && SaidUnknown(events, g, at); }
    }
    if Stale(events, i, f, at) {
      var g :| f < g < i && SaidUnknown(events, g, at);
      assert f < g < i + 1 && SaidUnknown(events, g, at);
    }
  }

  /** A delivery that is not late is of a submit still flying. */
  lemma OnTimeFlies(events: seq<Event>, i: nat, w: World)
    requires i < |events| && events[i].Delivered? && events[i].of in w.flying && AtOne(events, i, w)
    requires forall f, g :: !LateAt(events, f, g, i)
    ensures Flies(events, i, w, events[i].of)
  {
    var f := events[i].of;
    forall g | f < g < i ensures !SaidUnknown(events, g, w.flying[f]) { assert !LateAt(events, f, g, i); }
  }

  lemma FliesNext(events: seq<Event>, i: nat, w: World, f: nat)
    requires i < |events| && AtOne(events, i, w) && Flies(events, i + 1, Next(w, events[i], i), f)
    ensures
      || (f == i && events[i].Called? && events[i].call.Submit? && events[i].call.outcome == Indeterminate
          && Next(w, events[i], i).flying[f] == events[i].call.at)
      || (Flies(events, i, w, f) && Next(w, events[i], i).flying[f] == w.flying[f]
          && !SaidUnknown(events, i, w.flying[f]))
  {
    hide SaidUnknown, Stale;
    StaleNext(events, i, f, Next(w, events[i], i).flying[f]);
  }

  lemma NextAtOne(events: seq<Event>, i: nat, w: World)
    requires i < |events| && AtOne(events, i, w) && Makes(w.progress, events[i]) && Answers(w, events[i])
    requires forall f, g :: !LateAt(events, f, g, i)
    ensures AtOne(events, i + 1, Next(w, events[i], i))
  {
    hide Stale, LateAt;
    var w' := Next(w, events[i], i);
    forall f | Flies(events, i + 1, w', f)
      ensures
        || (f == i && events[i].Called? && events[i].call.Submit? && events[i].call.outcome == Indeterminate
            && w'.flying[f] == events[i].call.at)
        || (Flies(events, i, w, f) && w'.flying[f] == w.flying[f] && !SaidUnknown(events, i, w.flying[f]))
    {
      FliesNext(events, i, w, f);
    }
    if events[i].Delivered? { OnTimeFlies(events, i, w); }
    if w'.progress.Done? {
      var at := if w.progress.Done? then OnePath(events, i, w)
          else if w.progress.ToSend? then events[i].call.at else w.progress.at;
      assert w'.recorded <= {at} && forall f :: Flies(events, i + 1, w', f) ==> w'.flying[f] == at;
    }
  }

  ghost function OnePath(events: seq<Event>, i: nat, w: World): (at: PathName)
    requires AtOne(events, i, w) && w.progress.Done?
    ensures w.recorded <= {at} && forall f :: Flies(events, i, w, f) ==> w.flying[f] == at
  {
    var at :| w.recorded <= {at} && forall f :: Flies(events, i, w, f) ==> w.flying[f] == at;
    at
  }

  lemma {:induction false} RunAtOne(events: seq<Event>, ws: seq<World>, i: nat)
    requires IsRun(events, ws) && i < |ws| && forall f, g, d :: LateAt(events, f, g, d) ==> d >= i
    ensures AtOne(events, i, ws[i])
  {
    hide AtOne, Makes, Answers, Next, LateAt;
    if i == 0 {
      StartAtOne(events);
    } else {
      RunAtOne(events, ws, i - 1);
      assert ws[i - 1 + 1] == Next(ws[i - 1], events[i - 1], i - 1);
      NextAtOne(events, i - 1, ws[i - 1]);
    }
  }

  lemma StartAtOne(events: seq<Event>)
    ensures AtOne(events, 0, Start)
  {
  }

  /** With durable records, an operation is recorded at two paths only by a late delivery: of a submit made before a get
      at its path answered unknown, and delivered after it. */
  lemma TwoPathsOnlyLate(events: seq<Event>, ws: seq<World>, i: nat, p: PathName, q: PathName)
    requires IsRun(events, ws) && i < |ws| && p in ws[i].recorded && q in ws[i].recorded && p != q
    ensures exists f, g, d :: LateAt(events, f, g, d) && d < i
  {
    hide Makes, Answers, Next, LateAt, Stale;
    if forall f, g, d :: LateAt(events, f, g, d) ==> d >= i { RunAtOne(events, ws, i); }
  }

  /** With durable records and nothing delivered after the get that answered unknown, no operation is ever recorded at
      two paths. */
  lemma RecordedAtOnePath(events: seq<Event>, ws: seq<World>, i: nat, p: PathName, q: PathName)
    requires IsRun(events, ws) && i < |ws| && p in ws[i].recorded && q in ws[i].recorded
    requires forall f, g, d :: !LateAt(events, f, g, d)
    ensures p == q
  {
    hide IsRun, LateAt;
    if p != q { TwoPathsOnlyLate(events, ws, i, p, q); }
  }

  /** With a late delivery, it can be. */
  lemma LateDeliveryRecordsTwice()
    ensures
      var p, q := PathName("mesh1.broker", "1"), PathName("mesh1.broker", "2");
      var events := [Called(Submit(p, Indeterminate), false), Called(Get(p, Reply(IsUnknown)), false),
                     Called(Submit(q, Reply(IsAccepted)), true), Delivered(0)];
      LateAt(events, 0, 1, 3) && exists ws: seq<World> :: IsRun(events, ws) && ws[4].recorded == {p, q}
  {
    var p, q := PathName("mesh1.broker", "1"), PathName("mesh1.broker", "2");
    var events := [Called(Submit(p, Indeterminate), false), Called(Get(p, Reply(IsUnknown)), false),
                   Called(Submit(q, Reply(IsAccepted)), true), Delivered(0)];
    var w1 := Next(Start, events[0], 0);
    var w2 := Next(w1, events[1], 1);
    var w3 := Next(w2, events[2], 2);
    var w4 := Next(w3, events[3], 3);
    assert w1 == World(Uncertain(p), {}, map[0 := p]);
    assert w2 == World(ToSend, {}, map[0 := p]);
    assert w3 == World(Accepted(q), {q}, map[0 := p]);
    assert w4.recorded == {p, q};
    assert IsRun(events, [Start, w1, w2, w3, w4]);
  }

  // ---------------------------------------------------------------------------------------------
  // The ticks are such a run
  // ---------------------------------------------------------------------------------------------

  /** What happens to an operation: a tick, with whether its submit reached its node within the call; or a delivery. */
  datatype Moment = Ticked(offer: Offer, reached: bool) | Came(of: nat)

  function EventOf(p: Progress, m: Moment): Event {
    if m.Came? then Delivered(m.of)
        else if CallOf(p, m.offer).Some? then Called(CallOf(p, m.offer).value, m.reached) else Idle
  }

  /** The ticks among the moments. */
  function Ticks(moments: seq<Moment>): seq<Offer> {
    if moments == [] then []
    else
      var rest, last := Ticks(moments[..|moments| - 1]), moments[|moments| - 1];
      if last.Ticked? then rest + [last.offer] else rest
  }

  /** The moments of one operation, the nodes answering as their records are. */
  ghost predicate TickRun(moments: seq<Moment>, events: seq<Event>, ws: seq<World>) {
    && |events| == |moments| && |ws| == |moments| + 1 && ws[0] == Start
    && forall i :: 0 <= i < |moments| ==>
         events[i] == EventOf(ws[i].progress, moments[i]) && Answers(ws[i], events[i])
             && ws[i + 1] == Next(ws[i], events[i], i)
  }

  lemma MomentSteps(w: World, m: Moment, i: nat)
    ensures Makes(w.progress, EventOf(w.progress, m))
    ensures Next(w, EventOf(w.progress, m), i).progress == if m.Ticked? then Stepped(w.progress, m.offer)
        else w.progress
  {
    hide CallOf, Stepped, After;
    if m.Ticked? { TickMakesTheCall(w.progress, m.offer); }
  }

  /** The ticks of an operation, with its deliveries, are a run, and its progress is what the ticks make of it. */
  lemma {:induction false} TicksAreARun(moments: seq<Moment>, events: seq<Event>, ws: seq<World>, i: nat)
    requires TickRun(moments, events, ws) && i <= |moments|
    ensures IsRun(events, ws) && ws[i].progress == ProgressAfter(Ticks(moments[..i]))
  {
    hide Answers, Next, EventOf, Makes, Stepped;
    forall k | 0 <= k < |moments| ensures Makes(ws[k].progress, events[k]) { MomentSteps(ws[k], moments[k], k); }
    if i > 0 {
      TicksAreARun(moments, events, ws, i - 1);
      var now, before := moments[..i], moments[..i - 1];
      assert now[..i - 1] == before && now[i - 1] == moments[i - 1]
          && ws[i - 1 + 1] == Next(ws[i - 1], events[i - 1], i - 1);
      MomentSteps(ws[i - 1], moments[i - 1], i - 1);
      if moments[i - 1].Ticked? { assert Ticks(now)[..|Ticks(before)|] == Ticks(before); }
    }
  }

  /** So over every run of ticks, whatever their outcomes, an operation is recorded at two paths only by a late
      delivery. */
  lemma TicksRecordAtOnePath(moments: seq<Moment>, events: seq<Event>, ws: seq<World>, i: nat, p: PathName, q: PathName)
    requires TickRun(moments, events, ws) && i < |ws| && p in ws[i].recorded && q in ws[i].recorded
    ensures p == q || exists f, g, d :: LateAt(events, f, g, d) && d < i
    ensures ws[i].progress == ProgressAfter(Ticks(moments[..i]))
  {
    hide TickRun, LateAt, IsRun;
    RunLength(moments, events, ws);
    TicksAreARun(moments, events, ws, i);
    if p != q { TwoPathsOnlyLate(events, ws, i, p, q); }
  }

  lemma RunLength(moments: seq<Moment>, events: seq<Event>, ws: seq<World>)
    requires TickRun(moments, events, ws)
    ensures |ws| == |moments| + 1
  {
  }
}
