/** Every run of the broker over its log: concurrent produces, crashes that tear a line at any point, and opens. Each
    operation is recorded once, answered one offset, and its record stays there. */
module ProduceRuns {
  import opened Model
  import opened Journal
  import opened RecordsLog

  // ---------------------------------------------------------------------------------------------
  // Serialised lines
  // ---------------------------------------------------------------------------------------------

  /** A line a serialised acceptance or completion writes next. */
  predicate Follows(m: Memory, line: LogLine) {
    match line
    case Accepted(operation, topic, _, offset) => operation !in m.operations && offset == |m.Topic(topic)|
    case Completed(operation, offset) =>
        m.Pending(operation) && operation in m.offsets && offset == m.offsets[operation]
  }

  ghost predicate Serial(lines: seq<LogLine>) {
    forall i :: 0 <= i < |lines| ==> Follows(Fold(lines[..i]), lines[i])
  }

  lemma SerialNext(lines: seq<LogLine>, line: LogLine)
    requires Serial(lines) && Follows(Fold(lines), line)
    ensures Serial(lines + [line])
  {
    hide Follows, Fold;
    var all := lines + [line];
    forall i | 0 <= i < |all| ensures Follows(Fold(all[..i]), all[i]) {
      assert all[..i] == lines[..i];
      assert lines[..|lines|] == lines;
    }
  }

  lemma SerialPrefix(lines: seq<LogLine>, n: nat)
    requires Serial(lines) && n <= |lines|
    ensures Serial(lines[..n])
  {
    hide Follows, Fold;
    forall i | 0 <= i < n ensures Follows(Fold(lines[..n][..i]), lines[..n][i]) {
      assert lines[..n][..i] == lines[..i];
    }
  }

  /** An operation's record is at its offset, and its output is that offset. */
  ghost predicate Placed(m: Memory, operation: string) {
    && operation in m.operations && operation in m.offsets
    && var input, offset := m.operations[operation].input, m.offsets[operation];
       && offset < |m.Topic(input.topic)| && m.Topic(input.topic)[offset] == input.record
       && m.operations[operation].output in {None, Some(offset)}
  }

  /** `b` holds all that `a` does, where it was. */
  ghost predicate Keeps(a: Memory, b: Memory) {
    && (forall x :: x in a.operations ==> x in b.operations && b.operations[x].input == a.operations[x].input)
    && (forall x :: x in a.operations && x in a.offsets ==> x in b.offsets && b.offsets[x] == a.offsets[x])
    && (forall x ::
        x in a.operations && a.operations[x].output.Some? ==>
          x in b.operations && b.operations[x].output == a.operations[x].output)
    && (forall t :: a.Topic(t) <= b.Topic(t))
  }

  lemma FollowsKeeps(m: Memory, line: LogLine)
    requires Follows(m, line)
    ensures Keeps(m, FoldLine(m, line))
  {
  }

  lemma FollowsPlaces(m: Memory, line: LogLine, x: string)
    requires Follows(m, line) && x in FoldLine(m, line).operations && (x in m.operations ==> Placed(m, x))
    ensures Placed(FoldLine(m, line), x)
  {
  }

  lemma {:induction false} SerialPlaces(lines: seq<LogLine>, x: string)
    requires Serial(lines) && x in Fold(lines).operations
    ensures Placed(Fold(lines), x)
  {
    hide Follows, Placed, FoldLine;
    if lines == [] {
    } else {
      var n := |lines| - 1;
      var m := Fold(lines[..n]);
      SerialPrefix(lines, n);
      if x in m.operations { SerialPlaces(lines[..n], x); }
      FollowsPlaces(m, lines[n], x);
    }
  }

  /** The operation of an accepted line is held from there on. */
  lemma {:induction false} AcceptedHeld(lines: seq<LogLine>, i: nat)
    requires i < |lines| && lines[i].Accepted?
    ensures lines[i].operation in Fold(lines).operations
  {
    var n := |lines| - 1;
    if i < n { AcceptedHeld(lines[..n], i); }
  }

  /** Serialised, an operation has at most one accepted line. */
  lemma AcceptedOnce(lines: seq<LogLine>, i: nat, j: nat)
    requires Serial(lines) && i < j < |lines| && lines[i].Accepted? && lines[j].Accepted?
    ensures lines[i].operation != lines[j].operation
  {
    AcceptedHeld(lines[..j], i);
    assert Follows(Fold(lines[..j]), lines[j]);
  }

  // ---------------------------------------------------------------------------------------------
  // Runs
  // ---------------------------------------------------------------------------------------------

  /** A handler past its decision, then past its read of the offset. */
  datatype Task = Waiting(operation: string, input: Input) | Located(operation: string, input: Input, offset: nat)

  /** A `Produced` answer. */
  datatype Answer = Answer(operation: string, input: Input, offset: nat)

  /** The disk, the live process's memory and handlers, and every answer given so far. */
  datatype World = World(file: string, live: Option<Memory>, tasks: set<Task>, answers: seq<Answer>)

  datatype Event =
    | Decide(operation: string, input: Input)
    | Locate(operation: string, input: Input)
    | Finish(operation: string, input: Input, offset: nat)
    | Resume(operation: string)
    | Crash(line: LogLine, written: nat)
    | Open

  const Start := World("", None, {}, [])

  /** The line a live process may be writing when it stops: a decision's, a handler's completion, an open's. */
  predicate MayWrite(w: World, line: LogLine) {
    && w.live.Some?
    && var m := w.live.value;
       match line
       case Accepted(operation, topic, record, _) =>
           operation !in m.operations && line == AcceptedLine(m, operation, Input(topic, record))
       case Completed(operation, offset) =>
         m.Pending(operation) &&
         ((exists t :: t in w.tasks && t.Located? && t.operation == operation && t.offset == offset)
          || (operation in m.offsets && m.offsets[operation] == offset))
  }

  function Written(c: Codec<LogLine>, w: World, line: LogLine): World
    requires w.live.Some?
  {
    w.(file := w.file + Line(c, line), live := Some(FoldLine(w.live.value, line)))
  }

  /** One event; an event that cannot happen leaves the world as it is. */
  function Next(c: Codec<LogLine>, w: World, e: Event): World {
    match e
    case Decide(operation, input) =>
      if w.live.None? then w
      else
        var m, tasks := w.live.value, w.tasks + {Waiting(operation, input)};
        (match Decided(m, operation, input)
         case IsRecorded => Written(c, w, AcceptedLine(m, operation, input)).(tasks := tasks)
         case InFlight => w.(tasks := tasks)
         case IsCompleted(offset) => w.(answers := w.answers + [Answer(operation, input, offset)])
         case Conflict => w)
    case Locate(operation, input) =>
      if Waiting(operation, input) in w.tasks && w.live.Some? && operation in w.live.value.offsets
      then w.(tasks :=
          w.tasks - {Waiting(operation, input)} + {Located(operation, input, w.live.value.offsets[operation])})
      else w
    case Finish(operation, input, offset) =>
      if Located(operation, input, offset) !in w.tasks || w.live.None? then w
      else
        var w' := if w.live.value.Pending(operation) then Written(c, w, Completed(operation, offset)) else w;
        w'.(tasks := w.tasks - {Located(operation, input, offset)}, answers :=
            w.answers + [Answer(operation, input, offset)])
    case Resume(operation) =>
      if w.live.Some? && w.live.value.Pending(operation) && operation in w.live.value.offsets
      then Written(c, w, Completed(operation, w.live.value.offsets[operation]))
      else w
    case Crash(line, written) =>
      if w.live.None? then w
      else
        var torn := if MayWrite(w, line) && written <= |Line(c, line)| then Line(c, line)[..written] else "";
        w.(file := w.file + torn, live := None, tasks := {})
    case Open =>
      var lines := Entries(c, w.file);
      if w.live.Some? || lines.Err? then w
      else w.(file := w.file[..Whole(w.file)], live := Some(Fold(lines.value)))
  }

  function After(c: Codec<LogLine>, events: seq<Event>): World {
    if events == [] then Start else Next(c, After(c, events[..|events| - 1]), events[|events| - 1])
  }

  /** The whole lines on disk. */
  function Lines(c: Codec<LogLine>, w: World): seq<LogLine> {
    if Entries(c, w.file).Ok? then Entries(c, w.file).value else []
  }

  /** `m` holds `operation` for `input` at `offset`. */
  ghost predicate Has(m: Memory, operation: string, input: Input, offset: nat) {
    operation in m.operations && m.operations[operation].input == input && operation in m.offsets
        && m.offsets[operation] == offset
  }

  /** The answer's operation is completed at its offset. */
  ghost predicate Stands(m: Memory, a: Answer) {
    Has(m, a.operation, a.input, a.offset) && m.operations[a.operation].output == Some(a.offset)
  }

  ghost predicate Sane(m: Memory, t: Task) {
    match t
    case Waiting(operation, input) => operation in m.operations && m.operations[operation].input == input
    case Located(operation, input, offset) => Has(m, operation, input, offset)
  }

  /** The disk's whole lines are serialised and the memory is their fold; handlers and answers agree with them. */
  ghost predicate Inv(c: Codec<LogLine>, w: World, lines: seq<LogLine>) {
    && Entries(c, w.file) == Ok(lines) && Serial(lines)
    && (w.live.Some? ==> Whole(w.file) == |w.file| && w.live.value == Fold(lines))
    && (w.live.None? ==> w.tasks == {} && Holds(c, w.file[..Whole(w.file)], lines))
    && (forall t :: t in w.tasks ==> Sane(Fold(lines), t))
    && (forall a :: a in w.answers ==> Stands(Fold(lines), a))
  }

  lemma KeepsSane(a: Memory, b: Memory, t: Task)
    requires Keeps(a, b) && Sane(a, t)
    ensures Sane(b, t)
  {
  }

  lemma KeepsStands(a: Memory, b: Memory, x: Answer)
    requires Keeps(a, b) && Stands(a, x)
    ensures Stands(b, x)
  {
  }

  /** A serialised write by a live process. */
  lemma WriteKeeps(c: Codec<LogLine>, w: World, lines: seq<LogLine>, line: LogLine)
    requires Sound(c) && Inv(c, w, lines) && w.live.Some? && Follows(w.live.value, line)
    ensures Inv(c, Written(c, w, line), lines + [line])
  {
    hide Whole, Entries, Follows, FoldLine, Fold, Sane, Stands, Keeps, Serial;
    AppendHolds(c, w.file, lines, line);
    FoldNext(lines, line);
    SerialNext(lines, line);
    FollowsKeeps(Fold(lines), line);
    forall t | t in w.tasks ensures Sane(Fold(lines + [line]), t) { KeepsSane(Fold(lines), Fold(lines + [line]), t); }
    forall a | a in w.answers ensures Stands(Fold(lines + [line]), a) {
      KeepsStands(Fold(lines), Fold(lines + [line]), a);
    }
  }

  lemma MayWriteFollows(c: Codec<LogLine>, w: World, lines: seq<LogLine>, line: LogLine)
    requires Inv(c, w, lines) && MayWrite(w, line)
    ensures Follows(w.live.value, line)
  {
    hide Whole, Entries, Serial, Fold, FoldLine;
  }

  /** A crash, mid-line or between lines, then whatever it left cut at the next open. */
  lemma CrashKeeps(c: Codec<LogLine>, w: World, lines: seq<LogLine>, line: LogLine, written: nat)
      returns (kept: seq<LogLine>)
    requires Sound(c) && Inv(c, w, lines) && w.live.Some?
    ensures lines <= kept && Inv(c, Next(c, w, Crash(line, written)), kept)
  {
    hide Whole, Entries, Follows, FoldLine, Fold, Sane, Stands, Serial, MayWrite;
    if MayWrite(w, line) && written <= |Line(c, line)| {
      MayWriteFollows(c, w, lines, line);
      TornAtAnyPoint(c, w.file, lines, line, written);
      if written == |Line(c, line)| {
        kept := lines + [line];
        WriteKeeps(c, w, lines, line);
      } else {
        kept := lines;
      }
    } else {
      kept := lines;
      assert w.file + "" == w.file && w.file[..|w.file|] == w.file;
    }
  }

  lemma OpenKeeps(c: Codec<LogLine>, w: World, lines: seq<LogLine>)
    requires Inv(c, w, lines)
    ensures Inv(c, Next(c, w, Open), lines)
  {
    hide Whole, Entries, FoldLine, Fold, Sane, Stands, Serial;
  }

  lemma DecideKeeps(c: Codec<LogLine>, w: World, lines: seq<LogLine>, operation: string, input: Input)
      returns (kept: seq<LogLine>)
    requires Sound(c) && Inv(c, w, lines)
    ensures lines <= kept && Inv(c, Next(c, w, Decide(operation, input)), kept)
  {
    hide Whole, Entries, Fold, Serial, Stands;
    kept := lines;
    if w.live.Some? {
      var m := w.live.value;
      match Decided(m, operation, input) {
        case IsRecorded =>
          var line := AcceptedLine(m, operation, input);
          kept := lines + [line];
          WriteKeeps(c, w, lines, line);
          FoldNext(lines, line);
        case IsCompleted(offset) =>
          SerialPlaces(lines, operation);
          PlacedStands(m, operation);
        case _ =>
      }
    }
  }

  lemma PlacedStands(m: Memory, operation: string)
    requires Placed(m, operation) && m.operations[operation].output.Some?
    ensures m.operations[operation].output == Some(m.offsets[operation])
    ensures Stands(m, Answer(operation, m.operations[operation].input, m.offsets[operation]))
  {
  }

  lemma LocateKeeps(c: Codec<LogLine>, w: World, lines: seq<LogLine>, operation: string, input: Input)
    requires Inv(c, w, lines)
    ensures Inv(c, Next(c, w, Locate(operation, input)), lines)
  {
    hide Whole, Entries, Fold, Serial, Stands;
  }

  lemma FinishKeeps(c: Codec<LogLine>, w: World, lines: seq<LogLine>, operation: string, input: Input, offset: nat)
      returns (kept: seq<LogLine>)
    requires Sound(c) && Inv(c, w, lines)
    ensures lines <= kept && Inv(c, Next(c, w, Finish(operation, input, offset)), kept)
  {
    hide Whole, Entries, Fold, Serial, FoldLine, Stands;
    kept := lines;
    if Located(operation, input, offset) in w.tasks && w.live.Some? {
      assert Sane(Fold(lines), Located(operation, input, offset));
      if w.live.value.Pending(operation) {
        var line := Completed(operation, offset);
        HasFollows(w.live.value, operation, input, offset);
        kept := lines + [line];
        WriteKeeps(c, w, lines, line);
        FoldNext(lines, line);
        FinishedStands(Fold(lines), operation, input, offset);
      } else {
        SerialPlaces(lines, operation);
        HasPlaced(Fold(lines), operation, input, offset);
      }
    }
  }

  lemma FinishedStands(m: Memory, operation: string, input: Input, offset: nat)
    requires Has(m, operation, input, offset)
    ensures Stands(FoldLine(m, Completed(operation, offset)), Answer(operation, input, offset))
  {
  }

  lemma HasPlaced(m: Memory, operation: string, input: Input, offset: nat)
    requires Has(m, operation, input, offset) && Placed(m, operation) && !m.Pending(operation)
    ensures Stands(m, Answer(operation, input, offset))
  {
  }

  lemma HasFollows(m: Memory, operation: string, input: Input, offset: nat)
    requires m.Pending(operation) && Has(m, operation, input, offset)
    ensures Follows(m, Completed(operation, offset))
  {
  }

  lemma ResumeKeeps(c: Codec<LogLine>, w: World, lines: seq<LogLine>, operation: string) returns (kept: seq<LogLine>)
    requires Sound(c) && Inv(c, w, lines)
    ensures lines <= kept && Inv(c, Next(c, w, Resume(operation)), kept)
  {
    hide Whole, Entries, Fold, Serial, Stands, Sane, FoldLine, Inv;
    kept := lines;
    if w.live.Some? && w.live.value.Pending(operation) && operation in w.live.value.offsets {
      var line := Completed(operation, w.live.value.offsets[operation]);
      kept := lines + [line];
      WriteKeeps(c, w, lines, line);
    }
  }

  /** Every event keeps the invariant and every whole line already on disk. */
  lemma NextKeeps(c: Codec<LogLine>, w: World, lines: seq<LogLine>, e: Event) returns (kept: seq<LogLine>)
    requires Sound(c) && Inv(c, w, lines)
    ensures lines <= kept && Inv(c, Next(c, w, e), kept)
  {
    hide Next, Inv;
    kept := lines;
    match e {
      case Decide(operation, input) => kept := DecideKeeps(c, w, lines, operation, input);
      case Locate(operation, input) => LocateKeeps(c, w, lines, operation, input);
      case Finish(operation, input, offset) => kept := FinishKeeps(c, w, lines, operation, input, offset);
      case Resume(operation) => kept := ResumeKeeps(c, w, lines, operation);
      case Crash(line, written) =>
        if w.live.Some? { kept := CrashKeeps(c, w, lines, line, written); } else { DownStays(c, w, line, written); }
      case Open => OpenKeeps(c, w, lines);
    }
  }

  lemma DownStays(c: Codec<LogLine>, w: World, line: LogLine, written: nat)
    requires w.live.None?
    ensures Next(c, w, Crash(line, written)) == w
  {
  }

  lemma {:induction false} Always(c: Codec<LogLine>, events: seq<Event>)
    requires Sound(c)
    ensures Inv(c, After(c, events), Lines(c, After(c, events)))
  {
    if events == [] {
      assert ""[..0] == "";
    } else {
      hide Next, Fold, Serial, Whole, Entries, Sane, Stands;
      Always(c, events[..|events| - 1]);
      var w := After(c, events[..|events| - 1]);
      var kept := NextKeeps(c, w, Lines(c, w), events[|events| - 1]);
    }
  }

  /** No whole line on disk at any moment of a run is ever lost. */
  lemma {:induction false} NothingLost(c: Codec<LogLine>, events: seq<Event>, n: nat)
    requires Sound(c) && n <= |events|
    ensures Lines(c, After(c, events[..n])) <= Lines(c, After(c, events))
    decreases |events|
  {
    hide Next, Fold, Serial, Whole, Entries, Sane, Stands, After;
    if n == |events| {
      assert events[..n] == events;
    } else {
      var rest := events[..|events| - 1];
      NothingLost(c, rest, n);
      assert rest[..n] == events[..n];
      Always(c, rest);
      var w := After(c, rest);
      AfterLast(c, events);
      var kept := NextKeeps(c, w, Lines(c, w), events[|events| - 1]);
    }
  }

  lemma AfterLast(c: Codec<LogLine>, events: seq<Event>)
    requires events != []
    ensures After(c, events) == Next(c, After(c, events[..|events| - 1]), events[|events| - 1])
  {
  }

  /** At every moment of every run the live memory is the fold of the file's whole lines, and the file ends whole. */
  lemma MemoryIsTheFile(c: Codec<LogLine>, events: seq<Event>)
    requires Sound(c)
    ensures
      var w := After(c, events);
      Entries(c, w.file) == Ok(Lines(c, w))
          && (w.live.Some? ==> Whole(w.file) == |w.file| && w.live.value == Fold(Lines(c, w)))
  {
    hide After;
    Always(c, events);
  }

  /** An operation has at most one accepted line, ever. */
  lemma RecordedOnce(c: Codec<LogLine>, events: seq<Event>, i: nat, j: nat)
    requires Sound(c)
    ensures
      var lines := Lines(c, After(c, events));
      i < j < |lines| && lines[i].Accepted? && lines[j].Accepted? ==> lines[i].operation != lines[j].operation
  {
    hide After, Fold;
    Always(c, events);
    var lines := Lines(c, After(c, events));
    if i < j < |lines| && lines[i].Accepted? && lines[j].Accepted? { AcceptedOnce(lines, i, j); }
  }

  /** Every answer for an operation names the same record at the same offset. */
  lemma OneOffset(c: Codec<LogLine>, events: seq<Event>, a: Answer, b: Answer)
    requires Sound(c) && a in After(c, events).answers && b in After(c, events).answers && a.operation == b.operation
    ensures a == b
  {
    hide After, Fold;
    Always(c, events);
  }

  /** A repeat of an answered produce, at any later moment of a live broker, is answered the same offset at once, and
      nothing is written; under its id, any other input is refused. */
  lemma RepeatAnswered(c: Codec<LogLine>, events: seq<Event>, a: Answer, input: Input)
    requires Sound(c) && a in After(c, events).answers && After(c, events).live.Some?
    ensures
      var w, w' := After(c, events), After(c, events + [Decide(a.operation, input)]);
      if input == a.input then w' == w.(answers := w.answers + [a]) else w' == w
  {
    hide After, Fold;
    Always(c, events);
    AfterNext(c, events, Decide(a.operation, input));
    assert Stands(Fold(Lines(c, After(c, events))), a);
  }

  lemma AfterNext(c: Codec<LogLine>, events: seq<Event>, e: Event)
    ensures After(c, events + [e]) == Next(c, After(c, events), e)
  {
    assert (events + [e])[..|events|] == events;
  }

  /** A stopped broker's open brings back the memory its whole lines fold to, and nothing of a torn one. */
  lemma Reopens(c: Codec<LogLine>, events: seq<Event>)
    requires Sound(c) && After(c, events).live.None?
    ensures
      var w, w' := After(c, events), After(c, events + [Open]);
      w'.live == Some(Fold(Lines(c, w))) && w'.file == w.file[..Whole(w.file)] && w'.answers == w.answers
  {
    hide After, Fold, Whole, Entries;
    Always(c, events);
    AfterNext(c, events, Open);
  }

  /** A produce run to its end at a live broker, its operation not held with another input, is answered its offset. */
  lemma RunsToItsAnswer(c: Codec<LogLine>, events: seq<Event>, operation: string, input: Input) returns (offset: nat)
    requires Sound(c) && After(c, events).live.Some?
    requires
      var m := After(c, events).live.value;
      operation in m.operations ==> m.operations[operation].input == input
    ensures Answer(operation, input, offset) in After(c,
        events + [Decide(operation, input)] + [Locate(operation, input)] + [Finish(operation, input, offset)]).answers
  {
    hide After, Fold, Inv, Entries, Whole;
    var decided := events + [Decide(operation, input)];
    var located := decided + [Locate(operation, input)];
    AfterNext(c, events, Decide(operation, input));
    var m := After(c, events).live.value;
    Always(c, events);
    MemoryLocated(c, After(c, events), Lines(c, After(c, events)));
    offset := if operation !in m.operations then |m.Topic(input.topic)|
        else if m.operations[operation].output.Some? then m.operations[operation].output.value
        else m.offsets[operation];
    AfterNext(c, decided, Locate(operation, input));
    AfterNext(c, located, Finish(operation, input, offset));
  }

  lemma MemoryLocated(c: Codec<LogLine>, w: World, lines: seq<LogLine>)
    requires Inv(c, w, lines) && w.live.Some?
    ensures w.live.value.Located()
  {
  }

  /** A produce no line of the log names is accepted at its topic's end, whatever came before. */
  lemma NewAccepted(c: Codec<LogLine>, events: seq<Event>, operation: string, input: Input)
    requires Sound(c) && After(c, events).live.Some?
    requires forall line :: line in Lines(c, After(c, events)) ==> line.operation != operation
    ensures
      var w := After(c, events);
      Lines(c, After(c, events + [Decide(operation, input)])) ==
        Lines(c, w) + [Accepted(operation, input.topic, input.record, |w.live.value.Topic(input.topic)|)]
  {
    hide After, Fold, Serial, Whole, Entries, Sane, Stands, FoldLine;
    Always(c, events);
    AfterNext(c, events, Decide(operation, input));
    var w := After(c, events);
    NotHeld(Lines(c, w), operation);
    AppendHolds(c, w.file, Lines(c, w), AcceptedLine(w.live.value, operation, input));
  }

  lemma {:induction false} NotHeld(lines: seq<LogLine>, operation: string)
    requires forall line :: line in lines ==> line.operation != operation
    ensures operation !in Fold(lines).operations
  {
    if lines != [] { NotHeld(lines[..|lines| - 1], operation); }
  }

  /** From its answer on, at every later moment, a fetch at the offset starts with the record. */
  lemma FetchedForever(c: Codec<LogLine>, events: seq<Event>, n: nat, a: Answer, max: nat)
    requires Sound(c) && n <= |events| && a in After(c, events[..n]).answers && max > 0
    ensures a in After(c, events).answers
    ensures
      var records := Fold(Lines(c, After(c, events))).Topic(a.input.topic);
      |records| <= U64_MAX ==>
        var page := Page(records, a.offset, max).0;
        page != [] && page[0] == (a.offset, a.input.record)
  {
    hide After, Fold;
    AnswersStay(c, events, n, a);
    Always(c, events);
    var m := Fold(Lines(c, After(c, events)));
    assert Stands(m, a);
    SerialPlaces(Lines(c, After(c, events)), a.operation);
  }

  lemma {:induction false} AnswersStay(c: Codec<LogLine>, events: seq<Event>, n: nat, a: Answer)
    requires n <= |events| && a in After(c, events[..n]).answers
    ensures a in After(c, events).answers
    decreases |events|
  {
    hide Fold, FoldLine, Whole, Entries, MayWrite, Decided;
    if n == |events| {
      assert events[..n] == events;
    } else {
      assert events[..|events| - 1][..n] == events[..n];
      AnswersStay(c, events[..|events| - 1], n, a);
    }
  }

  // ---------------------------------------------------------------------------------------------
  // Accepts that are not serialised
  // ---------------------------------------------------------------------------------------------

  predicate AcceptsIn(line: LogLine, topic: string) { line.Accepted? && line.topic == topic }

  ghost predicate Quiet(between: seq<LogLine>, topic: string) { forall i ::
      0 <= i < |between| ==> !AcceptsIn(between[i], topic) }

  lemma TopicGrows(m: Memory, line: LogLine, topic: string)
    ensures |FoldLine(m, line).Topic(topic)| == |m.Topic(topic)| + if AcceptsIn(line, topic) then 1 else 0
  {
  }

  /** An offset taken before `between` was appended is still the topic's next exactly when nothing of the topic was
      accepted between: what the one decision at a time ensures. */
  lemma {:induction false} OffsetStandsExactly(lines: seq<LogLine>, between: seq<LogLine>, topic: string)
    ensures |Fold(lines + between).Topic(topic)| >= |Fold(lines).Topic(topic)|
    ensures |Fold(lines + between).Topic(topic)| == |Fold(lines).Topic(topic)| <==> Quiet(between, topic)
  {
    hide Fold, FoldLine, AcceptsIn, Memory.Topic;
    if between == [] {
      assert lines + between == lines;
    } else {
      var rest, last := between[..|between| - 1], between[|between| - 1];
      OffsetStandsExactly(lines, rest, topic);
      TopicGrows(Fold(lines + rest), last, topic);
      assert Quiet(between, topic) <==> Quiet(rest, topic) && !AcceptsIn(last, topic) by {
        if Quiet(rest, topic) { assert forall i :: 0 <= i < |rest| ==> between[i] == rest[i]; }
        if Quiet(between, topic) { assert forall i :: 0 <= i < |rest| ==> rest[i] == between[i]; }
      }
      assert lines + between == (lines + rest) + [last];
      FoldNext(lines + rest, last);
    }
  }

  /** Two accepts that both took the topic's length before either appended: a fetch at the second's offset gives the
      first's record. */
  lemma UnserialisedClash()
    ensures
      var a := AcceptedLine(Fold([]), "a", Input("t", "first"));
      var b := AcceptedLine(Fold([]), "b", Input("t", "second"));
      var m := Fold([a, b]);
      m.offsets["b"] == 0 && m.Topic("t") == ["first", "second"]
          && Page(m.Topic("t"), m.offsets["b"], 1).0 == [(0, "first")]
  {
    var a := AcceptedLine(Fold([]), "a", Input("t", "first"));
    var b := AcceptedLine(Fold([]), "b", Input("t", "second"));
    FoldNext([], a);
    FoldNext([a], b);
    assert [] + [a] == [a] && [a] + [b] == [a, b];
    var m := Fold([a, b]);
    assert m.Topic("t") == [] + ["first"] + ["second"] == ["first", "second"];
  }

  /** A read gives the records from its start up to its bound or the topic's end, each at its offset, and the next one
      starts where it ended: reads in turn give every record once, in order. Past the end there is nothing, and the next
      read starts at the end. */
  lemma PagesCover(records: seq<string>, from: nat, max: nat)
    requires |records| <= U64_MAX
    ensures
      var (page, next) := Page(records, from, max);
      && (from > |records| ==> page == [] && next == |records|)
      && (from <= |records| ==>
          && next == (if from + max < |records| then from + max else |records|) && |page| == next - from
          && forall i :: 0 <= i < |page| ==> page[i] == (from + i, records[from + i]))
  {
  }
}
