/** Every run of the consumer's service over its record: submits, works that end, resumes, crashes that tear an entry at
    any point, and opens. */
module ConsumerRuns {
  import opened Model
  import opened Journal
  import opened ConsumerRecord

  /** The disk, the live process's memory, and the operations whose work runs in it. */
  datatype World = World(file: string, live: Option<Operations>, running: set<string>)

  datatype Event =
    | Submit(operation: string, input: string)
    | End(operation: string)
    | Resume
    | Crash(entry: Entry, written: nat)
    | Open

  const Start := World("", None, {})

  /** The entry a live process may be writing when it stops: a new operation's, or the end of a work that runs. */
  predicate MayWrite(work: string -> string, w: World, e: Entry) {
    && w.live.Some?
    && match e
       case Accepted(operation, _) => operation !in w.live.value
       case Completed(operation, output) =>
         operation in w.running && Unfinished(w.live.value, operation) && output == work(w.live.value[operation].input)
  }

  function Written(c: Codec<Entry>, w: World, e: Entry): World
    requires w.live.Some?
  {
    w.(file := w.file + Line(c, e), live := Some(FoldEntry(w.live.value, e)))
  }

  /** One event; an event that cannot happen leaves the world as it is. */
  function Next(c: Codec<Entry>, work: string -> string, w: World, e: Event): World {
    match e
    case Submit(operation, input) =>
      if w.live.None? || !Decided(w.live.value, operation, input).IsRecorded? then w
      else Written(c, w, Accepted(operation, input)).(running := w.running + {operation})
    case End(operation) =>
      if w.live.None? || operation !in w.running then w
      else
        var w' := if Unfinished(w.live.value, operation)
                  then Written(c, w, Completed(operation, work(w.live.value[operation].input)))
                  else w;
        w'.(running := w.running - {operation})
    case Resume =>
      if w.live.None? then w
      else w.(running := w.running + set operation | operation in w.live.value && Unfinished(w.live.value, operation))
    case Crash(entry, written) =>
      if w.live.None? then w
      else
        var torn := if MayWrite(work, w, entry) && written <= |Line(c, entry)| then Line(c, entry)[..written] else "";
        World(w.file + torn, None, {})
    case Open =>
      var entries := Entries(c, w.file);
      if w.live.Some? || entries.Err? then w
      else w.(file := w.file[..Whole(w.file)], live := Some(Fold(entries.value)))
  }

  function After(c: Codec<Entry>, work: string -> string, events: seq<Event>): World {
    if events == [] then Start else Next(c, work, After(c, work, events[..|events| - 1]), events[|events| - 1])
  }

  /** The whole entries on disk. */
  function Recorded(c: Codec<Entry>, w: World): seq<Entry> {
    if Entries(c, w.file).Ok? then Entries(c, w.file).value else []
  }

  ghost predicate Inv(c: Codec<Entry>, work: string -> string, w: World, entries: seq<Entry>) {
    && Entries(c, w.file) == Ok(entries) && Serial(work, entries)
    && (w.live.Some? ==> Whole(w.file) == |w.file| && w.live.value == Fold(entries))
    && (w.live.None? ==> w.running == {} && Holds(c, w.file[..Whole(w.file)], entries))
    && (forall operation :: operation in w.running ==> Unfinished(Fold(entries), operation))
  }

  /** A write by a live process, of an operation whose work has stopped running. */
  lemma WriteKeeps(c: Codec<Entry>, work: string -> string, w: World, entries: seq<Entry>, e: Entry)
    requires Sound(c) && Inv(c, work, w, entries) && w.live.Some? && Follows(work, w.live.value, e)
    requires e.Completed? ==> e.operation !in w.running
    ensures Inv(c, work, Written(c, w, e), entries + [e])
  {
    hide Whole, Entries, Fold, Serial;
    AppendHolds(c, w.file, entries, e);
    FoldNext(entries, e);
    SerialNext(work, entries, e);
  }

  lemma MayWriteFollows(work: string -> string, w: World, e: Entry)
    requires MayWrite(work, w, e)
    ensures Follows(work, w.live.value, e)
  {
  }

  lemma CrashKeeps(c: Codec<Entry>, work: string -> string, w: World, entries: seq<Entry>, e: Entry, written: nat)
      returns (kept: seq<Entry>)
    requires Sound(c) && Inv(c, work, w, entries) && w.live.Some?
    ensures entries <= kept && Inv(c, work, Next(c, work, w, Crash(e, written)), kept)
  {
    hide Whole, Entries, Follows, FoldEntry, Fold, Serial, MayWrite;
    kept := entries;
    if MayWrite(work, w, e) && written <= |Line(c, e)| {
      MayWriteFollows(work, w, e);
      TornAtAnyPoint(c, w.file, entries, e, written);
      if written == |Line(c, e)| {
        kept := entries + [e];
        SerialNext(work, entries, e);
      }
    } else {
      assert w.file + "" == w.file && w.file[..|w.file|] == w.file;
    }
  }

  lemma SubmitKeeps(c: Codec<Entry>, work: string -> string, w: World, entries: seq<Entry>, operation: string,
      input: string) returns (kept: seq<Entry>)
    requires Sound(c) && Inv(c, work, w, entries)
    ensures entries <= kept && Inv(c, work, Next(c, work, w, Submit(operation, input)), kept)
  {
    hide Whole, Entries, Fold, Serial;
    kept := entries;
    if w.live.Some? && Decided(w.live.value, operation, input).IsRecorded? {
      var e := Accepted(operation, input);
      kept := entries + [e];
      WriteKeeps(c, work, w, entries, e);
      FoldNext(entries, e);
    }
  }

  lemma EndKeeps(c: Codec<Entry>, work: string -> string, w: World, entries: seq<Entry>, operation: string)
      returns (kept: seq<Entry>)
    requires Sound(c) && Inv(c, work, w, entries)
    ensures entries <= kept && Inv(c, work, Next(c, work, w, End(operation)), kept)
  {
    hide Whole, Entries, Fold, Serial;
    kept := entries;
    if w.live.Some? && operation in w.running {
      var e := Completed(operation, work(w.live.value[operation].input));
      kept := entries + [e];
      WriteKeeps(c, work, w.(running := w.running - {operation}), entries, e);
    }
  }

  lemma ResumeKeeps(c: Codec<Entry>, work: string -> string, w: World, entries: seq<Entry>)
    requires Inv(c, work, w, entries)
    ensures Inv(c, work, Next(c, work, w, Resume), entries)
    ensures w.live.Some? ==>
        forall operation :: operation in Next(c, work, w, Resume).running <==> Unfinished(w.live.value, operation)
  {
    hide Whole, Entries, Fold, Serial;
  }

  lemma OpenKeeps(c: Codec<Entry>, work: string -> string, w: World, entries: seq<Entry>)
    requires Inv(c, work, w, entries)
    ensures Inv(c, work, Next(c, work, w, Open), entries)
  {
    hide Whole, Entries, Fold, Serial;
  }

  lemma NextKeeps(c: Codec<Entry>, work: string -> string, w: World, entries: seq<Entry>, e: Event)
      returns (kept: seq<Entry>)
    requires Sound(c) && Inv(c, work, w, entries)
    ensures entries <= kept && Inv(c, work, Next(c, work, w, e), kept)
  {
    hide Next, Inv;
    kept := entries;
    match e {
      case Submit(operation, input) => kept := SubmitKeeps(c, work, w, entries, operation, input);
      case End(operation) => kept := EndKeeps(c, work, w, entries, operation);
      case Resume => ResumeKeeps(c, work, w, entries);
      case Crash(entry, written) =>
        if w.live.Some? { kept := CrashKeeps(c, work, w, entries, entry, written); }
            else { DownStays(c, work, w, entry, written); }
      case Open => OpenKeeps(c, work, w, entries);
    }
  }

  lemma DownStays(c: Codec<Entry>, work: string -> string, w: World, e: Entry, written: nat)
    requires w.live.None?
    ensures Next(c, work, w, Crash(e, written)) == w
  {
  }

  lemma {:induction false} Always(c: Codec<Entry>, work: string -> string, events: seq<Event>)
    requires Sound(c)
    ensures Inv(c, work, After(c, work, events), Recorded(c, After(c, work, events)))
  {
    if events == [] {
      assert ""[..0] == "";
    } else {
      hide Next, Fold, Serial, Whole, Entries;
      Always(c, work, events[..|events| - 1]);
      var w := After(c, work, events[..|events| - 1]);
      var kept := NextKeeps(c, work, w, Recorded(c, w), events[|events| - 1]);
    }
  }

  /** No whole entry on disk at any moment of a run is ever lost. */
  lemma {:induction false} NothingLost(c: Codec<Entry>, work: string -> string, events: seq<Event>, n: nat)
    requires Sound(c) && n <= |events|
    ensures Recorded(c, After(c, work, events[..n])) <= Recorded(c, After(c, work, events))
    decreases |events|
  {
    hide Next, Fold, Serial, Whole, Entries, After;
    if n == |events| {
      assert events[..n] == events;
    } else {
      var rest := events[..|events| - 1];
      NothingLost(c, work, rest, n);
      assert rest[..n] == events[..n];
      Always(c, work, rest);
      AfterLast(c, work, events);
      var kept := NextKeeps(c, work, After(c, work, rest), Recorded(c, After(c, work, rest)), events[|events| - 1]);
    }
  }

  lemma AfterLast(c: Codec<Entry>, work: string -> string, events: seq<Event>)
    requires events != []
    ensures After(c, work, events) == Next(c, work, After(c, work, events[..|events| - 1]), events[|events| - 1])
  {
  }

  /** At every moment of every run the live memory is the fold of the file's whole entries, and only pending work runs.
      */
  lemma MemoryIsTheRecord(c: Codec<Entry>, work: string -> string, events: seq<Event>)
    requires Sound(c)
    ensures
      var w := After(c, work, events);
      && Entries(c, w.file) == Ok(Recorded(c, w))
      && (w.live.Some? ==> Whole(w.file) == |w.file| && w.live.value == Fold(Recorded(c, w)))
      && forall operation :: operation in w.running ==> Unfinished(Fold(Recorded(c, w)), operation)
  {
    hide After, Fold;
    Always(c, work, events);
  }

  /** Over every run an operation is accepted once and completed once, and its output is its work on the input it was
      accepted with, however often it is submitted, resumed or cut off. */
  lemma WorkedOnce(c: Codec<Entry>, work: string -> string, events: seq<Event>)
    requires Sound(c)
    ensures
      var entries := Recorded(c, After(c, work, events));
      && (forall i, j ::
          0 <= i < j < |entries| && entries[i].operation == entries[j].operation ==>
            entries[i].Accepted? && entries[j].Completed?)
      && (forall x ::
          x in Fold(entries) && Fold(entries)[x].output.Some? ==>
            Fold(entries)[x].output.value == work(Fold(entries)[x].input))
  {
    hide After, Fold;
    Always(c, work, events);
    var entries := Recorded(c, After(c, work, events));
    forall i, j | 0 <= i < j < |entries| && entries[i].operation == entries[j].operation ensures entries[i].Accepted?
        && entries[j].Completed? {
      EachOnce(work, entries, i, j);
    }
    forall x | x in Fold(entries) && Fold(entries)[x].output.Some?
        ensures Fold(entries)[x].output.value == work(Fold(entries)[x].input) {
      OutputIsTheWork(work, entries, x);
    }
  }

  /** At any moment of a live run, a repeat of a completed operation is answered its work on its input and starts
      nothing; under its id, any other input is refused. */
  lemma RepeatsAnswered(c: Codec<Entry>, work: string -> string, events: seq<Event>, operation: string, held: string,
      output: string, input: string)
    requires Sound(c) && After(c, work, events).live.Some?
    requires Accepted(operation, held) in Recorded(c, After(c, work, events))
    requires Completed(operation, output) in Recorded(c, After(c, work, events))
    ensures
      var w := After(c, work, events);
      && Decided(w.live.value, operation, input) == (if input == held then IsCompleted(work(input)) else Conflict)
      && Next(c, work, w, Submit(operation, input)) == w
  {
    hide After, Fold, Serial;
    Always(c, work, events);
    var entries := Recorded(c, After(c, work, events));
    var i :| 0 <= i < |entries| && entries[i] == Accepted(operation, held);
    var j :| 0 <= j < |entries| && entries[j] == Completed(operation, output);
    RepeatAnswered(work, entries, i, j, input);
  }

  lemma AfterNext(c: Codec<Entry>, work: string -> string, events: seq<Event>, e: Event)
    ensures After(c, work, events + [e]) == Next(c, work, After(c, work, events), e)
  {
    assert (events + [e])[..|events|] == events;
  }

  /** A stopped service's open brings back the memory its whole entries fold to, with nothing running; a resume then
      runs exactly what is accepted and not completed. */
  lemma ReopensAndResumes(c: Codec<Entry>, work: string -> string, events: seq<Event>, operation: string)
    requires Sound(c) && After(c, work, events).live.None?
    ensures
      var w, back := After(c, work, events), After(c, work, events + [Open]);
      && back.live == Some(Fold(Recorded(c, w))) && back.running == {}
      && (operation in After(c, work, events + [Open] + [Resume]).running <==> Unfinished(back.live.value, operation))
  {
    hide After, Fold, Whole, Entries;
    Always(c, work, events);
    AfterNext(c, work, events, Open);
    AfterNext(c, work, events + [Open], Resume);
  }

  /** A new operation is recorded when it is submitted to a live service, and its work's end records its output. */
  lemma WorkedToItsEnd(c: Codec<Entry>, work: string -> string, events: seq<Event>, operation: string, input: string)
    requires Sound(c) && After(c, work, events).live.Some? && operation !in After(c, work, events).live.value
    ensures
      var w := After(c, work, events);
      Recorded(c, After(c, work, events + [Submit(operation, input)] + [End(operation)])) ==
        Recorded(c, w) + [Accepted(operation, input), Completed(operation, work(input))]
  {
    hide After, Fold, Serial, Whole, Entries;
    Always(c, work, events);
    var submitted := events + [Submit(operation, input)];
    AfterNext(c, work, events, Submit(operation, input));
    AfterNext(c, work, submitted, End(operation));
    var w := After(c, work, events);
    var entries := Recorded(c, w);
    AppendHolds(c, w.file, entries, Accepted(operation, input));
    var file := w.file + Line(c, Accepted(operation, input));
    AppendHolds(c, file, entries + [Accepted(operation, input)], Completed(operation, work(input)));
    assert entries + [Accepted(operation, input)] + [Completed(operation, work(input))] ==
        entries + [Accepted(operation, input), Completed(operation, work(input))];
  }
}
