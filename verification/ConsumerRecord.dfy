/** The consumer's durable record of its operations, a journal folded in memory, and the work it runs on them. */
module ConsumerRecord {
  import opened Model
  import opened Journal

  datatype Entry = Accepted(operation: string, input: string) | Completed(operation: string, output: string)

  datatype Recorded = Recorded(input: string, output: Option<string>)

  type Operations = map<string, Recorded>

  predicate Unfinished(m: Operations, operation: string) { operation in m && m[operation].output.None? }

  function FoldEntry(m: Operations, e: Entry): Operations {
    match e
    case Accepted(operation, input) => if operation in m then m else m[operation := Recorded(input, None)]
    case Completed(operation, output) =>
      if operation in m then m[operation := m[operation].(output := Some(output))] else m
  }

  function Fold(entries: seq<Entry>): Operations {
    if entries == [] then map[] else FoldEntry(Fold(entries[..|entries| - 1]), entries[|entries| - 1])
  }

  lemma FoldNext(entries: seq<Entry>, e: Entry)
    ensures Fold(entries + [e]) == FoldEntry(Fold(entries), e)
  {
    assert (entries + [e])[..|entries|] == entries;
  }

  const U64_MAX := 0xFFFF_FFFF_FFFF_FFFF

  /** The record's entries from `from`, at most `max`; `Err` with its end when `from` is past it. */
  function EntriesFrom(entries: seq<Entry>, from: nat, max: nat): Result<seq<Entry>, nat> {
    var end := |entries|;
    var limit := if from + max > U64_MAX then U64_MAX else from + max;
    if from > end then Err(end)
        else Ok(entries[from..if limit < from then from else if limit < end then limit else end])
  }

  /** An entry the service writes next: a new operation, or the work's output of one not completed. */
  predicate Follows(work: string -> string, m: Operations, e: Entry) {
    match e
    case Accepted(operation, _) => operation !in m
    case Completed(operation, output) => Unfinished(m, operation) && output == work(m[operation].input)
  }

  ghost predicate Serial(work: string -> string, entries: seq<Entry>) {
    forall i :: 0 <= i < |entries| ==> Follows(work, Fold(entries[..i]), entries[i])
  }

  lemma SerialNext(work: string -> string, entries: seq<Entry>, e: Entry)
    requires Serial(work, entries) && Follows(work, Fold(entries), e)
    ensures Serial(work, entries + [e])
  {
    hide Follows, Fold;
    var all := entries + [e];
    forall i | 0 <= i < |all| ensures Follows(work, Fold(all[..i]), all[i]) {
      assert all[..i] == entries[..i];
      assert entries[..|entries|] == entries;
    }
  }

  datatype Decision = IsRecorded | InFlight | IsCompleted(output: string) | Conflict

  function Decided(m: Operations, operation: string, input: string): Decision {
    if operation !in m then IsRecorded
    else if m[operation].input != input then Conflict
    else if m[operation].output.Some? then IsCompleted(m[operation].output.value)
    else InFlight
  }

  /** The record in its file and in memory, and the operations whose work runs in this process. */
  class Service {
    const codec: Codec<Entry>
    const work: string -> string
    var file: string
    var entries: seq<Entry>
    var operations: Operations
    var running: set<string>

    /** The file holds the entries whole, memory is their fold, what they say follows, and what runs is pending. */
    ghost predicate Valid()
      reads this
    {
      && Sound(codec) && Holds(codec, file, entries) && operations == Fold(entries) && Serial(work, entries)
      && forall operation :: operation in running ==> Unfinished(operations, operation)
    }

    constructor (codec: Codec<Entry>, work: string -> string, file: string, entries: seq<Entry>, operations: Operations)
      ensures this.codec == codec && this.work == work && this.file == file
      ensures this.entries == entries && this.operations == operations && running == {}
    {
      this.codec, this.work, this.file, this.entries, this.operations, running := codec, work, file, entries,
          operations, {};
    }

    /** Open the file a past process left, its last line cut at any point. */
    static method Open(codec: Codec<Entry>, work: string -> string, text: string) returns (r: Result<Service, nat>)
      requires Sound(codec) && (Entries(codec, text).Ok? ==> Serial(work, Entries(codec, text).value))
      ensures r.Err? <==> Entries(codec, text).Err?
      ensures r.Err? ==> Entries(codec, text) == Err(r.error)
      ensures r.Ok? ==> fresh(r.value) && r.value.codec == codec && r.value.work == work && r.value.Valid()
      ensures r.Ok? ==> r.value.file == text[..Whole(text)] && Ok(r.value.entries) == Entries(codec, text)
    {
      hide Whole, Entries, Fold, FoldEntry, Serial;
      var read, whole := ReadWhole(codec, text);
      if read.Err? { return Err(read.error); }
      var file := text;
      if whole < |text| { file := text[..whole]; }
      CutHolds(codec, text, 1);
      assert text[..|text|] == text;
      var operations := FoldAll(read.value);
      var service := new Service(codec, work, file, read.value, operations);
      return Ok(service);
    }

    /** One entry written, synced and folded. */
    method Append(e: Entry)
      requires Valid() && Follows(work, operations, e) && (e.Completed? ==> e.operation !in running)
      modifies `file, `entries, `operations
      ensures Valid() && entries == old(entries) + [e] && file == old(file) + Line(codec, e)
      ensures operations == FoldEntry(old(operations), e)
    {
      hide Whole, Entries, Fold, Serial;
      AppendHolds(codec, file, entries, e);
      FoldNext(entries, e);
      SerialNext(work, entries, e);
      file := file + (codec.write(e) + "\n");
      operations := FoldEntry(operations, e);
      entries := entries + [e];
    }

    /** A `Submit`: a new operation is recorded and its work starts; a held one is told apart. */
    method Submit(operation: string, input: string) returns (d: Decision)
      requires Valid()
      modifies `file, `entries, `operations, `running
      ensures Valid() && d == Decided(old(operations), operation, input)
      ensures d == Conflict <==> operation in old(operations) && old(operations)[operation].input != input
      ensures d == IsRecorded <==> operation !in old(operations)
      ensures forall output :: d == IsCompleted(output) <==>
          operation in old(operations) && old(operations)[operation] == Recorded(input, Some(output))
      ensures entries == old(entries) + if d.IsRecorded? then [Accepted(operation, input)] else []
      ensures running == old(running) + if d.IsRecorded? then {operation} else {}
    {
      hide Whole, Entries, Fold, Serial;
      assert entries + [] == entries;
      if operation in operations {
        var held := operations[operation];
        if held.input != input { return Conflict; }
        if held.output.Some? { return IsCompleted(held.output.value); }
        return InFlight;
      }
      Append(Accepted(operation, input));
      var _ := StartWork(operation);
      return IsRecorded;
    }

    /** Start an operation's work unless it runs already. */
    method StartWork(operation: string) returns (started: bool)
      requires Valid() && Unfinished(operations, operation)
      modifies `running
      ensures Valid() && started == (operation !in old(running)) && running == old(running) + {operation}
    {
      if operation in running { return false; }
      running := running + {operation};
      return true;
    }

    /** The work of `operation` ends: its completion is recorded. */
    method EndWork(operation: string)
      requires Valid() && operation in running
      modifies `file, `entries, `operations, `running
      ensures Valid() && running == old(running) - {operation} && operation in old(operations)
      ensures entries == old(entries) + [Completed(operation, work(old(operations)[operation].input))]
      ensures !Unfinished(operations, operation)
    {
      hide Whole, Entries, Fold, Serial;
      running := running - {operation};
      Append(Completed(operation, work(operations[operation].input)));
    }

    /** Start the work of every operation accepted and not completed; how many it started. */
    method Resume() returns (started: nat)
      requires Valid()
      modifies `running
      ensures Valid() && (forall operation :: operation in running <==> Unfinished(operations, operation))
      ensures started == |running| - |old(running)|
    {
      hide Valid, Names, Unfinished;
      started := 0;
      var names := Names(operations.Keys);
      for i := 0 to |names|
        invariant Valid() && old(running) <= running && started == |running| - |old(running)|
        invariant forall k :: 0 <= k < i && Unfinished(operations, names[k]) ==> names[k] in running
      {
        if Unfinished(operations, names[i]) {
          var began := StartWork(names[i]);
          if began { started := started + 1; }
        }
      }
      forall operation | Unfinished(operations, operation) ensures operation in running {
        UnfinishedHeld(operations, operation);
        assert operation in names;
      }
      RunningUnfinished();
    }

    lemma RunningUnfinished()
      requires Valid()
      ensures forall operation :: operation in running ==> Unfinished(operations, operation)
    {
    }
  }

  lemma UnfinishedHeld(m: Operations, operation: string)
    requires Unfinished(m, operation)
    ensures operation in m
  {
  }

  method FoldAll(entries: seq<Entry>) returns (m: Operations)
    ensures m == Fold(entries)
  {
    hide FoldEntry;
    m := map[];
    for i := 0 to |entries|
      invariant m == Fold(entries[..i])
    {
      FoldNext(entries[..i], entries[i]);
      assert entries[..i + 1] == entries[..i] + [entries[i]];
      m := FoldEntry(m, entries[i]);
    }
    assert entries[..|entries|] == entries;
  }

  // ---------------------------------------------------------------------------------------------
  // Crashes, and what every record says
  // ---------------------------------------------------------------------------------------------

  /** A record torn at any point of any entry it may have been writing reopens as one its process wrote, nothing before
      that entry lost. */
  lemma TornReopens(c: Codec<Entry>, work: string -> string, file: string, entries: seq<Entry>, e: Entry, k: nat)
    requires Sound(c) && Holds(c, file, entries) && Serial(work, entries)
    requires Follows(work, Fold(entries), e) && k <= |Line(c, e)|
    ensures
      var left := Entries(c, file + Line(c, e)[..k]);
      left.Ok? && entries <= left.value && Serial(work, left.value)
  {
    hide Whole, Entries, Fold, Follows, Serial;
    TornAtAnyPoint(c, file, entries, e, k);
    SerialNext(work, entries, e);
  }

  lemma {:induction false} Held(entries: seq<Entry>, i: nat)
    requires i < |entries| && entries[i].Accepted?
    ensures entries[i].operation in Fold(entries)
  {
    var n := |entries| - 1;
    if i < n { Held(entries[..n], i); }
  }

  lemma FinishedStays(work: string -> string, m: Operations, e: Entry, operation: string)
    requires Follows(work, m, e)
        && ((operation in m && !Unfinished(m, operation)) || (e.Completed? && e.operation == operation))
    ensures operation in FoldEntry(m, e) && !Unfinished(FoldEntry(m, e), operation)
  {
  }

  lemma FoldLast(entries: seq<Entry>)
    requires entries != []
    ensures Fold(entries) == FoldEntry(Fold(entries[..|entries| - 1]), entries[|entries| - 1])
  {
  }

  lemma {:induction false} NotPendingAgain(work: string -> string, entries: seq<Entry>, i: nat)
    requires Serial(work, entries) && i < |entries| && entries[i].Completed?
    ensures entries[i].operation in Fold(entries) && !Unfinished(Fold(entries), entries[i].operation)
  {
    hide Fold, FoldEntry, Follows, Unfinished;
    var n := |entries| - 1;
    FoldLast(entries);
    if i < n {
      SerialPrefix(work, entries, n);
      NotPendingAgain(work, entries[..n], i);
    }
    FinishedStays(work, Fold(entries[..n]), entries[n], entries[i].operation);
  }

  lemma SerialPrefix(work: string -> string, entries: seq<Entry>, n: nat)
    requires Serial(work, entries) && n <= |entries|
    ensures Serial(work, entries[..n])
  {
    hide Follows, Fold;
    forall i | 0 <= i < n ensures Follows(work, Fold(entries[..n][..i]), entries[..n][i]) {
      assert entries[..n][..i] == entries[..i];
    }
  }

  /** An operation is accepted once and completed once, however often it is submitted, resumed or cut off. */
  lemma EachOnce(work: string -> string, entries: seq<Entry>, i: nat, j: nat)
    requires Serial(work, entries) && i < j < |entries| && entries[i].operation == entries[j].operation
    ensures entries[i].Accepted? && entries[j].Completed?
  {
    hide Fold;
    assert Follows(work, Fold(entries[..j]), entries[j]);
    SerialPrefix(work, entries, j);
    if entries[i].Completed? { NotPendingAgain(work, entries[..j], i); } else { Held(entries[..j], i); }
  }

  /** A completed operation's output is its work on the input it was accepted with. */
  lemma {:induction false} OutputIsTheWork(work: string -> string, entries: seq<Entry>, operation: string)
    requires Serial(work, entries) && operation in Fold(entries) && Fold(entries)[operation].output.Some?
    ensures Fold(entries)[operation].output.value == work(Fold(entries)[operation].input)
  {
    var n := |entries| - 1;
    assert Follows(work, Fold(entries[..n]), entries[n]);
    SerialPrefix(work, entries, n);
    if operation in Fold(entries[..n]) && Fold(entries[..n])[operation].output.Some? {
      OutputIsTheWork(work, entries[..n], operation);
    }
  }

  lemma {:induction false} HeldInput(work: string -> string, entries: seq<Entry>, i: nat)
    requires Serial(work, entries) && i < |entries| && entries[i].Accepted?
    ensures entries[i].operation in Fold(entries) && Fold(entries)[entries[i].operation].input == entries[i].input
  {
    hide Fold;
    var n := |entries| - 1;
    assert Follows(work, Fold(entries[..n]), entries[n]);
    FoldLast(entries);
    if i < n {
      SerialPrefix(work, entries, n);
      HeldInput(work, entries[..n], i);
    }
  }

  /** A repeat of a completed operation with its input is answered its output, the work on that input; with any other
      input it is refused. */
  lemma RepeatAnswered(work: string -> string, entries: seq<Entry>, i: nat, j: nat, input: string)
    requires Serial(work, entries) && i < |entries| && j < |entries|
    requires entries[i].Accepted? && entries[j].Completed? && entries[i].operation == entries[j].operation
    ensures Decided(Fold(entries), entries[i].operation, input) ==
        if input == entries[i].input then IsCompleted(work(input)) else Conflict
  {
    hide Fold, Serial;
    HeldInput(work, entries, i);
    NotPendingAgain(work, entries, j);
    OutputIsTheWork(work, entries, entries[i].operation);
  }

  /** An operation accepted and not completed is in flight for its own input and refused any other; one never accepted
      is recorded. */
  lemma OthersAnswered(work: string -> string, entries: seq<Entry>, operation: string, input: string)
    requires Serial(work, entries) && forall e :: e in entries && e.Completed? ==> e.operation != operation
    ensures Decided(Fold(entries), operation, input) ==
        if Accepted(operation, input) in entries then InFlight
        else if exists other :: Accepted(operation, other) in entries then Conflict else IsRecorded
  {
    hide Fold, Serial;
    forall other | Accepted(operation, other) in entries
      ensures operation in Fold(entries) && Fold(entries)[operation].input == other
    {
      var i :| 0 <= i < |entries| && entries[i] == Accepted(operation, other);
      HeldInput(work, entries, i);
    }
    if operation in Fold(entries) {
      CameAccepted(entries, operation);
      if Fold(entries)[operation].output.Some? { CameCompleted(entries, operation); }
    }
  }

  /** Whatever a record says, an operation's input is that of its first acceptance. */
  lemma {:induction false} FirstAcceptanceStands(entries: seq<Entry>, i: nat)
    requires i < |entries| && entries[i].Accepted?
    requires forall j :: 0 <= j < i && entries[j].Accepted? ==> entries[j].operation != entries[i].operation
    ensures entries[i].operation in Fold(entries) && Fold(entries)[entries[i].operation].input == entries[i].input
  {
    hide Fold;
    var n := |entries| - 1;
    FoldLast(entries);
    if i < n {
      FirstAcceptanceStands(entries[..n], i);
    } else {
      if entries[i].operation in Fold(entries[..n]) { CameAccepted(entries[..n], entries[i].operation); }
    }
  }

  lemma {:induction false} CameAccepted(entries: seq<Entry>, operation: string)
    requires operation in Fold(entries)
    ensures Accepted(operation, Fold(entries)[operation].input) in entries
  {
    var n := |entries| - 1;
    if operation in Fold(entries[..n]) { CameAccepted(entries[..n], operation); }
    assert entries == entries[..n] + [entries[n]];
  }

  lemma {:induction false} CameCompleted(entries: seq<Entry>, operation: string)
    requires operation in Fold(entries) && Fold(entries)[operation].output.Some?
    ensures Completed(operation, Fold(entries)[operation].output.value) in entries
  {
    var n := |entries| - 1;
    assert entries == entries[..n] + [entries[n]];
    if entries[n] != Completed(operation, Fold(entries)[operation].output.value) {
      CameCompleted(entries[..n], operation);
    }
  }
}
