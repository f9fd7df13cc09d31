/** The broker's durable records log: a journal folded in memory, and the decisions taken over it. */
module RecordsLog {
  import opened Order
  import opened Model
  import opened Journal

  datatype Input = Input(topic: string, record: string)

  /** A record accepted at its offset, or its operation completed. */
  datatype LogLine = Accepted(operation: string, topic: string, record: string,
      offset: nat) | Completed(operation: string, offset: nat)

  datatype Recorded = Recorded(input: Input, output: Option<nat>)

  /** What the log holds in memory. */
  datatype Memory = Memory(topics: map<string, seq<string>>, operations: map<string, Recorded>, offsets: map<string,
      nat>) {
    function Topic(topic: string): seq<string> { if topic in topics then topics[topic] else [] }

    /** Every operation held has its offset. */
    ghost predicate Located() { forall operation :: operation in operations ==> operation in offsets }

    predicate Pending(operation: string) { operation in operations && operations[operation].output.None? }
  }

  function FoldLine(m: Memory, line: LogLine): Memory {
    match line
    case Accepted(operation, topic, record, offset) =>
      Memory(m.topics[topic := m.Topic(topic) + [record]],
             if operation in m.operations then m.operations
                 else m.operations[operation := Recorded(Input(topic, record), None)],
             m.offsets[operation := offset])
    case Completed(operation, offset) =>
      if operation in m.operations then m.(operations :=
          m.operations[operation := m.operations[operation].(output := Some(offset))])
      else m
  }

  function Fold(lines: seq<LogLine>): (m: Memory)
    ensures m.Located()
  {
    if lines == [] then Memory(map[], map[], map[]) else FoldLine(Fold(lines[..|lines| - 1]), lines[|lines| - 1])
  }

  lemma FoldNext(lines: seq<LogLine>, line: LogLine)
    ensures Fold(lines + [line]) == FoldLine(Fold(lines), line)
  {
    assert (lines + [line])[..|lines|] == lines;
  }

  lemma {:induction false} AcceptedBefore(lines: seq<LogLine>, operation: string)
    requires operation in Fold(lines).operations
    ensures exists i :: 0 <= i < |lines| && lines[i].Accepted? && lines[i].operation == operation
  {
    var n := |lines| - 1;
    if operation in Fold(lines[..n]).operations {
      AcceptedBefore(lines[..n], operation);
      var i :| 0 <= i < n && lines[..n][i].Accepted? && lines[..n][i].operation == operation;
      assert lines[i] == lines[..n][i];
    }
  }

  /** Whatever a log says, an operation's input is that of its first accepted line. */
  lemma {:induction false} FirstAcceptanceStands(lines: seq<LogLine>, i: nat)
    requires i < |lines| && lines[i].Accepted?
    requires forall j :: 0 <= j < i && lines[j].Accepted? ==> lines[j].operation != lines[i].operation
    ensures
      var m := Fold(lines);
      lines[i].operation in m.operations
          && m.operations[lines[i].operation].input == Input(lines[i].topic, lines[i].record)
  {
    var n := |lines| - 1;
    if i < n {
      FirstAcceptanceStands(lines[..n], i);
    } else if lines[i].operation in Fold(lines[..n]).operations {
      AcceptedBefore(lines[..n], lines[i].operation);
    }
  }

  const U64_MAX := 0xFFFF_FFFF_FFFF_FFFF

  function SaturatingAdd(a: nat, b: nat): nat { if a + b > U64_MAX then U64_MAX else a + b }

  function Min(a: nat, b: nat): nat { if a < b then a else b }

  function Max(a: nat, b: nat): nat { if a < b then b else a }

  /** Where a read of `end` records from `from` stops. */
  function ReadTo(end: nat, from: nat, max: nat): nat { Min(end, SaturatingAdd(from, max)) }

  /** `records` from `from`, at most `max`, each at its offset, and where the next read starts. */
  function Page(records: seq<string>, from: nat, max: nat): (r: (seq<(nat, string)>, nat))
    ensures forall i :: 0 <= i < |r.0| ==> r.0[i].0 < |records| && r.0[i].1 == records[r.0[i].0] && r.0[i].0 == from + i
  {
    var start, to := Min(from, |records|), ReadTo(|records|, from, max);
    (seq(if start <= to then to - start else 0, i requires 0 <= i < to - start => (start + i, records[start + i])),
        Max(to, start))
  }

  // ---------------------------------------------------------------------------------------------
  // The decisions
  // ---------------------------------------------------------------------------------------------

  datatype Decision = IsRecorded | InFlight | IsCompleted(output: nat) | Conflict

  function Decided(m: Memory, operation: string, input: Input): Decision {
    if operation !in m.operations then IsRecorded
    else if m.operations[operation].input != input then Conflict
    else if m.operations[operation].output.Some? then IsCompleted(m.operations[operation].output.value)
    else InFlight
  }

  /** The line an acceptance writes. */
  function AcceptedLine(m: Memory, operation: string, input: Input): LogLine {
    Accepted(operation, input.topic, input.record, |m.Topic(input.topic)|)
  }

  /** The completions an open writes: each pending operation's, in order. */
  function Completions(m: Memory): seq<LogLine> {
    Gather(Names(m.operations.Keys), (operation: string) => CompletionOf(m, operation))
  }

  function CompletionOf(m: Memory, operation: string): seq<LogLine> {
    if m.Pending(operation) && operation in m.offsets then [Completed(operation, m.offsets[operation])] else []
  }

  datatype Reply = Produced(offset: nat) | IsConflict

  /** The log and its process's memory of it. */
  class RecordsLog {
    const codec: Codec<LogLine>
    var file: string
    var topics: map<string, seq<string>>
    var operations: map<string, Recorded>
    var offsets: map<string, nat>

    ghost function Lines(): seq<LogLine>
      reads this
    {
      var entries := Entries(codec, file);
      if entries.Ok? then entries.value else []
    }

    function State(): Memory
      reads this
    {
      Memory(topics, operations, offsets)
    }

    /** The file holds whole lines, and memory is their fold. */
    ghost predicate Valid()
      reads this
    {
      Sound(codec) && Holds(codec, file, Lines()) && State() == Fold(Lines())
    }

    constructor (codec: Codec<LogLine>, file: string)
      ensures this.codec == codec && this.file == file && State() == Fold([])
    {
      this.codec, this.file := codec, file;
      topics, operations, offsets := map[], map[], map[];
    }

    method FoldIn(line: LogLine)
      modifies `topics, `operations, `offsets
      ensures State() == FoldLine(old(State()), line)
    {
      match line {
        case Accepted(operation, topic, record, offset) =>
          var records := if topic in topics then topics[topic] else [];
          topics := topics[topic := records + [record]];
          offsets := offsets[operation := offset];
          if operation !in operations {
            operations := operations[operation := Recorded(Input(topic, record), None)];
          }
        case Completed(operation, offset) =>
          if operation in operations {
            operations := operations[operation := operations[operation].(output := Some(offset))];
          }
      }
    }

    method FoldAll(lines: seq<LogLine>)
      requires State() == Fold([])
      modifies `topics, `operations, `offsets
      ensures State() == Fold(lines)
    {
      hide *;
      assert lines[..0] == [];
      for i := 0 to |lines|
        invariant State() == Fold(lines[..i])
      {
        FoldNext(lines[..i], lines[i]);
        assert lines[..i + 1] == lines[..i] + [lines[i]];
        FoldIn(lines[i]);
      }
      assert lines[..|lines|] == lines;
    }

    /** Open the file a past process left: fold its whole lines, cut a torn one. */
    static method Open(codec: Codec<LogLine>, text: string) returns (r: Result<RecordsLog, nat>)
      requires Sound(codec)
      ensures r.Err? <==> Entries(codec, text).Err?
      ensures r.Err? ==> Entries(codec, text) == Err(r.error)
      ensures r.Ok? ==> fresh(r.value) && r.value.codec == codec && r.value.Valid()
      ensures r.Ok? ==> r.value.file == text[..Whole(text)] && Ok(r.value.Lines()) == Entries(codec, text)
    {
      hide FoldLine, Whole, Entries;
      var entries, whole := ReadWhole(codec, text);
      if entries.Err? { return Err(entries.error); }
      var log := new RecordsLog(codec, text);
      log.FoldAll(entries.value);
      if whole < |text| { log.file := log.file[..whole]; }
      CutHolds(codec, text, 1);
      assert text[..|text|] == text;
      return Ok(log);
    }

    /** One line written, synced and folded. */
    method Append(line: LogLine)
      requires Valid()
      modifies `file, `topics, `operations, `offsets
      ensures Valid() && Lines() == old(Lines()) + [line]
      ensures file == old(file) + Line(codec, line) && State() == FoldLine(old(State()), line)
    {
      hide FoldLine, Whole, Entries;
      AppendHolds(codec, file, Lines(), line);
      FoldNext(Lines(), line);
      file := file + (codec.write(line) + "\n");
      FoldIn(line);
    }

    /** A topic's records from `from`, at most `max`, and where the next read starts. */
    method Read(topic: string, from: nat, max: nat) returns (read: seq<(nat, string)>, next: nat)
      ensures topic in topics ==> (read, next) == Page(topics[topic], from, max)
      ensures topic !in topics ==> read == [] && next == from
    {
      if topic !in topics { return [], from; }
      var records := topics[topic];
      var end := |records|;
      var to := Min(end, SaturatingAdd(from, max));
      var start := Min(from, end);
      read := [];
      for i := start to Max(start, to)
        invariant |read| == i - start && forall k :: 0 <= k < |read| ==> read[k] == (start + k, records[start + k])
      {
        read := read + [(i, records[i])];
      }
      next := Max(to, start);
      assert read == Page(records, from, max).0;
    }

    /** The offset an operation's record was accepted at. */
    method OffsetOf(operation: string) returns (offset: Option<nat>)
      ensures offset == if operation in State().offsets then Some(State().offsets[operation]) else None
    {
      offset := if operation in offsets then Some(offsets[operation]) else None;
    }

    method PutAccepted(operation: string, input: Input)
      requires Valid()
      modifies `file, `topics, `operations, `offsets
      ensures Valid() && Lines() == old(Lines()) + [AcceptedLine(old(State()), operation, input)]
    {
      var offset := if input.topic in topics then |topics[input.topic]| else 0;
      Append(Accepted(operation, input.topic, input.record, offset));
    }

    /** The operations accepted and not completed, in order. */
    method Pending() returns (pending: seq<string>)
      ensures pending == SelectPending(State(), Names(State().operations.Keys))
    {
      hide *;
      var m := State();
      var names := Names(m.operations.Keys);
      pending := [];
      SelectNone(m, names);
      for i := 0 to |names|
        invariant pending == SelectPending(m, names[..i])
      {
        SelectNext(m, names, i);
        if m.Pending(names[i]) { pending := pending + [names[i]]; }
      }
      assert names[..|names|] == names;
    }

    /** Acceptance: a new operation is recorded, a held one told apart. */
    method Decide(operation: string, input: Input) returns (d: Decision)
      requires Valid()
      modifies `file, `topics, `operations, `offsets
      ensures Valid() && d == Decided(old(State()), operation, input)
      ensures d == Conflict <==> operation in old(operations) && old(operations)[operation].input != input
      ensures d == IsRecorded <==> operation !in old(operations)
      ensures d.IsCompleted? <==>
          operation in old(operations) && old(operations)[operation].input == input
            && old(operations)[operation].output.Some?
      ensures d.IsCompleted? ==> old(operations)[operation].output == Some(d.output)
      ensures Lines() == old(Lines()) + if d.IsRecorded? then [AcceptedLine(old(State()), operation, input)] else []
    {
      hide Fold, FoldLine, Whole, Entries;
      if operation in operations {
        var held := operations[operation];
        assert Lines() + [] == Lines();
        if held.input != input { return Conflict; }
        if held.output.Some? { return IsCompleted(held.output.value); }
        return InFlight;
      }
      PutAccepted(operation, input);
      return IsRecorded;
    }

    /** Completion: recorded once. */
    method Complete(operation: string, offset: nat) returns (recorded: bool)
      requires Valid()
      modifies `file, `topics, `operations, `offsets
      ensures Valid() && recorded == old(State()).Pending(operation)
      ensures Lines() == old(Lines()) + if recorded then [Completed(operation, offset)] else []
      ensures recorded ==> State() == FoldLine(old(State()), Completed(operation, offset))
    {
      hide Fold, FoldLine, Whole, Entries;
      if operation in operations && operations[operation].output.None? {
        Append(Completed(operation, offset));
        return true;
      }
      assert Lines() + [] == Lines();
      return false;
    }

    /** The broker's open: every operation accepted and not completed is completed at its offset. */
    method CompletePending()
      requires Valid()
      modifies `file, `topics, `operations, `offsets
      ensures Valid() && Lines() == old(Lines()) + Completions(old(State()))
      ensures forall operation :: !State().Pending(operation)
    {
      hide *;
      ghost var was, lines := State(), Lines();
      ghost var names := Names(was.operations.Keys);
      ghost var f := (operation: string) => CompletionOf(was, operation);
      var pending := Pending();
      IsLocated();
      PendingGather(was, names);
      UnfinishedAll(was, names);
      GatherNone(pending, f);
      assert lines + [] == lines && pending[0..] == pending;
      for i := 0 to |pending|
        invariant Valid() && Lines() == lines + Gather(pending[..i], f)
        invariant Unfinished(was, State(), pending[i..])
      {
        GatherNext(pending, f, i);
        UnfinishedHead(was, State(), pending[i..]);
        UnfinishedNext(was, State(), pending[i..]);
        assert pending[i..][1..] == pending[i + 1..];
        assert lines + Gather(pending[..i], f) + CompletionOf(was, pending[i]) == lines + Gather(pending[..i + 1], f);
        var offset := OffsetOf(pending[i]);
        if offset.Some? {
          var _ := Complete(pending[i], offset.value);
        }
      }
      GatherAll(pending, f);
      assert pending[|pending|..] == [];
      UnfinishedNone(was, State());
      CompletionsAre(was);
    }

    lemma IsLocated()
      requires Valid()
      ensures State().Located()
    {
    }

    /** A `Produce` at the broker primary. */
    method Produce(operation: string, input: Input) returns (reply: Reply)
      requires Valid()
      modifies `file, `topics, `operations, `offsets
      ensures Valid() && old(Lines()) <= Lines()
      ensures Lines() == old(Lines()) + ProduceLines(old(State()), operation, input)
      ensures reply == ProduceReply(old(State()), operation, input)
      ensures reply == IsConflict <==> operation in old(operations) && old(operations)[operation].input != input
      ensures operation in old(operations) ==> forall line ::
          line in Lines()[|old(Lines())|..] ==> line.Completed? && line.operation == operation
      ensures operation in old(operations) && old(operations)[operation] == Recorded(input, None) ==>
          operation in old(offsets) && reply == Produced(old(offsets)[operation])
              && Lines() == old(Lines()) + [Completed(operation, old(offsets)[operation])]
      ensures
        operation in old(operations) && old(operations)[operation].input == input
            && old(operations)[operation].output.Some? ==>
          reply == Produced(old(operations)[operation].output.value) && Lines() == old(Lines())
      ensures operation !in old(operations) ==>
          var offset := if input.topic in old(topics) then |old(topics)[input.topic]| else 0;
          reply == Produced(offset) && Lines() == old(Lines())
              + [Accepted(operation, input.topic, input.record, offset), Completed(operation, offset)]
    {
      hide Fold, Whole, Entries;
      ghost var lines := Lines();
      FoldNext(lines, AcceptedLine(State(), operation, input));
      assert lines + [] == lines;
      var decision := Decide(operation, input);
      match decision {
        case Conflict => return IsConflict;
        case IsCompleted(offset) => return Produced(offset);
        case _ =>
          assert operation in offsets;
          var offset := offsets[operation];
          var _ := Complete(operation, offset);
          return Produced(offset);
      }
    }
  }

  function SelectPending(m: Memory, names: seq<string>): (r: seq<string>)
    ensures forall x :: x in r <==> x in names && m.Pending(x)
  {
    if names == [] then []
    else SelectPending(m, names[..|names| - 1]) + if m.Pending(names[|names| - 1]) then [names[|names| - 1]] else []
  }

  lemma SelectNone(m: Memory, names: seq<string>)
    ensures SelectPending(m, names[..0]) == []
  {
  }

  lemma SelectNext(m: Memory, names: seq<string>, i: nat)
    requires i < |names|
    ensures SelectPending(m, names[..i + 1]) == SelectPending(m, names[..i]) + if m.Pending(names[i]) then [names[i]]
        else []
  {
    assert names[..i + 1][..i] == names[..i];
  }

  /** What a `Produce` appends, decision and completion together. */
  function ProduceLines(m: Memory, operation: string, input: Input): seq<LogLine>
    requires m.Located()
  {
    var offset := |m.Topic(input.topic)|;
    match Decided(m, operation, input)
    case IsRecorded => [AcceptedLine(m, operation, input), Completed(operation, offset)]
    case InFlight => [Completed(operation, m.offsets[operation])]
    case _ => []
  }

  function ProduceReply(m: Memory, operation: string, input: Input): Reply
    requires m.Located()
  {
    match Decided(m, operation, input)
    case Conflict => IsConflict
    case IsCompleted(offset) => Produced(offset)
    case IsRecorded => Produced(|m.Topic(input.topic)|)
    case InFlight => Produced(m.offsets[operation])
  }

  /** A `Produce`, case by case: refused exactly when its operation is held with another input; a completed one answered
      its output and nothing written; a pending one completed at its offset; a new one accepted at its topic's end and
      completed there. */
  lemma ProduceExactly(m: Memory, operation: string, input: Input)
    requires m.Located()
    ensures
      var reply, lines := ProduceReply(m, operation, input), ProduceLines(m, operation, input);
      && (reply == IsConflict <==> operation in m.operations && m.operations[operation].input != input)
      && (reply == IsConflict ==> lines == [])
      && (operation in m.operations && m.operations[operation] == Recorded(input, None) ==>
          reply == Produced(m.offsets[operation]) && lines == [Completed(operation, m.offsets[operation])])
      && (operation in m.operations && m.operations[operation].input == input
              && m.operations[operation].output.Some? ==>
          reply == Produced(m.operations[operation].output.value) && lines == [])
      && (operation !in m.operations ==>
          var offset := if input.topic in m.topics then |m.topics[input.topic]| else 0;
          reply == Produced(offset)
              && lines == [Accepted(operation, input.topic, input.record, offset), Completed(operation, offset)])
  {
  }

  // ---------------------------------------------------------------------------------------------
  // The open's completions
  // ---------------------------------------------------------------------------------------------

  lemma {:induction false} PendingGather(m: Memory, names: seq<string>)
    requires m.Located()
    ensures var f := (operation: string) => CompletionOf(m, operation);
            Gather(SelectPending(m, names), f) == Gather(names, f)
  {
    var f := (operation: string) => CompletionOf(m, operation);
    if names != [] {
      var rest, last := names[..|names| - 1], names[|names| - 1];
      PendingGather(m, rest);
      if m.Pending(last) {
        assert SelectPending(m, names)[..|SelectPending(m, rest)|] == SelectPending(m, rest);
      } else {
        assert SelectPending(m, names) == SelectPending(m, rest);
        assert Gather(rest, f) + [] == Gather(rest, f);
      }
    }
  }

  /** An open completes each operation accepted and not completed, at its offset, once and in order, and no other. */
  lemma CompletionsExactly(m: Memory)
    requires m.Located()
    ensures forall line ::
        line in Completions(m) <==>
          line.Completed? && line.operation in m.operations && m.operations[line.operation].output == None
              && line.offset == m.offsets[line.operation]
    ensures forall i, j ::
        0 <= i < j < |Completions(m)| ==> Less(Completions(m)[i].operation, Completions(m)[j].operation)
  {
    hide Gather, Names, Less;
    var names, f := Names(m.operations.Keys), (operation: string) => CompletionOf(m, operation);
    forall line ensures line in Completions(m) <==> exists operation ::
        operation in names && line in CompletionOf(m, operation) {
      GatherHas(names, f, line);
    }
    forall i, j | 0 <= i < j < |Completions(m)|
      ensures Less(Completions(m)[i].operation, Completions(m)[j].operation)
    {
      var a, b, x, y := GatherPairs(names, f, i, j);
    }
  }

  lemma CompletionsAre(m: Memory)
    ensures Completions(m) == Gather(Names(m.operations.Keys), (operation: string) => CompletionOf(m, operation))
  {
  }

  lemma GatherNone<A, B>(s: seq<A>, f: A -> seq<B>)
    ensures Gather(s[..0], f) == []
  {
  }

  /** What is still pending is exactly `left`, at the offsets it had. */
  ghost predicate Unfinished(was: Memory, m: Memory, left: seq<string>) {
    && m.offsets == was.offsets && NoRepeats(left)
    && (forall x :: m.Pending(x) <==> x in left)
    && (forall x :: x in left ==> x in m.offsets && was.Pending(x))
  }

  lemma UnfinishedAll(m: Memory, names: seq<string>)
    requires m.Located() && names == Names(m.operations.Keys)
    ensures Unfinished(m, m, SelectPending(m, names))
  {
    NamesNoRepeats(m.operations.Keys);
    SelectNoRepeats(m, names);
  }

  lemma {:induction false} SelectNoRepeats(m: Memory, names: seq<string>)
    requires NoRepeats(names)
    ensures NoRepeats(SelectPending(m, names))
  {
    if names != [] {
      var rest := names[..|names| - 1];
      SelectNoRepeats(m, rest);
      assert forall x :: x in SelectPending(m, rest) ==> x in rest;
    }
  }

  lemma UnfinishedHead(was: Memory, m: Memory, left: seq<string>)
    requires left != [] && Unfinished(was, m, left)
    ensures m.Pending(left[0]) && left[0] in m.offsets
        && CompletionOf(was, left[0]) == [Completed(left[0], m.offsets[left[0]])]
    ensures m.offsets == was.offsets
  {
    assert left[0] in left;
  }

  lemma UnfinishedNext(was: Memory, m: Memory, left: seq<string>)
    requires left != [] && Unfinished(was, m, left)
    ensures Unfinished(was, FoldLine(m, Completed(left[0], was.offsets[left[0]])), left[1..])
  {
    assert left[0] in left && m.Pending(left[0]);
    assert forall x :: x in left[1..] <==> x in left && x != left[0];
  }

  lemma UnfinishedNone(was: Memory, m: Memory)
    requires Unfinished(was, m, [])
    ensures forall x :: !m.Pending(x)
  {
  }
}
