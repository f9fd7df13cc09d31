/** Copying a serving node's record through its stream: each frame recorded before it is acknowledged, the next read
    starting where the copy ends. */
module RecordCopy {
  import opened Model
  import opened Journal
  import opened ConsumerRecord

  datatype Frame = Started(end: nat) | EntryAt(index: nat, entry: Entry) | Through(next: nat) | OutOfRange(end: nat)

  const MAX := 256

  /** The entries a read from `from` hands over. */
  function Handed(src: seq<Entry>, from: nat): (r: seq<Entry>)
    requires from <= |src| <= U64_MAX
    ensures r <= src[from..] && |r| == if |src| - from < MAX then |src| - from else MAX
  {
    EntriesFrom(src, from, MAX).value
  }

  function Frames(from: nat, entries: seq<Entry>): seq<Frame> {
    seq(|entries|, i requires 0 <= i < |entries| => EntryAt(from + i, entries[i]))
  }

  /** The frames of a stream read from `from` that hands over `entries`. */
  function Stream(end: nat, from: nat, entries: seq<Entry>): seq<Frame> {
    [Started(end)] + Frames(from, entries) + [Through(from + |entries|)]
  }

  /** The frames of a whole stream read from `from`. */
  function Sent(src: seq<Entry>, from: nat): seq<Frame>
    requires |src| <= U64_MAX
  {
    if from > |src| then [OutOfRange(|src|)] else Stream(|src|, from, Handed(src, from))
  }

  /** A read past the end is answered the end; any other streams the end, then the entries from its start, at most 256,
      each at its index, then where the next read starts. */
  lemma SentExactly(src: seq<Entry>, from: nat)
    requires |src| <= U64_MAX
    ensures from > |src| ==> Sent(src, from) == [OutOfRange(|src|)]
    ensures from <= |src| ==>
        var count := if |src| - from < 256 then |src| - from else 256;
        && |Sent(src, from)| == count + 2 && Sent(src, from)[0] == Started(|src|)
        && (forall k :: 0 < k <= count ==> Sent(src, from)[k] == EntryAt(from + k - 1, src[from + k - 1]))
        && Sent(src, from)[count + 1] == Through(from + count)
  {
    hide Handed, Stream;
    if from <= |src| {
      var handed := Handed(src, from);
      StreamLength(|src|, from, handed);
      var sent := Sent(src, from);
      forall k | 0 <= k < |sent|
        ensures sent[k] == if k == 0 then Started(|src|)
            else if k <= |handed| then EntryAt(from + k - 1, src[from + k - 1]) else Through(from + |handed|)
      {
        FrameAt(|src|, from, handed, k);
        if 0 < k <= |handed| { assert handed[k - 1] == src[from..][k - 1]; }
      }
    }
  }

  lemma StreamLength(end: nat, from: nat, entries: seq<Entry>)
    ensures |Stream(end, from, entries)| == |entries| + 2
  {
  }

  /** The records stream's handler; `gone` is how many entry frames it sends before the caller is gone. */
  method Serve(src: seq<Entry>, from: nat, gone: nat) returns (sent: seq<Frame>)
    requires |src| <= U64_MAX
    ensures from > |src| || gone >= |Handed(src, from)| ==> sent == Sent(src, from)
    ensures from <= |src| && gone < |Handed(src, from)| ==> sent == Stream(|src|, from, Handed(src, from)[..gone])
  {
    var read := EntriesFrom(src, from, MAX);
    if read.Err? { return [OutOfRange(read.error)]; }
    hide Handed;
    var entries := read.value;
    var frames, next, i := [], from, 0;
    while i < |entries| && i < gone
      invariant 0 <= i <= |entries| && i <= gone && next == from + i
      invariant |frames| == i && forall k :: 0 <= k < i ==> frames[k] == EntryAt(from + k, entries[k])
    {
      frames := frames + [EntryAt(from + i, entries[i])];
      next, i := from + i + 1, i + 1;
    }
    assert frames == Frames(from, entries[..i]);
    assert entries[..|entries|] == entries;
    sent := [Started(|src|)] + frames + [Through(next)];
  }

  /** The whole lines of a text and its torn tail, as a line count counts them. */
  function LineCount(text: string): nat
    decreases |text|
  {
    if text == "" then 0 else 1 + LineCount(text[LineEnd(text)..])
  }

  predicate EndsWhole(text: string) { text == "" || text[|text| - 1] == '\n' }

  datatype Ended = AtTerminal(next: nat) | Refused | Broken

  /** The copy of one node's record: its file, and where the next read starts once this process knows it. */
  class Copy {
    const codec: Codec<Entry>
    var file: string
    var next: Option<nat>

    ghost function Held(): seq<Entry>
      reads this
    {
      if Entries(codec, file).Ok? then Entries(codec, file).value else []
    }

    /** The copy is whole lines, and the next read starts at its end. */
    ghost predicate Valid()
      reads this
    {
      Sound(codec) && Holds(codec, file, Held()) && (next.Some? ==> next.value == |Held()|)
    }

    constructor (codec: Codec<Entry>)
      requires Sound(codec)
      ensures this.codec == codec && Valid() && Held() == [] && next == None
    {
      this.codec, file, next := codec, "", None;
    }

    /** The process ends: only the file stays. */
    method Restart()
      requires Valid()
      modifies `next
      ensures Valid() && next == None && Held() == old(Held())
    {
      next := None;
    }

    /** Where this round reads from: what the process knows, else the file's lines counted. */
    method From() returns (from: nat)
      requires Valid()
      modifies `next
      ensures Valid() && from == |Held()| && next == Some(from) && Held() == old(Held())
    {
      if next.None? {
        WholeCounts(codec, file, 1);
        next := Some(LineCount(file));
      }
      return next.value;
    }

    /** One round: the frames of the stream, cut wherever it breaks, each recorded and then acknowledged. */
    method Round(src: seq<Entry>, frames: seq<Frame>) returns (ended: Ended, acked: nat)
      requires Valid() && |src| <= U64_MAX && frames <= Sent(src, |Held()|)
      modifies `file, `next
      ensures Valid() && next.Some?
      ensures Held() == NextHeld(src, old(Held()), |frames|)
      ensures acked == |frames| && forall k ::
          0 <= k < acked && frames[k].EntryAt? ==>
            frames[k].index < |Held()| && Held()[frames[k].index] == frames[k].entry
      ensures ended.AtTerminal? <==> frames == Sent(src, |old(Held())|) && |old(Held())| <= |src|
      ensures ended.AtTerminal? ==> ended.next == |Held()|
      ensures ended.Refused? <==> frames != [] && |old(Held())| > |src|
    {
      hide Whole, Entries, Handed, Sent, NextHeld;
      var from := From();
      ghost var was := Held();
      var at := from;
      ended, acked := Broken, 0;
      TakenNone(src, was);
      EndIs(src, was);
      while acked < |frames|
        invariant 0 <= acked <= |frames|
        invariant Holds(codec, file, Held()) && Held() == NextHeld(src, was, acked) && at == |Held()|
        invariant forall k ::
            0 <= k < acked && frames[k].EntryAt? ==> frames[k].index < at && Held()[frames[k].index] == frames[k].entry
        invariant ended.AtTerminal? <==> acked > 0 && frames[acked - 1].Through?
        invariant ended.AtTerminal? ==> ended.next == at
        invariant !ended.Refused? && (acked > 0 ==> |was| <= |src|)
      {
        var frame := frames[acked];
        FrameIs(src, was, acked);
        match frame {
          case EntryAt(index, entry) =>
            if index == at {
              AppendHolds(codec, file, Held(), entry);
              file := file + (codec.write(entry) + "\n");
              at := at + 1;
            }
          case Through(n) => ended := AtTerminal(n);
          case OutOfRange(_) => ended := Refused;
          case Started(_) =>
        }
        acked := acked + 1;
        if ended.Refused? { break; }
      }
      next := Some(at);
    }
  }

  /** The copy after a round cut after `n` frames. */
  function NextHeld(src: seq<Entry>, held: seq<Entry>, n: nat): seq<Entry>
    requires |src| <= U64_MAX
  {
    if |held| > |src| || n == 0 then held
    else
      var handed := Handed(src, |held|);
      held + if n - 1 < |handed| then handed[..n - 1] else handed
  }

  lemma TakenNone(src: seq<Entry>, held: seq<Entry>)
    requires |src| <= U64_MAX
    ensures NextHeld(src, held, 0) == held
  {
  }

  /** What the `n`th frame of the stream is, and what it adds. */
  lemma FrameIs(src: seq<Entry>, held: seq<Entry>, n: nat)
    requires |src| <= U64_MAX && n < |Sent(src, |held|)|
    ensures
      var f, now, next := Sent(src, |held|)[n], NextHeld(src, held, n), NextHeld(src, held, n + 1);
      match f
      case OutOfRange(_) => |held| > |src| && n == 0 && next == now
      case Started(_) => |held| <= |src| && n == 0 && next == now
      case EntryAt(index, entry) => |held| <= |src| && 0 < n && index == |now| && next == now + [entry]
      case Through(m) => |held| <= |src| && 0 < n == |Sent(src, |held|)| - 1 && next == now && m == |now|
  {
    hide Handed;
    if |held| <= |src| {
      var handed := Handed(src, |held|);
      FrameAt(|src|, |held|, handed, n);
      if 0 < n <= |handed| { TakeNext(handed, n - 1); }
      assert held + handed[..0] == held;
      assert handed[..|handed|] == handed;
    }
  }

  lemma TakeNext<T>(s: seq<T>, n: nat)
    requires n < |s|
    ensures s[..n + 1] == s[..n] + [s[n]]
  {
  }

  lemma FrameAt(end: nat, from: nat, entries: seq<Entry>, n: nat)
    requires n < |Stream(end, from, entries)|
    ensures |Stream(end, from, entries)| == |entries| + 2
    ensures Stream(end, from, entries)[n] ==
              if n == 0 then Started(end)
                  else if n <= |entries| then EntryAt(from + (n - 1), entries[n - 1]) else Through(from + |entries|)
  {
  }

  lemma EndIs(src: seq<Entry>, held: seq<Entry>)
    requires |src| <= U64_MAX
    ensures forall k ::
        0 <= k < |Sent(src, |held|)| ==>
          (Sent(src, |held|)[k].Through? <==> |held| <= |src| && k == |Sent(src, |held|)| - 1)
    ensures Sent(src, |held|) != [] && (|held| > |src| ==> |Sent(src, |held|)| == 1)
  {
  }

  /** Whole lines are counted as they are. */
  lemma {:induction false} WholeCounts<L>(c: Codec<L>, text: string, n: nat)
    requires Whole(text) == |text| && Entries(c, text, n).Ok?
    ensures LineCount(text) == |Entries(c, text, n).value|
    decreases |text|
  {
    if text != "" {
      WholeCounts(c, text[LineEnd(text)..], n + 1);
    }
  }

  // ---------------------------------------------------------------------------------------------
  // The line count at a restart
  // ---------------------------------------------------------------------------------------------

  lemma {:induction false} EndsWholeIs(text: string)
    ensures EndsWhole(text) <==> Whole(text) == |text|
    decreases |text|
  {
    if '\n' in text {
      var rest := text[LineEnd(text)..];
      EndsWholeIs(rest);
      if rest != "" { assert rest[|rest| - 1] == text[|text| - 1]; }
    }
  }

  /** The line count is the number of whole lines exactly when the file is empty or ends with a newline. */
  lemma {:induction false} CountIsWholeExactly<L>(c: Codec<L>, text: string, n: nat)
    requires Entries(c, text, n).Ok?
    ensures LineCount(text) == |Entries(c, text, n).value| + if EndsWhole(text) then 0 else 1
    decreases |text|
  {
    hide Whole;
    if text != "" && '\n' in text {
      var rest := text[LineEnd(text)..];
      CountIsWholeExactly(c, rest, n + 1);
      if rest != "" { assert rest[|rest| - 1] == text[|text| - 1]; }
    } else if text != "" {
      assert LineEnd(text) == |text|;
      assert text[|text|..] == "";
    }
  }

  /** So a restart reads on from the copy's end exactly when the file holds no torn line. */
  lemma RestartReadsOnExactly<L>(c: Codec<L>, text: string)
    requires Entries(c, text).Ok?
    ensures LineCount(text) == |Entries(c, text).value| <==> Whole(text) == |text|
  {
    hide Whole, Entries, LineCount;
    CountIsWholeExactly(c, text, 1);
    EndsWholeIs(text);
  }

  /** A line torn before its newline, and the process restarted: the next read starts past an entry the copy does not
      hold. */
  lemma TornCopySkips<L(!new)>(c: Codec<L>, file: string, held: seq<L>, l: L, k: nat)
    requires Sound(c) && Holds(c, file, held) && 0 < k < |Line(c, l)|
    ensures
      var torn := file + Line(c, l)[..k];
      Entries(c, torn) == Ok(held) && LineCount(torn) == |held| + 1
  {
    hide Whole, Entries;
    TornAtAnyPoint(c, file, held, l, k);
    CountIsWholeExactly(c, file + Line(c, l)[..k], 1);
    var torn := file + Line(c, l)[..k];
    assert torn[|torn| - 1] == c.write(l)[k - 1];
  }

  // ---------------------------------------------------------------------------------------------
  // Any number of rounds
  // ---------------------------------------------------------------------------------------------

  /** The source only grows. */
  ghost predicate Grows(srcs: seq<seq<Entry>>) {
    forall i :: 0 <= i < |srcs| ==> |srcs[i]| <= U64_MAX && (i > 0 ==> srcs[i - 1] <= srcs[i])
  }

  /** The copy after the first `n` rounds, the `i`th cut after `cuts[i]` frames. */
  function HeldAfter(srcs: seq<seq<Entry>>, cuts: seq<nat>, n: nat): seq<Entry>
    requires n <= |srcs| == |cuts| && forall i :: 0 <= i < |srcs| ==> |srcs[i]| <= U64_MAX
  {
    if n == 0 then [] else NextHeld(srcs[n - 1], HeldAfter(srcs, cuts, n - 1), cuts[n - 1])
  }

  /** Over any number of rounds broken at any frame, the copy is exactly a prefix of the source. */
  lemma {:induction false} AlwaysAPrefix(srcs: seq<seq<Entry>>, cuts: seq<nat>, n: nat)
    requires Grows(srcs) && n <= |srcs| == |cuts|
    ensures n > 0 ==>
        HeldAfter(srcs, cuts, n) <= srcs[n - 1] && HeldAfter(srcs, cuts, n - 1) <= HeldAfter(srcs, cuts, n)
  {
    hide NextHeld;
    if n > 0 {
      var held := HeldAfter(srcs, cuts, n - 1);
      AlwaysAPrefix(srcs, cuts, n - 1);
      RoundKeepsPrefix(srcs[n - 1], held, cuts[n - 1]);
    }
  }

  lemma RoundKeepsPrefix(src: seq<Entry>, held: seq<Entry>, n: nat)
    requires |src| <= U64_MAX && held <= src
    ensures held <= NextHeld(src, held, n) <= src
  {
    var handed := Handed(src, |held|);
    assert src == held + src[|held|..];
  }

  /** An unbroken round brings the copy to the source's end, or as far as one read goes. */
  lemma UnbrokenAdvances(src: seq<Entry>, held: seq<Entry>)
    requires |src| <= U64_MAX && held <= src
    ensures NextHeld(src, held, |Sent(src, |held|)|) == src[..if |src| - |held| < MAX then |src| else |held| + MAX]
  {
    var handed := Handed(src, |held|);
    assert src == held + src[|held|..];
  }
}
