/** A journal: a text file of lines, each written whole and read back at the next open; a last line cut short by a crash
    is not read. */
module Journal {
  import opened Model

  /** How an entry is written on one line and read back from it. */
  datatype Codec<!L> = Codec(write: L -> string, read: string -> Option<L>)

  /** A written entry has no newline of its own and its line reads back as it. */
  ghost predicate Sound<L(!new)>(c: Codec<L>) {
    forall l :: '\n' !in c.write(l) && c.read(Line(c, l)) == Some(l)
  }

  function Line<L>(c: Codec<L>, l: L): string { c.write(l) + "\n" }

  /** Past the first newline; the whole length when there is none. */
  function LineEnd(text: string): (n: nat)
    ensures n <= |text|
    ensures text != "" ==> 0 < n
    ensures '\n' in text <==> text != "" && text[n - 1] == '\n'
    ensures forall i :: 0 <= i < n - 1 ==> text[i] != '\n'
    ensures '\n' !in text ==> n == |text|
  {
    if text == "" then 0 else if text[0] == '\n' then 1 else 1 + LineEnd(text[1..])
  }

  /** Where the last whole line ends. */
  function Whole(text: string): (n: nat)
    ensures n <= |text|
    decreases |text|
  {
    if '\n' !in text then 0 else LineEnd(text) + Whole(text[LineEnd(text)..])
  }

  /** The entries of the whole lines; the first line that does not decode, counted from `n`. */
  function Entries<L>(c: Codec<L>, text: string, n: nat := 1): Result<seq<L>, nat>
    decreases |text|
  {
    if '\n' !in text then Ok([])
    else
      var entry := c.read(text[..LineEnd(text)]);
      if entry.None? then Err(n) else Prepend([entry.value], Entries(c, text[LineEnd(text)..], n + 1))
  }

  function Prepend<L>(done: seq<L>, r: Result<seq<L>, nat>): Result<seq<L>, nat> {
    if r.Ok? then Ok(done + r.value) else r
  }

  lemma PrependTwice<L>(a: seq<L>, b: seq<L>, r: Result<seq<L>, nat>)
    ensures Prepend(a, Prepend(b, r)) == Prepend(a + b, r)
  {
    if r.Ok? { assert a + (b + r.value) == a + b + r.value; }
  }

  lemma PrependNothing<L>(r: Result<seq<L>, nat>)
    ensures Prepend([], r) == r
  {
    if r.Ok? { assert [] + r.value == r.value; }
  }

  lemma PrependErr<L>(done: seq<L>, n: nat)
    ensures Prepend(done, Err(n)) == Err(n)
  {
  }

  lemma NoLine<L>(c: Codec<L>, text: string, n: nat, done: seq<L>)
    requires '\n' !in text
    ensures Entries(c, text, n) == Ok([]) && Whole(text) == 0 && Prepend(done, Entries(c, text, n)) == Ok(done)
  {
    assert done + [] == done;
  }

  lemma FirstLine(text: string)
    requires '\n' in text
    ensures Whole(text) == LineEnd(text) + Whole(text[LineEnd(text)..])
  {
  }

  /** `text` holds exactly `ls`, and no torn line. */
  ghost predicate Holds<L>(c: Codec<L>, text: string, ls: seq<L>) {
    Whole(text) == |text| && Entries(c, text) == Ok(ls)
  }

  lemma LineEndOf(text: string, more: string)
    requires '\n' in text
    ensures LineEnd(text + more) == LineEnd(text) && '\n' in text + more
    ensures (text + more)[..LineEnd(text)] == text[..LineEnd(text)]
    ensures (text + more)[LineEnd(text)..] == text[LineEnd(text)..] + more
  {
    var n := LineEnd(text);
    assert (text + more)[n - 1] == '\n';
    assert forall i :: 0 <= i < n - 1 ==> (text + more)[i] == text[i];
  }

  /** Whole lines, then any text: what is read is read apart. */
  lemma {:induction false} WholeThen(text: string, more: string)
    requires Whole(text) == |text|
    ensures Whole(text + more) == |text| + Whole(more)
    decreases |text|
  {
    if text == "" {
      assert text + more == more;
    } else {
      LineEndOf(text, more);
      WholeThen(text[LineEnd(text)..], more);
    }
  }

  lemma {:induction false} EntriesThen<L>(c: Codec<L>, text: string, more: string, n: nat)
    requires Whole(text) == |text| && Entries(c, text, n).Ok?
    ensures Entries(c, text + more, n) == Prepend(Entries(c, text, n).value,
        Entries(c, more, n + |Entries(c, text, n).value|))
    decreases |text|
  {
    hide *;
    if '\n' !in text {
      NoLine(c, text, n, []);
      assert text + more == more;
      PrependNothing(Entries(c, more, n));
    } else {
      var e := LineEnd(text);
      FirstLine(text);
      LineEndOf(text, more);
      FirstEntry(c, text, n);
      FirstEntry(c, text + more, n);
      EntriesThen(c, text[e..], more, n + 1);
      var rest := Entries(c, text[e..], n + 1).value;
      PrependTwice([c.read(text[..e]).value], rest, Entries(c, more, n + 1 + |rest|));
    }
  }

  /** The first line's entry, then the rest's. */
  lemma FirstEntry<L>(c: Codec<L>, text: string, n: nat)
    requires '\n' in text
    ensures c.read(text[..LineEnd(text)]).None? ==> Entries(c, text, n) == Err(n)
    ensures c.read(text[..LineEnd(text)]).Some? ==>
              var entry, rest := c.read(text[..LineEnd(text)]).value, Entries(c, text[LineEnd(text)..], n + 1);
              Entries(c, text, n) == Prepend([entry], rest) && Entries(c, text, n).Ok? == rest.Ok? &&
              (rest.Ok? ==> Entries(c, text, n).value == [entry] + rest.value)
  {
  }

  /** A line with no newline yet is read as nothing. */
  lemma TornReadsNothing<L>(c: Codec<L>, text: string, torn: string)
    requires Whole(text) == |text| && Entries(c, text).Ok? && '\n' !in torn
    ensures Whole(text + torn) == |text| && (text + torn)[..|text|] == text
    ensures Entries(c, text + torn) == Entries(c, text)
  {
    WholeThen(text, torn);
    EntriesThen(c, text, torn, 1);
    assert Entries(c, text, 1).value + [] == Entries(c, text, 1).value;
  }

  lemma LineReads<L(!new)>(c: Codec<L>, l: L, n: nat)
    requires Sound(c)
    ensures Whole(Line(c, l)) == |Line(c, l)| && Entries(c, Line(c, l), n) == Ok([l])
  {
    var line := Line(c, l);
    assert line[|line| - 1] == '\n';
    assert LineEnd(line) == |line| by {
      assert forall i :: 0 <= i < |line| - 1 ==> line[i] == c.write(l)[i];
    }
    assert line[..|line|] == line && line[|line|..] == "";
    FirstEntry(c, line, n);
    assert [l] + [] == [l];
  }

  /** A line appended whole is the next entry. */
  lemma AppendHolds<L(!new)>(c: Codec<L>, text: string, ls: seq<L>, l: L)
    requires Sound(c) && Holds(c, text, ls)
    ensures Holds(c, text + Line(c, l), ls + [l])
  {
    LineReads(c, l, 1 + |ls|);
    WholeThen(text, Line(c, l));
    EntriesThen(c, text, Line(c, l), 1);
  }

  /** A line torn at any point: an entry once its newline is written, nothing before. */
  lemma TornAtAnyPoint<L(!new)>(c: Codec<L>, text: string, ls: seq<L>, l: L, k: nat)
    requires Sound(c) && Holds(c, text, ls) && k <= |Line(c, l)|
    ensures
      var torn := text + Line(c, l)[..k];
      var kept := if k == |Line(c, l)| then ls + [l] else ls;
      && Entries(c, torn) == Ok(kept)
      && Holds(c, torn[..Whole(torn)], kept)
      && text <= torn[..Whole(torn)]
  {
    var line := Line(c, l);
    if k == |line| {
      assert line[..k] == line;
      AppendHolds(c, text, ls, l);
      assert (text + line)[..|text + line|] == text + line;
    } else {
      assert line[..k] <= c.write(l);
      TornReadsNothing(c, text, line[..k]);
    }
  }

  /** Cutting the torn tail leaves the same entries and no torn line. */
  lemma {:induction false} CutHolds<L>(c: Codec<L>, text: string, n: nat)
    ensures Whole(text[..Whole(text)]) == Whole(text)
    ensures Entries(c, text[..Whole(text)], n) == Entries(c, text, n)
    decreases |text|
  {
    hide Entries, Whole, Prepend;
    if '\n' !in text {
      NoLine(c, text, n, []);
      NoLine(c, text[..0], n, []);
    } else {
      var e := LineEnd(text);
      var cut := text[..Whole(text)];
      FirstLine(text);
      CutHolds(c, text[e..], n + 1);
      assert cut[e..] == text[e..][..Whole(text[e..])];
      assert cut[e - 1] == '\n' && cut[..e] == text[..e];
      assert LineEnd(cut) == e;
      FirstLine(cut);
      FirstEntry(c, text, n);
      FirstEntry(c, cut, n);
    }
  }

  /** A journal refused at a line is whole readable lines up to it, and that line does not read. */
  lemma {:induction false} FirstBadLine<L>(c: Codec<L>, text: string, n: nat)
      returns (done: string, line: string, rest: string)
    requires Entries(c, text, n).Err?
    ensures text == done + line + rest && Whole(done) == |done| && Entries(c, done, n).Ok?
    ensures Entries(c, text, n) == Err(n + |Entries(c, done, n).value|)
    ensures line != "" && line[|line| - 1] == '\n' && '\n' !in line[..|line| - 1] && c.read(line).None?
    decreases |text|
  {
    hide Entries, Whole, Prepend;
    if '\n' !in text { NoLine(c, text, n, []); }
    var e := LineEnd(text);
    var first := text[..e];
    FirstEntry(c, text, n);
    if c.read(first).None? {
      done, line, rest := "", first, text[e..];
      NoLine(c, "", n, []);
    } else {
      PrependFails([c.read(first).value], Entries(c, text[e..], n + 1));
      done, line, rest := FirstBadLine(c, text[e..], n + 1);
      var d := done;
      done := first + d;
      assert text == first + text[e..] && first + (d + line + rest) == done + line + rest;
      assert first[e - 1] == '\n';
      assert LineEnd(first) == e && first[e..] == "";
      LineEndOf(first, d);
      FirstLine(done);
      FirstEntry(c, done, n);
      assert done[e..] == d && done[..e] == first;
    }
  }

  lemma PrependFails<L>(done: seq<L>, r: Result<seq<L>, nat>)
    ensures Prepend(done, r).Err? <==> r.Err?
    ensures r.Err? ==> Prepend(done, r) == r
  {
  }

  /** The open's read: each whole line decoded, up to a line cut short. */
  method ReadWhole<L>(c: Codec<L>, text: string) returns (r: Result<seq<L>, nat>, whole: nat)
    ensures r == Entries(c, text)
    ensures r.Ok? ==> whole == Whole(text)
  {
    hide *;
    var entries, at, n := [], 0, 1;
    assert text[0..] == text;
    PrependNothing(Entries(c, text));
    while '\n' in text[at..]
      invariant at <= |text| && n >= 1
      invariant Entries(c, text) == Prepend(entries, Entries(c, text[at..], n))
      invariant Whole(text) == at + Whole(text[at..])
      decreases |text| - at
    {
      var rest := text[at..];
      var end := LineEnd(rest);
      FirstEntry(c, rest, n);
      FirstLine(rest);
      var entry := c.read(rest[..end]);
      if entry.None? {
        PrependErr(entries, n);
        return Err(n), at;
      }
      assert rest[end..] == text[at + end..];
      PrependTwice(entries, [entry.value], Entries(c, rest[end..], n + 1));
      entries, at, n := entries + [entry.value], at + end, n + 1;
    }
    NoLine(c, text[at..], n, entries);
    return Ok(entries), at;
  }
}
