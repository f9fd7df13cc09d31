/** The gossip reference writer: unsigned varints, length-prefixed texts, the attribute list and body of a frame,
    percent-encoded identities and fixed-width sequence strings. */
module GossipWire {
  import opened Order
  import opened Model

  type Byte = b: int | 0 <= b < 256

  const U64 := 0x1_0000_0000_0000_0000

  // ---------------------------------------------------------------------------------------------
  // Numbers
  // ---------------------------------------------------------------------------------------------

  /** Seven bits a byte, lowest first, the top bit set on all but the last. */
  function Number(n: nat): (r: seq<Byte>)
    ensures r != []
  {
    if n < 128 then [n] else [n % 128 + 128] + Number(n / 128)
  }

  method WriteNumber(n: nat, out: seq<Byte>) returns (r: seq<Byte>)
    ensures r == out + Number(n)
  {
    var left := n;
    r := out;
    while left >= 128
      invariant r + Number(left) == out + Number(n)
    {
      assert r + ([left % 128 + 128] + Number(left / 128)) == r + [left % 128 + 128] + Number(left / 128);
      r := r + [left % 128 + 128];
      left := left / 128;
    }
    r := r + [left];
  }

  /** A number of at most `max` bytes, and what follows it. */
  function ReadNumber(bytes: seq<Byte>, max: nat): Option<(nat, seq<Byte>)> {
    if bytes == [] || max == 0 then None
    else if bytes[0] < 128 then Some((bytes[0], bytes[1..]))
    else
      var rest := ReadNumber(bytes[1..], max - 1);
      if rest.None? then None else Some((bytes[0] - 128 + 128 * rest.value.0, rest.value.1))
  }

  lemma {:induction false} NumberReadsBack(n: nat, max: nat, suffix: seq<Byte>)
    requires |Number(n)| <= max
    ensures ReadNumber(Number(n) + suffix, max) == Some((n, suffix))
  {
    var bytes := Number(n) + suffix;
    if n < 128 {
      assert bytes[1..] == suffix;
    } else {
      assert bytes[1..] == Number(n / 128) + suffix;
      NumberReadsBack(n / 128, max - 1, suffix);
    }
  }

  function Pow128(k: nat): nat { if k == 0 then 1 else 128 * Pow128(k - 1) }

  lemma {:induction false} NumberLength(n: nat, k: nat)
    requires n < Pow128(k) && k > 0
    ensures |Number(n)| <= k
  {
    assert Pow128(k) == 128 * Pow128(k - 1);
    if n >= 128 {
      NumberLength(n / 128, k - 1);
    }
  }

  const MAX_BYTES := 10

  /** A number of 64 bits takes at most ten bytes. */
  lemma U64Length(n: nat)
    requires n < U64
    ensures |Number(n)| <= MAX_BYTES
  {
    var p2 := Pow128(2);
    assert p2 == 128 * (128 * Pow128(0)) == 16384;
    assert Pow128(4) == 128 * (128 * p2) == 268435456;
    assert Pow128(6) == 128 * (128 * Pow128(4)) == 4398046511104;
    assert Pow128(8) == 128 * (128 * Pow128(6)) == 72057594037927936;
    assert Pow128(10) == 128 * (128 * Pow128(8)) == 1180591620717411303424;
    NumberLength(n, 10);
  }

  /** And reads back as itself, whatever follows. */
  lemma U64ReadsBack(n: nat, suffix: seq<Byte>)
    requires n < U64
    ensures ReadNumber(Number(n) + suffix, MAX_BYTES) == Some((n, suffix))
  {
    U64Length(n);
    NumberReadsBack(n, MAX_BYTES, suffix);
  }

  // ---------------------------------------------------------------------------------------------
  // Texts and frames
  // ---------------------------------------------------------------------------------------------

  /** A text that fits a length of 64 bits. */
  type Bytes = s: seq<Byte> | |s| < U64 witness []

  function Text(s: Bytes): seq<Byte> { Number(|s|) + s }

  function ReadText(bytes: seq<Byte>): Option<(Bytes, seq<Byte>)> {
    var n := ReadNumber(bytes, MAX_BYTES);
    if n.None? || n.value.0 >= U64 || n.value.0 > |n.value.1| then None
    else Some((n.value.1[..n.value.0], n.value.1[n.value.0..]))
  }

  lemma TextReadsBack(s: Bytes, suffix: seq<Byte>)
    ensures ReadText(Text(s) + suffix) == Some((s, suffix))
  {
    assert Text(s) + suffix == Number(|s|) + (s + suffix);
    U64ReadsBack(|s|, s + suffix);
    assert (s + suffix)[..|s|] == s && (s + suffix)[|s|..] == suffix;
  }

  type Attribute = (Bytes, Bytes)

  function Attributes(attrs: seq<Attribute>): seq<Byte> {
    if attrs == [] then [] else Text(attrs[0].0) + Text(attrs[0].1) + Attributes(attrs[1..])
  }

  /** The count, each name and value, the body's length and the body. */
  function Frame(attrs: seq<Attribute>, body: Bytes): seq<Byte> {
    Number(|attrs|) + Attributes(attrs) + Text(body)
  }

  function ReadAttributes(bytes: seq<Byte>, count: nat): Option<(seq<Attribute>, seq<Byte>)>
    decreases count
  {
    if count == 0 then Some(([], bytes))
    else
      var name := ReadText(bytes);
      if name.None? then None
      else
        var value := ReadText(name.value.1);
        if value.None? then None
        else
          var rest := ReadAttributes(value.value.1, count - 1);
          if rest.None? then None else Some(([(name.value.0, value.value.0)] + rest.value.0, rest.value.1))
  }

  function ReadFrame(bytes: seq<Byte>): Option<(seq<Attribute>, Bytes, seq<Byte>)> {
    var count := ReadNumber(bytes, MAX_BYTES);
    if count.None? then None
    else
      var attrs := ReadAttributes(count.value.1, count.value.0);
      if attrs.None? then None
      else
        var body := ReadText(attrs.value.1);
        if body.None? then None else Some((attrs.value.0, body.value.0, body.value.1))
  }

  lemma {:induction false} AttributesReadBack(attrs: seq<Attribute>, suffix: seq<Byte>)
    ensures ReadAttributes(Attributes(attrs) + suffix, |attrs|) == Some((attrs, suffix))
  {
    hide Text, ReadText;
    if attrs == [] {
      assert Attributes(attrs) + suffix == suffix;
    } else {
      var rest := Attributes(attrs[1..]) + suffix;
      assert Attributes(attrs) + suffix == Text(attrs[0].0) + (Text(attrs[0].1) + rest);
      TextReadsBack(attrs[0].0, Text(attrs[0].1) + rest);
      TextReadsBack(attrs[0].1, rest);
      AttributesReadBack(attrs[1..], suffix);
      assert [attrs[0]] + attrs[1..] == attrs;
    }
  }

  /** Every attribute list and body is recovered from the writer's bytes, whatever follows them. */
  lemma FrameReadsBack(attrs: seq<Attribute>, body: Bytes, suffix: seq<Byte>)
    requires |attrs| < U64
    ensures ReadFrame(Frame(attrs, body) + suffix) == Some((attrs, body, suffix))
  {
    hide Number, ReadNumber, Attributes, ReadAttributes, Text, ReadText;
    var rest := Text(body) + suffix;
    assert Frame(attrs, body) + suffix == Number(|attrs|) + (Attributes(attrs) + rest);
    U64ReadsBack(|attrs|, Attributes(attrs) + rest);
    AttributesReadBack(attrs, rest);
    TextReadsBack(body, suffix);
  }

  method WriteText(s: Bytes, out: seq<Byte>) returns (r: seq<Byte>)
    ensures r == out + Text(s)
  {
    r := WriteNumber(|s|, out);
    assert out + Number(|s|) + s == out + (Number(|s|) + s);
    r := r + s;
  }

  method WriteFrame(attrs: seq<Attribute>, body: Bytes) returns (out: seq<Byte>)
    ensures out == Frame(attrs, body)
  {
    hide Text, Number;
    out := WriteNumber(|attrs|, []);
    ghost var count := out;
    assert [] + Number(|attrs|) == Number(|attrs|) && attrs[0..] == attrs;
    for i := 0 to |attrs|
      invariant out + Attributes(attrs[i..]) == count + Attributes(attrs)
    {
      var name, value := attrs[i].0, attrs[i].1;
      assert attrs[i..][1..] == attrs[i + 1..];
      ghost var rest := Attributes(attrs[i + 1..]);
      assert out + (Text(name) + Text(value) + rest) == out + Text(name) + Text(value) + rest;
      out := WriteText(name, out);
      out := WriteText(value, out);
    }
    assert out + [] == out;
    out := WriteText(body, out);
  }

  // ---------------------------------------------------------------------------------------------
  // Identities
  // ---------------------------------------------------------------------------------------------

  const SLASH: Byte := 47
  const PERCENT: Byte := 37

  /** Unreserved: letters, digits, `-`, `.`, `_` and `~`. */
  predicate Unreserved(b: Byte) {
    48 <= b <= 57 || 65 <= b <= 90 || 97 <= b <= 122 || b in {45, 46, 95, 126}
  }

  /** An upper-case hexadecimal digit. */
  function Hex(d: int): Byte
    requires 0 <= d < 16
  {
    if d < 10 then 48 + d else 55 + d
  }

  function UnHex(b: Byte): Option<int> {
    if 48 <= b <= 57 then Some(b - 48) else if 65 <= b <= 70 then Some(b - 55) else None
  }

  function EscByte(b: Byte): seq<Byte> {
    if Unreserved(b) then [b] else [PERCENT, Hex(b / 16), Hex(b % 16)]
  }

  function Esc(s: seq<Byte>): (r: seq<Byte>)
    ensures SLASH !in r
    ensures forall b :: b in r ==> Unreserved(b) || b == PERCENT
  {
    if s == [] then [] else EscByte(s[0]) + Esc(s[1..])
  }

  const UPPER := "ABCDEFGHIJKLMNOPQRSTUVWXYZ"

  ghost predicate Plain(b: Byte) {
    var c := b as char;
    c in UPPER || c in LETTERS || c in DIGITS || c in "-._~"
  }

  lemma Uppers(c: char)
    ensures c in UPPER <==> 65 <= c as int <= 90
  {
    if 65 <= c as int <= 90 { assert UPPER[c as int - 65] == c; }
  }

  lemma UnreservedExactly(b: Byte)
    ensures Unreserved(b) <==> Plain(b)
  {
    var c := b as char;
    Uppers(c);
    Letters(c);
    Digits(c);
    assert c as int == b;
  }

  /** A text is its own escape exactly when it is letters, digits, `-`, `.`, `_` and `~` alone. */
  lemma EscItself(s: seq<Byte>)
    ensures Esc(s) == s <==> forall i :: 0 <= i < |s| ==> Plain(s[i])
  {
    hide Plain;
    EscLength(s);
    if forall i :: 0 <= i < |s| ==> Plain(s[i]) { EscKeeps(s); }
  }

  lemma {:induction false} EscLength(s: seq<Byte>)
    ensures |Esc(s)| >= |s|
    ensures |Esc(s)| == |s| ==> forall i :: 0 <= i < |s| ==> Plain(s[i])
  {
    hide Plain;
    if s != [] {
      EscLength(s[1..]);
      UnreservedExactly(s[0]);
    }
  }

  lemma {:induction false} EscKeeps(s: seq<Byte>)
    requires forall i :: 0 <= i < |s| ==> Plain(s[i])
    ensures Esc(s) == s
  {
    hide Plain;
    if s != [] {
      EscKeeps(s[1..]);
      UnreservedExactly(s[0]);
      assert s == [s[0]] + s[1..];
    }
  }

  function UnEsc(s: seq<Byte>): Option<seq<Byte>> {
    if s == [] then Some([])
    else if s[0] != PERCENT then
      var rest := UnEsc(s[1..]);
      if rest.None? then None else Some([s[0]] + rest.value)
    else if |s| < 3 || UnHex(s[1]).None? || UnHex(s[2]).None? then None
    else
      var rest := UnEsc(s[3..]);
      if rest.None? then None else Some([16 * UnHex(s[1]).value + UnHex(s[2]).value] + rest.value)
  }

  lemma {:induction false} EscReadsBack(s: seq<Byte>)
    ensures UnEsc(Esc(s)) == Some(s)
  {
    if s != [] {
      EscReadsBack(s[1..]);
      var e := Esc(s);
      assert [s[0]] + s[1..] == s;
      if Unreserved(s[0]) {
        assert e[1..] == Esc(s[1..]);
      } else {
        assert e[3..] == Esc(s[1..]);
        assert e[0] == PERCENT && e[1] == Hex(s[0] / 16) && e[2] == Hex(s[0] % 16);
      }
    }
  }

  lemma EscInjective(s: seq<Byte>, t: seq<Byte>)
    ensures Esc(s) == Esc(t) <==> s == t
  {
    EscReadsBack(s);
    EscReadsBack(t);
  }

  /** The parts escaped, between slashes. */
  function Joined(parts: seq<seq<Byte>>): seq<Byte> {
    if parts == [] then [] else if |parts| == 1 then Esc(parts[0]) else Esc(parts[0]) + [SLASH] + Joined(parts[1..])
  }

  /** Up to the first slash. */
  function Head(s: seq<Byte>): (n: nat)
    ensures n <= |s| && SLASH !in s[..n] && (n < |s| ==> s[n] == SLASH)
  {
    if s == [] || s[0] == SLASH then 0 else 1 + Head(s[1..])
  }

  lemma {:induction false} HeadIs(s: seq<Byte>, n: nat)
    requires n <= |s| && SLASH !in s[..n] && (n < |s| ==> s[n] == SLASH)
    ensures Head(s) == n
  {
    if n > 0 {
      assert s[..n][0] == s[0] && s[1..][..n - 1] == s[..n][1..];
      HeadIs(s[1..], n - 1);
    }
  }

  /** What was joined, read back: the head's part, then the rest's. */
  lemma JoinedHead(parts: seq<seq<Byte>>)
    requires parts != []
    ensures
      var j := Joined(parts);
      && Head(j) == |Esc(parts[0])| && j[..Head(j)] == Esc(parts[0])
      && (Head(j) < |j| <==> |parts| > 1)
      && (|parts| > 1 ==> j[Head(j) + 1..] == Joined(parts[1..]))
  {
    var j, e := Joined(parts), Esc(parts[0]);
    assert j[..|e|] == e;
    HeadIs(j, |e|);
    if |parts| > 1 { assert j[|e| + 1..] == Joined(parts[1..]); }
  }

  lemma {:induction false} JoinedInjective(a: seq<seq<Byte>>, b: seq<seq<Byte>>)
    requires a != [] && b != [] && Joined(a) == Joined(b)
    ensures a == b
  {
    hide Joined, Esc, Head;
    JoinedHead(a);
    JoinedHead(b);
    EscInjective(a[0], b[0]);
    if |a| > 1 {
      JoinedInjective(a[1..], b[1..]);
      assert a == [a[0]] + a[1..] && b == [b[0]] + b[1..];
    } else {
      assert a == [a[0]] && b == [b[0]];
    }
  }

  function OrEmptyPart(parts: seq<seq<Byte>>): seq<seq<Byte>> { if parts == [] then [[]] else parts }

  /** Two lists join alike exactly when they are the same list, or are no part and one empty part. */
  lemma JoinedAlikeExactly(a: seq<seq<Byte>>, b: seq<seq<Byte>>)
    ensures Joined(a) == Joined(b) <==> a == b || (OrEmptyPart(a) == OrEmptyPart(b) == [[]])
  {
    hide Head;
    var x, y := OrEmptyPart(a), OrEmptyPart(b);
    assert Joined([]) == Joined([[]]) == [];
    assert Joined(x) == Joined(a) && Joined(y) == Joined(b);
    if Joined(a) == Joined(b) { JoinedInjective(x, y); }
  }

  // ---------------------------------------------------------------------------------------------
  // Sequence strings
  // ---------------------------------------------------------------------------------------------

  function Digit(d: int): char
    requires 0 <= d < 10
  {
    '0' + d as char
  }

  /** The last `width` decimal digits, zero-padded. */
  function Padded(v: nat, width: nat): (r: string)
    ensures |r| == width
  {
    if width == 0 then "" else Padded(v / 10, width - 1) + [Digit(v % 10)]
  }

  function Pow10(k: nat): nat { if k == 0 then 1 else 10 * Pow10(k - 1) }

  const WIDTH := 20

  function Sequence(v: nat): string { Padded(v, WIDTH) }

  /** What a decimal text reads as. */
  function Decimal(s: string): int {
    if s == "" then 0 else 10 * Decimal(s[..|s| - 1]) + (s[|s| - 1] as int - 48)
  }

  lemma {:induction false} PaddedReads(v: nat, width: nat)
    requires v < Pow10(width)
    ensures Decimal(Padded(v, width)) == v && forall c :: c in Padded(v, width) ==> '0' <= c <= '9'
  {
    if width > 0 {
      PaddedReads(v / 10, width - 1);
      assert Padded(v, width)[..width - 1] == Padded(v / 10, width - 1);
    }
  }

  lemma {:induction false} LessAtEnd(s: string, t: string, c: char, d: char)
    requires |s| == |t|
    ensures Less(s + [c], t + [d]) <==> Less(s, t) || (s == t && c < d)
  {
    if s == "" {
      assert s + [c] == [c] && t + [d] == [d];
      assert [c][1..] == [] && [d][1..] == [];
    } else {
      LessAtEnd(s[1..], t[1..], c, d);
      assert (s + [c])[1..] == s[1..] + [c] && (t + [d])[1..] == t[1..] + [d];
      assert s == [s[0]] + s[1..] && t == [t[0]] + t[1..];
    }
  }

  lemma {:induction false} PaddedOrder(v: nat, w: nat, width: nat)
    requires v < Pow10(width) && w < Pow10(width)
    ensures Less(Padded(v, width), Padded(w, width)) <==> v < w
    ensures Padded(v, width) == Padded(w, width) <==> v == w
  {
    hide Less;
    if width == 0 {
      LessIrreflexive("");
    } else {
      var s, t := Padded(v / 10, width - 1), Padded(w / 10, width - 1);
      PaddedOrder(v / 10, w / 10, width - 1);
      LessAtEnd(s, t, Digit(v % 10), Digit(w % 10));
      assert Padded(v, width)[..width - 1] == s && Padded(w, width)[..width - 1] == t;
      assert Padded(v, width)[width - 1] == Digit(v % 10) && Padded(w, width)[width - 1] == Digit(w % 10);
    }
  }

  /** The sequence strings of 64-bit values order as the values do. */
  lemma SequenceOrder(v: nat, w: nat)
    requires v < U64 && w < U64
    ensures Less(Sequence(v), Sequence(w)) <==> v < w
    ensures Sequence(v) == Sequence(w) <==> v == w
    ensures |Sequence(v)| == 20 && Decimal(Sequence(v)) == v && forall c :: c in Sequence(v) ==> '0' <= c <= '9'
  {
    hide Less, Padded, Decimal;
    assert Pow10(5) == 10 * (10 * (10 * (10 * (10 * Pow10(0))))) == 100000;
    assert Pow10(10) == 10 * (10 * (10 * (10 * (10 * Pow10(5))))) == 10000000000;
    assert Pow10(15) == 10 * (10 * (10 * (10 * (10 * Pow10(10))))) == 1000000000000000;
    assert Pow10(20) == 10 * (10 * (10 * (10 * (10 * Pow10(15))))) == 100000000000000000000;
    PaddedOrder(v, w, WIDTH);
    PaddedReads(v, WIDTH);
  }

  /** And keep that order behind a common prefix, as a scope status's do behind its epoch. */
  lemma {:induction false} LessBehind(prefix: string, s: string, t: string)
    ensures Less(prefix + s, prefix + t) <==> Less(s, t)
  {
    hide Less;
    if prefix == "" {
      assert prefix + s == s && prefix + t == t;
    } else {
      LessBehind(prefix[1..], s, t);
      assert prefix + s == [prefix[0]] + (prefix[1..] + s) && prefix + t == [prefix[0]] + (prefix[1..] + t);
      LessBehindOne(prefix[0], prefix[1..] + s, prefix[1..] + t);
    }
  }

  lemma LessBehindOne(c: char, s: string, t: string)
    ensures Less([c] + s, [c] + t) <==> Less(s, t)
  {
    assert ([c] + s)[1..] == s && ([c] + t)[1..] == t;
  }

  lemma StatusSequenceOrder(epoch: nat, v: nat, w: nat)
    requires v < U64 && w < U64
    ensures Less(Sequence(epoch) + "." + Sequence(v), Sequence(epoch) + "." + Sequence(w)) <==> v < w
  {
    hide Less, Sequence;
    LessBehind(Sequence(epoch) + ".", Sequence(v), Sequence(w));
    SequenceOrder(v, w);
  }
}
