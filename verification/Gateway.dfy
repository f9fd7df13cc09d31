/** Which broker a gateway forwards to, and which gateways a produce asks: births passed over or spent are not asked
    again while the topology still names them ready. */
module Gateway {
  import opened Model

  datatype Birth = Birth(id: NodeId, incarnation: Incarnation)

  type Marks = map<NodeId, Incarnation>

  /** The marks whose births `ready` still names. */
  function KeepReady(marks: Marks, ready: seq<Birth>): Marks {
    map id | id in marks && Birth(id, marks[id]) in ready :: marks[id]
  }

  /** A mark stands exactly while the topology names its very birth: a node reborn under another incarnation is marked
      no more. */
  lemma KeptExactly(marks: Marks, ready: seq<Birth>, id: NodeId)
    ensures id in KeepReady(marks, ready) <==>
        id in marks && exists i :: 0 <= i < |ready| && ready[i].id == id && ready[i].incarnation == marks[id]
    ensures id in KeepReady(marks, ready) ==> KeepReady(marks, ready)[id] == marks[id]
  {
    if id in marks && Birth(id, marks[id]) in ready {
      var i :| 0 <= i < |ready| && ready[i] == Birth(id, marks[id]);
    }
  }

  method KeepMarks(marks: Marks, ready: seq<Birth>) returns (kept: Marks)
    ensures kept == KeepReady(marks, ready)
  {
    kept := map[];
    var left := marks.Keys;
    while left != {}
      invariant left <= marks.Keys
      invariant forall id :: id in kept <==> id in marks && id !in left && Birth(id, marks[id]) in ready
      invariant forall id :: id in kept ==> kept[id] == marks[id]
    {
      var id :| id in left;
      if Birth(id, marks[id]) in ready { kept := kept[id := marks[id]]; }
      left := left - {id};
    }
  }

  /** The broker a forward asks: the primary unless it is passed over, else the first ready broker that is not. */
  method Choose(primary: Option<NodeId>, ready: seq<Birth>, passed: Marks) returns (chosen: Option<NodeId>, kept: Marks)
    ensures kept == KeepReady(passed, ready)
    ensures primary.None? ==> chosen == None
    ensures primary.Some? && primary.value !in kept ==> chosen == primary
    ensures primary.Some? && primary.value in kept ==>
              if chosen.Some?
              then exists i ::
                  0 <= i < |ready| && ready[i].id == chosen.value && chosen.value !in kept && forall j ::
                    0 <= j < i ==> ready[j].id in kept
              else forall b :: b in ready ==> b.id in kept
  {
    kept := KeepMarks(passed, ready);
    if primary.None? { return None, kept; }
    if primary.value !in kept { return primary, kept; }
    for i := 0 to |ready|
      invariant forall j :: 0 <= j < i ==> ready[j].id in kept
    {
      if ready[i].id !in kept { return Some(ready[i].id), kept; }
    }
    return None, kept;
  }

  /** What one gateway's answer is to the node that asked it. */
  datatype Asked = Produced(offset: nat) | Spent(why: string) | Answered(why: string)

  datatype Why = From(id: NodeId, asked: Asked) | NoneReady | AllSpent

  /** A round: who was asked, in order, the marks after it, and how it ended. */
  datatype Round = Round(asked: seq<Birth>, spent: Marks, ended: Result<nat, seq<Why>>)

  function Unspent(ready: seq<Birth>, spent: Marks): (r: seq<Birth>)
    ensures forall b :: b in r <==> b in ready && b.id !in spent
    ensures |r| <= |ready|
  {
    if ready == [] then []
    else Unspent(ready[..|ready| - 1], spent) + if ready[|ready| - 1].id in spent then [] else [ready[|ready| - 1]]
  }

  /** What each gateway of `asked` said. */
  function Said(asked: seq<Birth>, outcomes: seq<Asked>): seq<Why>
    requires |asked| <= |outcomes|
  {
    seq(|asked|, k requires 0 <= k < |asked| => From(asked[k].id, outcomes[k]))
  }

  /** `id` is marked by the call at `asked[k]`. */
  predicate MarkedBy(asked: seq<Birth>, outcomes: seq<Asked>, k: int, id: NodeId) {
    0 <= k < |asked| <= |outcomes| && asked[k].id == id && outcomes[k].Spent?
  }

  /** `r` is the round over `ready` whose `k`th call ended `outcomes[k]`: the unspent gateways asked in order, each
      once, up to the first that produced; each spent call marked, and no other mark moved. */
  ghost predicate IsRound(ready: seq<Birth>, spent: Marks, outcomes: seq<Asked>, r: Round) {
    var kept := KeepReady(spent, ready);
    var unspent := Unspent(ready, kept);
    && r.asked <= unspent && |r.asked| <= |outcomes|
    && (forall k :: 0 <= k < |r.asked| ==> (outcomes[k].Produced? <==> r.ended.Ok? && k == |r.asked| - 1))
    && (if r.ended.Ok? then r.asked != [] && outcomes[|r.asked| - 1] == Produced(r.ended.value)
        else
          && r.asked == unspent
          && r.ended.error == if unspent != [] then Said(unspent, outcomes)
              else if ready == [] then [NoneReady] else [AllSpent])
    && Marked(kept, r.asked, outcomes, r.spent)
  }

  /** The marks: the kept ones, and one for each spent call. */
  ghost predicate Marked(kept: Marks, asked: seq<Birth>, outcomes: seq<Asked>, marks: Marks) {
    && (forall id :: id in kept ==> id in marks)
    && (forall k :: 0 <= k < |asked| <= |outcomes| && outcomes[k].Spent? ==> asked[k].id in marks)
    && (forall id :: id in marks ==>
          (id in kept && marks[id] == kept[id]) || exists k ::
              MarkedBy(asked, outcomes, k, id) && marks[id] == asked[k].incarnation)
  }

  lemma MarkedNext(kept: Marks, asked: seq<Birth>, outcomes: seq<Asked>, marks: Marks, b: Birth)
    requires |asked| < |outcomes| && Marked(kept, asked, outcomes, marks)
    ensures Marked(kept, asked + [b], outcomes, if outcomes[|asked|].Spent? then marks[b.id := b.incarnation]
        else marks)
  {
    var asked', marks' := asked + [b], if outcomes[|asked|].Spent? then marks[b.id := b.incarnation] else marks;
    forall id | id in marks'
      ensures (id in kept && marks'[id] == kept[id]) || exists k ::
          MarkedBy(asked', outcomes, k, id) && marks'[id] == asked'[k].incarnation
    {
      if outcomes[|asked|].Spent? && id == b.id {
        assert MarkedBy(asked', outcomes, |asked|, id);
      } else if !(id in kept && marks[id] == kept[id]) {
        var k :| MarkedBy(asked, outcomes, k, id) && marks[id] == asked[k].incarnation;
        assert MarkedBy(asked', outcomes, k, id) && asked'[k] == asked[k];
      }
    }
  }

  lemma UnspentNext(ready: seq<Birth>, marks: Marks, i: nat)
    requires i < |ready|
    ensures Unspent(ready[..i + 1], marks) == Unspent(ready[..i], marks) + if ready[i].id in marks then []
        else [ready[i]]
  {
    assert ready[..i + 1][..i] == ready[..i];
  }

  method SelectUnspent(ready: seq<Birth>, marks: Marks) returns (unspent: seq<Birth>)
    ensures unspent == Unspent(ready, marks)
  {
    hide *;
    unspent := [];
    assert Unspent(ready[..0], marks) == [];
    for i := 0 to |ready|
      invariant unspent == Unspent(ready[..i], marks)
    {
      UnspentNext(ready, marks, i);
      if ready[i].id !in marks { unspent := unspent + [ready[i]]; }
    }
    assert ready[..|ready|] == ready;
  }

  /** One round of a produce through the gateways; `outcomes[k]` is how its `k`th call ends. */
  method AskEachGateway(ready: seq<Birth>, spent: Marks, outcomes: seq<Asked>) returns (r: Round)
    requires |outcomes| >= |ready|
    ensures IsRound(ready, spent, outcomes, r)
  {
    hide KeepReady, Unspent, Marked;
    var marks := KeepMarks(spent, ready);
    ghost var kept := marks;
    var unspent := SelectUnspent(ready, marks);
    var said: seq<Why> := [];
    MarkedNone(kept, outcomes);
    assert unspent[..0] == [];
    for n := 0 to |unspent|
      invariant Marked(kept, unspent[..n], outcomes, marks)
      invariant forall k :: 0 <= k < n ==> !outcomes[k].Produced?
      invariant |said| == n && forall k :: 0 <= k < n ==> said[k] == From(unspent[k].id, outcomes[k])
    {
      MarkedNext(kept, unspent[..n], outcomes, marks, unspent[n]);
      assert unspent[..n + 1] == unspent[..n] + [unspent[n]];
      match outcomes[n] {
        case Produced(offset) => return Round(unspent[..n + 1], marks, Ok(offset));
        case Spent(_) => marks := marks[unspent[n].id := unspent[n].incarnation];
        case Answered(_) =>
      }
      said := said + [From(unspent[n].id, outcomes[n])];
    }
    assert unspent[..|unspent|] == unspent;
    if said == [] {
      said := [if ready == [] then NoneReady else AllSpent];
    } else {
      assert said == Said(unspent, outcomes);
    }
    return Round(unspent, marks, Err(said));
  }

  lemma MarkedNone(kept: Marks, outcomes: seq<Asked>)
    ensures Marked(kept, [], outcomes, kept)
  {
  }

  // ---------------------------------------------------------------------------------------------
  // Every round
  // ---------------------------------------------------------------------------------------------

  predicate DistinctIds(ready: seq<Birth>) { forall i, j :: 0 <= i < j < |ready| ==> ready[i].id != ready[j].id }

  lemma {:induction false} UnspentDistinct(ready: seq<Birth>, spent: Marks)
    requires DistinctIds(ready)
    ensures DistinctIds(Unspent(ready, spent))
  {
    if ready != [] {
      var rest := ready[..|ready| - 1];
      UnspentDistinct(rest, spent);
      assert forall b :: b in Unspent(rest, spent) ==> b in rest;
    }
  }

  /** Whoever is asked is ready, and no birth marked spent is. */
  lemma AskedUnspent(ready: seq<Birth>, spent: Marks, outcomes: seq<Asked>, r: Round, b: Birth)
    requires IsRound(ready, spent, outcomes, r)
    ensures b in r.asked ==> b in ready
    ensures b.id in spent && spent[b.id] == b.incarnation ==> b !in r.asked
  {
    assert b in r.asked ==> b in Unspent(ready, KeepReady(spent, ready));
  }

  /** A birth of a round's topology is asked exactly when no mark of this birth stands on its node, and no gateway
      before it produced: a node marked under another incarnation is asked again. */
  lemma AskedExactly(ready: seq<Birth>, spent: Marks, outcomes: seq<Asked>, r: Round, b: Birth)
    requires IsRound(ready, spent, outcomes, r) && DistinctIds(ready) && b in ready
    ensures r.ended.Err? ==> (b in r.asked <==> !(b.id in spent && spent[b.id] == b.incarnation))
    ensures b in r.asked ==> !(b.id in spent && spent[b.id] == b.incarnation)
  {
    hide Marked;
    var kept := KeepReady(spent, ready);
    if b.id in kept {
      assert Birth(b.id, spent[b.id]) in ready;
      SameId(ready, b, Birth(b.id, spent[b.id]));
    }
    if b.id in spent && spent[b.id] == b.incarnation { assert Birth(b.id, spent[b.id]) == b; }
    assert b in Unspent(ready, kept) <==> b.id !in kept;
    if b in r.asked { assert b in Unspent(ready, kept); }
  }

  lemma SameId(ready: seq<Birth>, a: Birth, b: Birth)
    requires DistinctIds(ready) && a in ready && b in ready && a.id == b.id
    ensures a == b
  {
    var i :| 0 <= i < |ready| && ready[i] == a;
    var j :| 0 <= j < |ready| && ready[j] == b;
    assert i == j;
  }

  /** The births a round asks are asked in the topology's order. */
  lemma AskedInOrder(ready: seq<Birth>, spent: Marks, outcomes: seq<Asked>, r: Round, i: nat, j: nat)
    requires IsRound(ready, spent, outcomes, r) && i < j < |r.asked|
    ensures exists a, b :: 0 <= a < b < |ready| && ready[a] == r.asked[i] && ready[b] == r.asked[j]
  {
    hide Marked, KeepReady;
    var kept := KeepReady(spent, ready);
    var a := PlaceOf(ready, kept, i);
    var b := PlaceOf(ready, kept, j);
    assert r.asked[i] == Unspent(ready, kept)[i] && r.asked[j] == Unspent(ready, kept)[j];
    if b <= a {
      assert ready[..b] == ready[..a][..b];
      UnspentGrows(ready[..a], kept, b);
    }
  }

  lemma UnspentNone(ready: seq<Birth>, spent: Marks)
    ensures ready == [] ==> Unspent(ready, spent) == []
  {
  }

  /** Where the `k`th unspent birth is listed. */
  lemma {:induction false} PlaceOf(ready: seq<Birth>, spent: Marks, k: nat) returns (a: nat)
    requires k < |Unspent(ready, spent)|
    ensures a < |ready| && ready[a] == Unspent(ready, spent)[k] && |Unspent(ready[..a], spent)| == k
  {
    hide Unspent;
    UnspentNone(ready, spent);
    var n := |ready| - 1;
    UnspentNext(ready, spent, n);
    assert ready[..n + 1] == ready;
    if k < |Unspent(ready[..n], spent)| {
      a := PlaceOf(ready[..n], spent, k);
      assert ready[..n][..a] == ready[..a];
    } else {
      a := n;
    }
  }

  lemma {:induction false} UnspentGrows(ready: seq<Birth>, spent: Marks, b: nat)
    requires b <= |ready|
    ensures |Unspent(ready[..b], spent)| <= |Unspent(ready, spent)|
  {
    hide Unspent;
    if b == |ready| {
      assert ready[..b] == ready;
    } else {
      var n := |ready| - 1;
      UnspentNext(ready, spent, n);
      assert ready[..n + 1] == ready;
      UnspentGrows(ready[..n], spent, b);
      assert ready[..n][..b] == ready[..b];
    }
  }

  /** A mark on a birth the topology still names ready stays. */
  lemma MarkStays(ready: seq<Birth>, spent: Marks, outcomes: seq<Asked>, r: Round, b: Birth)
    requires IsRound(ready, spent, outcomes, r) && b in ready && b.id in spent && spent[b.id] == b.incarnation
    ensures b.id in r.spent && r.spent[b.id] == b.incarnation
  {
    var kept := KeepReady(spent, ready);
    assert b.id in kept by { assert Birth(b.id, spent[b.id]) == b; }
    forall k | 0 <= k < |r.asked| ensures r.asked[k].id !in kept {
      assert r.asked[k] in Unspent(ready, kept);
    }
  }

  /** A spent call marks its birth. */
  lemma SpentMarks(ready: seq<Birth>, spent: Marks, outcomes: seq<Asked>, r: Round, k: nat)
    requires DistinctIds(ready) && IsRound(ready, spent, outcomes, r) && k < |r.asked| && outcomes[k].Spent?
    ensures r.asked[k].id in r.spent && r.spent[r.asked[k].id] == r.asked[k].incarnation
  {
    hide Unspent, KeepReady;
    var kept := KeepReady(spent, ready);
    UnspentDistinct(ready, kept);
    assert r.asked[k] in Unspent(ready, kept);
    forall j | MarkedBy(r.asked, outcomes, j, r.asked[k].id) ensures j == k {
      assert r.asked[j] == Unspent(ready, kept)[j] && r.asked[k] == Unspent(ready, kept)[k];
    }
  }

  function MarksBefore(rounds: seq<Round>, i: nat): Marks
    requires i <= |rounds|
  {
    if i == 0 then map[] else rounds[i - 1].spent
  }

  /** Rounds, each over the marks the one before it left. */
  ghost predicate Rounds(readies: seq<seq<Birth>>, outcomes: seq<seq<Asked>>, rounds: seq<Round>) {
    && |readies| == |outcomes| == |rounds|
    && forall i :: 0 <= i < |rounds| ==>
         DistinctIds(readies[i]) && IsRound(readies[i], MarksBefore(rounds, i), outcomes[i], rounds[i])
  }

  /** Once a call at a birth is spent, no later round asks that birth while every topology since names it ready. */
  lemma {:induction false} SpentNotAskedAgain(readies: seq<seq<Birth>>, outcomes: seq<seq<Asked>>, rounds: seq<Round>,
      i: nat, k: nat, j: nat)
    requires Rounds(readies, outcomes, rounds) && i < j < |rounds|
    requires k < |rounds[i].asked| <= |outcomes[i]| && outcomes[i][k].Spent?
    requires forall r :: i < r <= j ==> rounds[i].asked[k] in readies[r]
    ensures rounds[i].asked[k] !in rounds[j].asked
    ensures rounds[i].asked[k].id in rounds[j].spent
        && rounds[j].spent[rounds[i].asked[k].id] == rounds[i].asked[k].incarnation
    decreases j
  {
    hide IsRound, DistinctIds;
    var b := rounds[i].asked[k];
    if j == i + 1 {
      SpentMarks(readies[i], MarksBefore(rounds, i), outcomes[i], rounds[i], k);
    } else {
      SpentNotAskedAgain(readies, outcomes, rounds, i, k, j - 1);
    }
    MarkStays(readies[j], MarksBefore(rounds, j), outcomes[j], rounds[j], b);
    AskedUnspent(readies[j], MarksBefore(rounds, j), outcomes[j], rounds[j], b);
  }
}
