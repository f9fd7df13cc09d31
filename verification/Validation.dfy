/** Every invariant a persisted topology holds, and the journal form of its create specs. */
module Validation {
  import opened Order
  import opened Model
  import opened Changes

  // ---------------------------------------------------------------------------------------------
  // Validation
  // ---------------------------------------------------------------------------------------------

  function Missing(m: MeshTopology): set<PathName> { m.nodes - m.specs.Keys }

  function Misfiled(name: string, m: MeshTopology): set<PathName> {
    set p | p in m.specs && (p !in m.nodes || m.specs[p].mesh != name || m.specs[p].at != p)
  }

  /** The first invariant the mesh filed under `name` breaks, `named` the locations of the meshes before it. */
  function Broken(name: string, m: MeshTopology, named: set<PathName>): Option<Reject> {
    if m.nodes * named != {} then Some(NodeNamedTwice(Paths(m.nodes * named)[0]))
    else if m.name != name then Some(InvalidMeshName(m.name))
    else if !ValidMeshName(name) then Some(InvalidMeshName(name))
    else if |m.Admins()| == 0 then Some(MeshWithoutAdmin(name))
    else if Missing(m) != {} || Misfiled(name, m) != {}
    then Some(NodeSpecMismatch(name, Paths(Missing(m)), Paths(Misfiled(name, m))))
    else None
  }

  function ValidateFrom(t: Topology, names: seq<string>, named: set<PathName>): Result<(), Reject>
    requires forall n :: n in names ==> n in t.meshes
  {
    if names == [] then Ok(())
    else
      var broken := Broken(names[0], t.meshes[names[0]], named);
      if broken.Some? then Err(broken.value) else ValidateFrom(t, names[1..], named + t.meshes[names[0]].nodes)
  }

  function Validate(t: Topology): Result<(), Reject> {
    if t.meshes == map[] then Err(EmptyFabric) else ValidateFrom(t, Names(t.meshes.Keys), {})
  }

  method Check(t: Topology) returns (r: Result<(), Reject>)
    ensures r == Validate(t)
  {
    hide Broken, Order.Ascending, Order.Less;
    if t.meshes == map[] { return Err(EmptyFabric); }
    var names, named := Names(t.meshes.Keys), {};
    for i := 0 to |names|
      invariant ValidateFrom(t, names, {}) == ValidateFrom(t, names[i..], named)
    {
      var broken := Broken(names[i], t.meshes[names[i]], named);
      if broken.Some? { return Err(broken.value); }
      named := named + t.meshes[names[i]].nodes;
      assert names[i..][1..] == names[i + 1..];
    }
    return Ok(());
  }

  lemma BrokenExactly(name: string, m: MeshTopology, named: set<PathName>)
    ensures Broken(name, m, named).None? <==> MeshWellFormed(name, m) && m.nodes !! named
  {
    if SpecsMatch(name, m) {
      assert Missing(m) == {} && Misfiled(name, m) == {};
    } else if Missing(m) == {} {
      if p :| p in m.specs && p !in m.nodes {
        assert p in Misfiled(name, m);
      } else {
        assert forall p :: p in m.nodes ==> p in Missing(m) || p in m.specs;
        assert m.nodes == m.specs.Keys;
        var p :| p in m.specs && !(m.specs[p].mesh == name && m.specs[p].at == p);
        assert p in Misfiled(name, m);
      }
    }
  }

  /** No location of the meshes `names` is in two of them, or in `named`. */
  ghost predicate Apart(t: Topology, names: seq<string>, named: set<PathName>)
    requires forall n :: n in names ==> n in t.meshes
  {
    && (forall i :: 0 <= i < |names| ==> t.meshes[names[i]].nodes !! named)
    && (forall i, j :: 0 <= i < j < |names| ==> t.meshes[names[i]].nodes !! t.meshes[names[j]].nodes)
  }

  lemma ApartSplits(t: Topology, names: seq<string>, named: set<PathName>)
    requires names != [] && forall n :: n in names ==> n in t.meshes
    ensures Apart(t, names, named) <==>
            t.meshes[names[0]].nodes !! named && Apart(t, names[1..], named + t.meshes[names[0]].nodes)
  {
    var here, rest := t.meshes[names[0]].nodes, names[1..];
    if Apart(t, names, named) {
      forall i | 0 <= i < |rest| ensures t.meshes[rest[i]].nodes !! named + here {
        assert rest[i] == names[i + 1];
      }
      forall i, j | 0 <= i < j < |rest| ensures t.meshes[rest[i]].nodes !! t.meshes[rest[j]].nodes {
        assert rest[i] == names[i + 1] && rest[j] == names[j + 1];
      }
    }
    if here !! named && Apart(t, rest, named + here) {
      forall i | 0 <= i < |names| ensures t.meshes[names[i]].nodes !! named {
        if i > 0 { assert names[i] == rest[i - 1]; }
      }
      forall i, j | 0 <= i < j < |names| ensures t.meshes[names[i]].nodes !! t.meshes[names[j]].nodes {
        assert names[j] == rest[j - 1];
        if i > 0 { assert names[i] == rest[i - 1]; }
      }
    }
  }

  lemma {:induction false} ValidateFromExactly(t: Topology, names: seq<string>, named: set<PathName>)
    requires forall n :: n in names ==> n in t.meshes
    ensures ValidateFrom(t, names, named).Ok? <==>
            (forall n :: n in names ==> MeshWellFormed(n, t.meshes[n])) && Apart(t, names, named)
  {
    hide Broken, MeshWellFormed, Apart;
    if names == [] {
      ApartNone(t, named);
    } else {
      assert forall n :: n in names <==> n == names[0] || n in names[1..];
      BrokenExactly(names[0], t.meshes[names[0]], named);
      ApartSplits(t, names, named);
      ValidateFromExactly(t, names[1..], named + t.meshes[names[0]].nodes);
    }
  }

  lemma ApartNone(t: Topology, named: set<PathName>)
    ensures Apart(t, [], named)
  {
  }

  /** A topology validates exactly when it holds a mesh and is well formed: every location in one mesh, under one spec
      at its own key. */
  lemma ValidateExactly(t: Topology)
    ensures Validate(t).Ok? <==> t.meshes != map[] && t.WellFormed()
  {
    hide ValidateFrom, MeshWellFormed, Apart, Names;
    NamesNoRepeats(t.meshes.Keys);
    ValidateFromExactly(t, Names(t.meshes.Keys), {});
    ApartAll(t, Names(t.meshes.Keys));
  }

  lemma ApartAll(t: Topology, names: seq<string>)
    requires NoRepeats(names) && forall n :: n in names <==> n in t.meshes
    ensures Apart(t, names, {}) <==>
            (forall m, m' :: m in t.meshes && m' in t.meshes && m != m' ==> t.meshes[m].nodes !! t.meshes[m'].nodes)
  {
    if Apart(t, names, {}) {
      forall m, m' | m in t.meshes && m' in t.meshes && m != m' ensures t.meshes[m].nodes !! t.meshes[m'].nodes {
        var i :| 0 <= i < |names| && names[i] == m;
        var j :| 0 <= j < |names| && names[j] == m';
        assert i < j || j < i;
      }
    }
  }

  /** `why` is true of the mesh filed under `name`, `named` the locations of the meshes before it. */
  ghost predicate FaultOf(name: string, m: MeshTopology, named: set<PathName>, why: Reject) {
    match why
    case NodeNamedTwice(p) => p in m.nodes && p in named
    case InvalidMeshName(x) => m.name == x && (x != name || !ValidMeshName(x))
    case MeshWithoutAdmin(x) =>
      x == name && forall p :: p in m.nodes && p in m.specs ==> m.specs[p].kind != "node-admin"
    case NodeSpecMismatch(x, missing, extra) =>
      && x == name && (missing != [] || extra != [])
      && (forall p :: p in missing <==> p in m.nodes && p !in m.specs)
      && (forall p :: p in extra <==> p in m.specs && (p !in m.nodes || m.specs[p].mesh != name || m.specs[p].at != p))
    case _ => false
  }

  lemma BrokenTruly(name: string, m: MeshTopology, named: set<PathName>)
    requires Broken(name, m, named).Some?
    ensures FaultOf(name, m, named, Broken(name, m, named).value)
  {
    hide ValidMeshName, Paths, PathLess;
    if m.nodes * named != {} {
      assert |m.nodes * named| > 0;
      assert Paths(m.nodes * named)[0] in Paths(m.nodes * named);
    } else if |m.Admins()| == 0 {
      assert m.Admins() == {};
      forall p | p in m.nodes && p in m.specs ensures m.specs[p].kind != "node-admin" { assert p !in m.Admins(); }
    } else if Missing(m) != {} {
      var p :| p in Missing(m);
      assert p in Paths(Missing(m));
    } else if Misfiled(name, m) != {} {
      var p :| p in Misfiled(name, m);
      assert p in Paths(Misfiled(name, m));
    }
  }

  /** The locations of the meshes `names`. */
  function Before(t: Topology, names: seq<string>): set<PathName>
    requires forall n :: n in names ==> n in t.meshes
  {
    set n, p | n in names && p in t.meshes[n].nodes :: p
  }

  lemma {:induction false} FirstFault(t: Topology, names: seq<string>, named: set<PathName>) returns (k: nat)
    requires (forall n :: n in names ==> n in t.meshes) && ValidateFrom(t, names, named).Err?
    ensures k < |names| && forall j :: 0 <= j < k ==> MeshWellFormed(names[j], t.meshes[names[j]])
    ensures FaultOf(names[k], t.meshes[names[k]], named + Before(t, names[..k]), ValidateFrom(t, names, named).error)
  {
    hide Broken, MeshWellFormed, FaultOf;
    BrokenExactly(names[0], t.meshes[names[0]], named);
    if Broken(names[0], t.meshes[names[0]], named).Some? {
      k := 0;
      BrokenTruly(names[0], t.meshes[names[0]], named);
      assert named + Before(t, names[..0]) == named;
    } else {
      var rest, grown := names[1..], named + t.meshes[names[0]].nodes;
      k := FirstFault(t, rest, grown);
      assert names[..k + 1] == [names[0]] + rest[..k];
      assert grown + Before(t, rest[..k]) == named + Before(t, names[..k + 1]);
      k := k + 1;
    }
  }

  lemma EarlierNames(s: set<string>, k: nat)
    requires k < |Names(s)|
    ensures forall x :: x in s ==> (Less(x, Names(s)[k]) <==> x in Names(s)[..k])
  {
    hide Names, Less;
    var names := Names(s);
    TextOrder();
    forall x | x in s ensures Less(x, names[k]) <==> x in names[..k] {
      assert x in names;
      var i :| 0 <= i < |names| && names[i] == x;
      if i < k { assert names[..k][i] == x; }
      if x in names[..k] { var j :| 0 <= j < k && names[..k][j] == x; }
    }
  }

  /** The locations of the meshes whose names come before `m`. */
  ghost function EarlierNodes(t: Topology, m: string): set<PathName> {
    set x, p | x in t.meshes && Less(x, m) && p in t.meshes[x].nodes :: p
  }

  /** A refused topology is refused by name for a fault it has: its first faulty mesh, in name order. */
  lemma RefusedTruly(t: Topology) returns (m: string)
    requires Validate(t).Err? && t.meshes != map[]
    ensures m in t.meshes && forall x :: x in t.meshes && Less(x, m) ==> MeshWellFormed(x, t.meshes[x])
    ensures FaultOf(m, t.meshes[m], EarlierNodes(t, m), Validate(t).error)
  {
    hide ValidateFrom, MeshWellFormed, FaultOf, Less, Names;
    var names := Names(t.meshes.Keys);
    var k := FirstFault(t, names, {});
    m := names[k];
    assert m in names;
    EarlierNames(t.meshes.Keys, k);
    forall x | x in t.meshes && Less(x, m) ensures MeshWellFormed(x, t.meshes[x]) {
      var j :| 0 <= j < k && names[..k][j] == x;
    }
    assert {} + Before(t, names[..k]) == EarlierNodes(t, m);
  }

  lemma WellFormedFiled(t: Topology)
    requires t.WellFormed()
    ensures Filed(t)
  {
  }

  // ---------------------------------------------------------------------------------------------
  // The journal form of the create specs
  // ---------------------------------------------------------------------------------------------

  /** The specs as the journal writes them: the values, in path order. */
  function WriteSpecs(specs: map<PathName, Spec>): seq<Spec> {
    WriteAt(specs, Paths(specs.Keys))
  }

  function WriteAt(specs: map<PathName, Spec>, paths: seq<PathName>): (r: seq<Spec>)
    requires forall p :: p in paths ==> p in specs
    ensures |r| == |paths|
  {
    if paths == [] then [] else [specs[paths[0]]] + WriteAt(specs, paths[1..])
  }

  /** The specs read back by their own locations; a repeated location is refused by name. */
  function ReadFrom(held: map<PathName, Spec>, list: seq<Spec>): Result<map<PathName, Spec>, PathName>
    decreases |list|
  {
    if list == [] then Ok(held)
    else if list[0].at in held then Err(list[0].at)
    else ReadFrom(held[list[0].at := list[0]], list[1..])
  }

  method ReadSpecs(list: seq<Spec>) returns (r: Result<map<PathName, Spec>, PathName>)
    ensures r == ReadFrom(map[], list)
  {
    var specs := map[];
    for i := 0 to |list|
      invariant ReadFrom(map[], list) == ReadFrom(specs, list[i..])
    {
      if list[i].at in specs { return Err(list[i].at); }
      specs := specs[list[i].at := list[i]];
      assert list[i..][1..] == list[i + 1..];
    }
    return Ok(specs);
  }

  /** No location of the list is held or listed twice. */
  ghost predicate AtOnce(held: map<PathName, Spec>, list: seq<Spec>) {
    && (forall i :: 0 <= i < |list| ==> list[i].at !in held)
    && forall i, j :: 0 <= i < j < |list| ==> list[i].at != list[j].at
  }

  lemma AtOnceSplits(held: map<PathName, Spec>, s: Spec, rest: seq<Spec>)
    requires s.at !in held
    ensures AtOnce(held, [s] + rest) <==> AtOnce(held[s.at := s], rest)
  {
    var list := [s] + rest;
    assert forall i :: 0 < i < |list| ==> list[i] == rest[i - 1];
    if AtOnce(held, list) {
      forall i | 0 <= i < |rest| ensures rest[i].at !in held && rest[i].at != s.at {
        assert list[i + 1] == rest[i] && list[0] == s;
      }
      forall i, j | 0 <= i < j < |rest| ensures rest[i].at != rest[j].at {
        assert list[i + 1] == rest[i] && list[j + 1] == rest[j];
      }
    }
  }

  lemma {:induction false} ReadOk(held: map<PathName, Spec>, list: seq<Spec>)
    ensures ReadFrom(held, list).Ok? <==> AtOnce(held, list)
    decreases |list|
  {
    hide AtOnce;
    if list == [] {
      AtOnceNone(held);
    } else if list[0].at in held {
      HeldTwice(held, list);
    } else {
      assert list == [list[0]] + list[1..];
      AtOnceSplits(held, list[0], list[1..]);
      ReadOk(held[list[0].at := list[0]], list[1..]);
    }
  }

  lemma AtOnceNone(held: map<PathName, Spec>)
    ensures AtOnce(held, [])
  {
  }

  lemma HeldTwice(held: map<PathName, Spec>, list: seq<Spec>)
    requires list != [] && list[0].at in held
    ensures !AtOnce(held, list)
  {
  }

  lemma {:induction false} ReadHolds(held: map<PathName, Spec>, list: seq<Spec>)
    requires ReadFrom(held, list).Ok?
    ensures
      var r := ReadFrom(held, list).value;
      && (forall p :: p in r <==> p in held || exists s :: s in list && s.at == p)
      && (forall p :: p in held ==> r[p] == held[p])
      && forall s :: s in list ==> r[s.at] == s
    decreases |list|
  {
    if list != [] {
      assert list == [list[0]] + list[1..];
      ReadHolds(held[list[0].at := list[0]], list[1..]);
    }
  }

  /** The location refused is held, or listed before. */
  ghost predicate RepeatedAt(held: map<PathName, Spec>, list: seq<Spec>, p: PathName, j: int) {
    0 <= j < |list| && list[j].at == p && (p in held || exists i :: 0 <= i < j && list[i].at == p)
  }

  lemma {:induction false} ReadRefuses(held: map<PathName, Spec>, list: seq<Spec>) returns (j: nat)
    requires ReadFrom(held, list).Err?
    ensures RepeatedAt(held, list, ReadFrom(held, list).error, j)
    decreases |list|
  {
    if list[0].at in held {
      j := 0;
    } else {
      var rest, grown := list[1..], held[list[0].at := list[0]];
      j := ReadRefuses(grown, rest);
      var p := ReadFrom(grown, rest).error;
      if i :| 0 <= i < j && rest[i].at == p { assert list[i + 1].at == p; }
      assert list[j + 1] == rest[j];
      j := j + 1;
    }
  }

  /** A list is read exactly when no location repeats, each spec at its own; a location refused is one listed twice. */
  lemma ReadExactly(list: seq<Spec>)
    ensures
      var r := ReadFrom(map[], list);
      && (r.Ok? <==> forall i, j :: 0 <= i < j < |list| ==> list[i].at != list[j].at)
      && (r.Ok? ==>
          && (forall p :: p in r.value <==> exists s :: s in list && s.at == p)
          && forall s :: s in list ==> r.value[s.at] == s)
      && (r.Err? ==> exists i, j :: 0 <= i < j < |list| && list[i].at == list[j].at == r.error)
  {
    hide ReadFrom;
    ReadOk(map[], list);
    if ReadFrom(map[], list).Ok? {
      ReadHolds(map[], list);
    } else {
      var j := ReadRefuses(map[], list);
    }
  }

  function Picked(specs: map<PathName, Spec>, paths: seq<PathName>): map<PathName, Spec>
    requires forall p :: p in paths ==> p in specs
  {
    map p | p in paths :: specs[p]
  }

  lemma PickedAll(specs: map<PathName, Spec>, paths: seq<PathName>)
    requires forall p :: p in paths <==> p in specs
    ensures map[] + Picked(specs, paths) == specs
  {
  }

  lemma PickedNone(specs: map<PathName, Spec>, held: map<PathName, Spec>)
    ensures held + Picked(specs, []) == held
  {
  }

  lemma PickedGrows(specs: map<PathName, Spec>, held: map<PathName, Spec>, p: PathName, rest: seq<PathName>)
    requires p in specs && p !in rest && forall q :: q in rest ==> q in specs
    ensures held[p := specs[p]] + Picked(specs, rest) == held + Picked(specs, [p] + rest)
  {
  }

  lemma {:induction false} ReadBack(specs: map<PathName, Spec>, held: map<PathName, Spec>, paths: seq<PathName>)
    requires NoRepeats(paths) && forall p :: p in paths ==> p in specs && specs[p].at == p && p !in held
    ensures ReadFrom(held, WriteAt(specs, paths)) == Ok(held + Picked(specs, paths))
    decreases |paths|
  {
    hide Picked, Order.Less;
    if paths == [] {
      PickedNone(specs, held);
    } else {
      var p, rest := paths[0], paths[1..];
      assert paths == [p] + rest;
      ReadBack(specs, held[p := specs[p]], rest);
      assert WriteAt(specs, paths)[1..] == WriteAt(specs, rest);
      PickedGrows(specs, held, p, rest);
    }
  }

  lemma {:induction false} ReadKeyed(held: map<PathName, Spec>, list: seq<Spec>)
    requires ReadFrom(held, list).Ok? && forall p :: p in held ==> held[p].at == p
    ensures forall p :: p in ReadFrom(held, list).value ==> ReadFrom(held, list).value[p].at == p
    decreases |list|
  {
    if list != [] { ReadKeyed(held[list[0].at := list[0]], list[1..]); }
  }

  /** What the journal writes reads back as the same map exactly when every spec sits at its own location, which
      validation demands. */
  lemma SpecsRoundTrip(specs: map<PathName, Spec>)
    ensures ReadFrom(map[], WriteSpecs(specs)) == Ok(specs) <==> forall p :: p in specs ==> specs[p].at == p
  {
    hide Order.Ascending, PathLess, ReadFrom, WriteAt, Picked;
    var paths := Paths(specs.Keys);
    PathsNoRepeats(specs.Keys);
    if forall p :: p in specs ==> specs[p].at == p {
      ReadBack(specs, map[], paths);
      PickedAll(specs, paths);
    }
    if ReadFrom(map[], WriteSpecs(specs)) == Ok(specs) { ReadKeyed(map[], WriteSpecs(specs)); }
  }
}
