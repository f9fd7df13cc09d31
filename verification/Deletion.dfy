/** What a Delete removes, and exactly when it is accepted. */
module Deletion {
  import opened Model
  import opened Changes

  /** The birth holding `id` now, the current one at its location. */
  function BirthOf(v: View, id: NodeId): (r: Option<Node>)
    ensures r.Some? ==> r.value in v.nodes && r.value.id == id && v.At(r.value.at) == r
  {
    var n := v.Own(id);
    if n.None? then None
    else if v.At(n.value.at).Some? && v.At(n.value.at).value.id == id then v.At(n.value.at)
    else None
  }

  /** `t` without `p` of `mesh`; a deleted mesh leaves with its last node. */
  function WithoutNode(t: Topology, mesh: string, p: PathName, dead: bool): Topology
    requires mesh in t.meshes
  {
    var m := t.meshes[mesh];
    var left := m.(nodes := m.nodes - {p}, specs := m.specs - {p});
    if dead && left.nodes == {} then t.(meshes := t.meshes - {mesh}) else t.(meshes := t.meshes[mesh := left])
  }

  function DeleteOne(t: Topology, meshes: seq<string>, id: NodeId, v: View): (r: Result<Topology, Reject>)
    requires Filed(t)
    ensures r.Ok? ==> Filed(r.value)
  {
    var b := BirthOf(v, id);
    if b.None? || !t.Contains(b.value.at) then Err(UnknownNodeId(id))
    else
      var spec := t.SpecAt(b.value.at).value;
      OwnedByItsMesh(t, b.value.at);
      var m := t.meshes[spec.mesh];
      if spec.kind == NODE_ADMIN && |m.Admins()| <= 1 && spec.mesh !in meshes && !v.DeadMesh(spec.mesh)
      then Err(WouldLeaveMeshWithoutAdmin(spec.mesh))
      else
        WithoutNodeFiled(t, spec.mesh, b.value.at, v.DeadMesh(spec.mesh));
        Ok(WithoutNode(t, spec.mesh, b.value.at, v.DeadMesh(spec.mesh)))
  }

  lemma WithoutNodeFiled(t: Topology, mesh: string, p: PathName, dead: bool)
    requires Filed(t) && mesh in t.meshes
    ensures Filed(WithoutNode(t, mesh, p, dead))
  {
  }

  lemma OwnedByItsMesh(t: Topology, p: PathName)
    requires Filed(t) && t.Contains(p)
    ensures t.SpecAt(p).value.mesh in t.meshes
    ensures p in t.meshes[t.SpecAt(p).value.mesh].nodes
    ensures t.SpecAt(p).value == t.meshes[t.SpecAt(p).value.mesh].specs[p]
  {
    ContainsFiled(t, p);
    var m :| m in t.meshes && p in t.meshes[m].nodes;
    SpecAtFiled(t, m, p);
  }

  function DeleteNodes(t: Topology, meshes: seq<string>, ids: seq<NodeId>, v: View): (r: Result<Topology, Reject>)
    requires Filed(t)
    ensures r.Ok? ==> Filed(r.value)
    decreases |ids|
  {
    if ids == [] then Ok(t)
    else
      var one := DeleteOne(t, meshes, ids[0], v);
      if one.Err? then one else DeleteNodes(one.value, meshes, ids[1..], v)
  }

  lemma DeleteNodesStep(t: Topology, meshes: seq<string>, ids: seq<NodeId>, v: View)
    requires Filed(t) && ids != []
    ensures DeleteNodes(t, meshes, ids, v) ==
            var one := DeleteOne(t, meshes, ids[0], v);
            if one.Err? then one else DeleteNodes(one.value, meshes, ids[1..], v)
  {
  }

  function DropMeshes(t: Topology, meshes: seq<string>): Result<Topology, Reject>
    decreases |meshes|
  {
    if meshes == [] then Ok(t)
    else if meshes[0] !in t.meshes then Err(UnknownMesh(meshes[0]))
    else DropMeshes(t.(meshes := t.meshes - {meshes[0]}), meshes[1..])
  }

  predicate AnyLiveMesh(v: View) { exists m :: m in v.meshes && m.status != ScopeDead }

  function Removed(next: Topology, meshes: seq<string>, ids: seq<NodeId>, v: View): Result<Topology, Reject>
    requires Filed(next)
  {
    if meshes == [] && ids == [] then Err(NoNodeListed)
    else
      var nodes := DeleteNodes(next, meshes, ids, v);
      if nodes.Err? then nodes
      else
        var left := DropMeshes(nodes.value, meshes);
        if left.Ok? && left.value.meshes == map[] && AnyLiveMesh(v) then Err(EmptyFabric) else left
  }

  /** The removal, in place over the topology, one node id and then one mesh at a time. */
  method Remove(next: Topology, meshes: seq<string>, ids: seq<NodeId>, v: View) returns (r: Result<Topology, Reject>)
    requires Filed(next)
    ensures r == Removed(next, meshes, ids, v)
  {
    if meshes == [] && ids == [] { return Err(NoNodeListed); }
    var t := next;
    for i := 0 to |ids|
      invariant Filed(t) && DeleteNodes(next, meshes, ids, v) == DeleteNodes(t, meshes, ids[i..], v)
    {
      hide *;
      var one := DeleteOne(t, meshes, ids[i], v);
      DeleteNodesStep(t, meshes, ids[i..], v);
      assert ids[i..][1..] == ids[i + 1..];
      if one.Err? { return one; }
      t := one.value;
    }
    ghost var kept := t;
    for i := 0 to |meshes|
      invariant DropMeshes(kept, meshes) == DropMeshes(t, meshes[i..])
    {
      assert meshes[i..][1..] == meshes[i + 1..];
      if meshes[i] !in t.meshes { return Err(UnknownMesh(meshes[i])); }
      t := t.(meshes := t.meshes - {meshes[i]});
    }
    if t.meshes == map[] && AnyLiveMesh(v) { return Err(EmptyFabric); }
    return Ok(t);
  }

  // ---------------------------------------------------------------------------------------------
  // Exactly what a Delete removes, whatever order it lists it in
  // ---------------------------------------------------------------------------------------------

  /** The locations of the births `ids` names. */
  function Gone(v: View, ids: seq<NodeId>): set<PathName> {
    set id | id in ids && BirthOf(v, id).Some? :: BirthOf(v, id).value.at
  }

  function Cut(m: MeshTopology, gone: set<PathName>): MeshTopology {
    m.(nodes := m.nodes - gone, specs := m.specs - gone)
  }

  /** A deleted mesh `gone` takes every node of. */
  predicate Emptied(t: Topology, m: string, gone: set<PathName>, v: View)
    requires m in t.meshes
  {
    v.DeadMesh(m) && t.meshes[m].nodes != {} && t.meshes[m].nodes <= gone
  }

  /** `t` with the nodes `gone` taken out of it, all at once. */
  function Without(t: Topology, gone: set<PathName>, v: View): Topology {
    t.(meshes := map m | m in t.meshes && !Emptied(t, m, gone, v) :: Cut(t.meshes[m], gone))
  }

  lemma WithoutFiled(t: Topology, gone: set<PathName>, v: View)
    requires Filed(t)
    ensures Filed(Without(t, gone, v))
  {
  }

  lemma WithoutHolds(t: Topology, gone: set<PathName>, v: View, m: string, p: PathName)
    requires Filed(t)
    ensures m in Without(t, gone, v).meshes && p in Without(t, gone, v).meshes[m].nodes <==>
            m in t.meshes && p in t.meshes[m].nodes && p !in gone
    ensures m in Without(t, gone, v).meshes && p in Without(t, gone, v).meshes[m].nodes ==>
            Without(t, gone, v).meshes[m].specs[p] == t.meshes[m].specs[p]
  {
  }

  lemma WithoutSpec(t: Topology, gone: set<PathName>, v: View, p: PathName)
    requires Filed(t) && Filed(Without(t, gone, v))
    ensures Without(t, gone, v).Contains(p) <==> t.Contains(p) && p !in gone
    ensures Without(t, gone, v).Contains(p) ==> Without(t, gone, v).SpecAt(p) == t.SpecAt(p)
  {
    hide *;
    var w := Without(t, gone, v);
    if w.Contains(p) {
      SpecOwned(w, p);
      var m := w.SpecAt(p).value.mesh;
      WithoutHolds(t, gone, v, m, p);
      SpecIn(t, m, p);
    }
    if t.Contains(p) && p !in gone {
      SpecOwned(t, p);
      var m := t.SpecAt(p).value.mesh;
      WithoutHolds(t, gone, v, m, p);
      SpecIn(w, m, p);
    }
  }

  lemma SpecOwned(t: Topology, p: PathName)
    requires Filed(t) && t.Contains(p)
    ensures t.SpecAt(p).Some? && t.SpecAt(p).value.mesh in t.meshes
    ensures p in t.meshes[t.SpecAt(p).value.mesh].nodes && p in t.meshes[t.SpecAt(p).value.mesh].specs
    ensures t.SpecAt(p).value == t.meshes[t.SpecAt(p).value.mesh].specs[p]
  {
    OwnedByItsMesh(t, p);
  }

  lemma SpecIn(t: Topology, m: string, p: PathName)
    requires Filed(t) && m in t.meshes && p in t.meshes[m].nodes
    ensures t.Contains(p) && p in t.meshes[m].specs && t.SpecAt(p) == Some(t.meshes[m].specs[p])
        && t.SpecAt(p).value.mesh == m
  {
    SpecAtFiled(t, m, p);
  }

  /** The mesh `m` keeps a node-admin, or may lose its last: it is deleted whole, or already Dead. */
  predicate AdminKept(t: Topology, m: string, before: set<PathName>, after: set<PathName>, meshes: seq<string>, v: View)
    requires m in t.meshes
  {
    m in meshes || v.DeadMesh(m) || t.meshes[m].Admins() <= before || !(t.meshes[m].Admins() <= after)
  }

  predicate Nameable(t: Topology, gone: set<PathName>, id: NodeId, v: View) {
    BirthOf(v, id).Some? && t.Contains(BirthOf(v, id).value.at) && BirthOf(v, id).value.at !in gone
  }

  lemma CutAdmins(m: MeshTopology, gone: set<PathName>)
    ensures Cut(m, gone).Admins() == m.Admins() - gone
  {
  }

  lemma AtMostOne<T>(s: set<T>, x: T)
    requires x in s
    ensures |s| <= 1 <==> s == {x}
  {
    if s != {x} { assert |s - {x}| == |s| - 1; var y :| y in s - {x}; }
  }

  lemma CutMore(m: MeshTopology, gone: set<PathName>, p: PathName)
    ensures Cut(Cut(m, gone), {p}) == Cut(m, gone + {p})
    ensures m.nodes == m.specs.Keys && p !in m.nodes ==> Cut(m, gone) == Cut(m, gone + {p})
  {
    assert m.nodes - gone - {p} == m.nodes - (gone + {p});
    assert m.specs - gone - {p} == m.specs - (gone + {p});
    if m.nodes == m.specs.Keys && p !in m.nodes {
      assert m.nodes - gone == m.nodes - (gone + {p});
      assert m.specs - gone == m.specs - (gone + {p});
    }
  }

  lemma WithoutElsewhere(t: Topology, gone: set<PathName>, v: View, x: string, p: PathName)
    requires x in t.meshes && p !in t.meshes[x].nodes && t.meshes[x].nodes == t.meshes[x].specs.Keys
    ensures x in Without(t, gone, v).meshes <==> x in Without(t, gone + {p}, v).meshes
    ensures x in Without(t, gone, v).meshes ==> Without(t, gone, v).meshes[x] == Without(t, gone + {p}, v).meshes[x]
  {
    CutMore(t.meshes[x], gone, p);
  }

  lemma WithoutHere(t: Topology, gone: set<PathName>, v: View, m: string, p: PathName)
    requires m in t.meshes && p in t.meshes[m].nodes && p !in gone
    ensures m in Without(t, gone, v).meshes
    ensures WithoutNode(Without(t, gone, v), m, p, v.DeadMesh(m)) == t.(meshes :=
              if m in Without(t, gone + {p}, v).meshes then Without(t, gone, v).meshes[m :=
                  Without(t, gone + {p}, v).meshes[m]]
              else Without(t, gone, v).meshes - {m})
  {
    CutMore(t.meshes[m], gone, p);
    assert Cut(t.meshes[m], gone + {p}).nodes == {} <==> t.meshes[m].nodes <= gone + {p};
  }

  lemma WithoutFrame(t: Topology, gone: set<PathName>, v: View)
    ensures Without(t, gone, v) == t.(meshes := Without(t, gone, v).meshes)
        && Without(t, gone, v).meshes.Keys <= t.meshes.Keys
  {
  }

  lemma FiledOnce(t: Topology, m: string, p: PathName)
    requires Filed(t) && m in t.meshes && p in t.meshes[m].nodes
    ensures forall x ::
        x in t.meshes && x != m ==> p !in t.meshes[x].nodes && t.meshes[x].nodes == t.meshes[x].specs.Keys
  {
  }

  lemma WithoutMore(t: Topology, gone: set<PathName>, v: View, m: string, p: PathName)
    requires Filed(t) && m in t.meshes && p in t.meshes[m].nodes && p !in gone
    ensures m in Without(t, gone, v).meshes
    ensures WithoutNode(Without(t, gone, v), m, p, v.DeadMesh(m)) == Without(t, gone + {p}, v)
  {
    hide *;
    FiledOnce(t, m, p);
    WithoutHere(t, gone, v, m, p);
    forall x | x in t.meshes && x != m { WithoutElsewhere(t, gone, v, x, p); }
    WithoutFrame(t, gone, v);
    WithoutFrame(t, gone + {p}, v);
    assert WithoutNode(Without(t, gone, v), m, p, v.DeadMesh(m)).meshes == Without(t, gone + {p}, v).meshes;
  }

  /** One node id is taken exactly when its birth stands in the topology and its mesh keeps an admin. */
  lemma OneExactly(t: Topology, gone: set<PathName>, meshes: seq<string>, id: NodeId, v: View)
    requires Filed(t) && Filed(Without(t, gone, v))
    ensures
      var r := DeleteOne(Without(t, gone, v), meshes, id, v);
      && (r.Ok? <==>
          Nameable(t, gone, id, v) && forall m ::
            m in t.meshes ==> AdminKept(t, m, gone, gone + {BirthOf(v, id).value.at}, meshes, v))
      && (r.Ok? ==> r.value == Without(t, gone + {BirthOf(v, id).value.at}, v))
  {
    hide BirthOf, Without, Filed, WithoutNode, View.DeadMesh, MeshTopology.Admins, FirstSpec, Names;
    var w := Without(t, gone, v);
    if BirthOf(v, id).Some? { WithoutSpec(t, gone, v, BirthOf(v, id).value.at); }
    if Nameable(t, gone, id, v) {
      var p := BirthOf(v, id).value.at;
      OwnedByItsMesh(t, p);
      OwnedByItsMesh(w, p);
      var m := t.SpecAt(p).value.mesh;
      WithoutMore(t, gone, v, m, p);
      AdminsWithout(t, gone, v, m, p);
      if p in t.meshes[m].Admins() { AtMostOne(w.meshes[m].Admins(), p); }
      forall x | x in t.meshes && x != m ensures AdminKept(t, x, gone, gone + {p}, meshes, v) {
        OtherAdmins(t, m, x, p);
      }
    }
  }

  lemma AdminsWithout(t: Topology, gone: set<PathName>, v: View, m: string, p: PathName)
    requires Filed(t) && m in Without(t, gone, v).meshes && m in t.meshes && p in t.meshes[m].nodes
    ensures Without(t, gone, v).meshes[m].Admins() == t.meshes[m].Admins() - gone
    ensures p in t.meshes[m].Admins() <==> t.meshes[m].specs[p].kind == NODE_ADMIN
  {
  }

  lemma OtherAdmins(t: Topology, m: string, x: string, p: PathName)
    requires Filed(t) && m in t.meshes && x in t.meshes && x != m && p in t.meshes[m].nodes
    ensures p !in t.meshes[x].Admins()
  {
  }

  predicate Deletable(t: Topology, gone: set<PathName>, meshes: seq<string>, ids: seq<NodeId>, v: View) {
    && NoRepeats(ids)
    && (forall id :: id in ids ==> Nameable(t, gone, id, v))
    && forall m :: m in t.meshes ==> AdminKept(t, m, gone, gone + Gone(v, ids), meshes, v)
  }

  lemma DeletableSplits(t: Topology, gone: set<PathName>, meshes: seq<string>, ids: seq<NodeId>, v: View)
    requires ids != [] && Nameable(t, gone, ids[0], v)
    ensures
      var p := BirthOf(v, ids[0]).value.at;
      && gone + Gone(v, ids) == gone + {p} + Gone(v, ids[1..])
      && (Deletable(t, gone, meshes, ids, v) <==>
          (forall m :: m in t.meshes ==> AdminKept(t, m, gone, gone + {p}, meshes, v))
              && Deletable(t, gone + {p}, meshes, ids[1..], v))
  {
    hide MeshTopology.Admins, View.DeadMesh, Topology.Contains;
    var id, rest := ids[0], ids[1..];
    var p := BirthOf(v, id).value.at;
    assert ids == [id] + rest;
    assert Gone(v, ids) == {p} + Gone(v, rest);
    assert gone + Gone(v, ids) == gone + {p} + Gone(v, rest);
    forall other | other in rest
      ensures Nameable(t, gone + {p}, other, v) <==> Nameable(t, gone, other, v) && other != id
    {
    }
    assert NoRepeats(ids) <==> id !in rest && NoRepeats(rest);
  }

  lemma {:induction false} NodesExactly(t: Topology, gone: set<PathName>, meshes: seq<string>, ids: seq<NodeId>,
      v: View)
    requires Filed(t) && Filed(Without(t, gone, v))
    ensures
      var r := DeleteNodes(Without(t, gone, v), meshes, ids, v);
      && (r.Ok? <==> Deletable(t, gone, meshes, ids, v))
      && (r.Ok? ==> r.value == Without(t, gone + Gone(v, ids), v))
    decreases |ids|
  {
    hide Without, Filed, AdminKept, Nameable, DeleteOne, BirthOf;
    if ids == [] {
      assert gone + Gone(v, ids) == gone;
      forall m | m in t.meshes ensures AdminKept(t, m, gone, gone, meshes, v) { AdminKeptSame(t, m, gone, meshes, v); }
    } else {
      OneExactly(t, gone, meshes, ids[0], v);
      if Nameable(t, gone, ids[0], v) {
        BirthNamed(t, gone, ids[0], v);
        var p := BirthOf(v, ids[0]).value.at;
        DeletableSplits(t, gone, meshes, ids, v);
        WithoutFiled(t, gone + {p}, v);
        NodesExactly(t, gone + {p}, meshes, ids[1..], v);
      }
    }
  }

  lemma AdminKeptSame(t: Topology, m: string, gone: set<PathName>, meshes: seq<string>, v: View)
    requires m in t.meshes
    ensures AdminKept(t, m, gone, gone, meshes, v)
  {
  }

  lemma BirthNamed(t: Topology, gone: set<PathName>, id: NodeId, v: View)
    requires Nameable(t, gone, id, v)
    ensures BirthOf(v, id).Some?
  {
  }

  lemma {:induction false} MeshesExactly(t: Topology, meshes: seq<string>)
    ensures DropMeshes(t, meshes).Ok? <==> NoRepeats(meshes) && forall m :: m in meshes ==> m in t.meshes
    ensures DropMeshes(t, meshes).Ok? ==> DropMeshes(t, meshes).value == t.(meshes := t.meshes - (set m | m in meshes))
    decreases |meshes|
  {
    if meshes == [] {
      assert t.meshes - (set m | m in meshes) == t.meshes;
    } else {
      var rest := meshes[1..];
      assert meshes == [meshes[0]] + rest;
      if meshes[0] in t.meshes {
        MeshesExactly(t.(meshes := t.meshes - {meshes[0]}), rest);
        assert t.meshes - {meshes[0]} - (set m | m in rest) == t.meshes - (set m | m in meshes);
      }
    }
  }

  /** What is left once the births `ids` name and the meshes `meshes` are taken out together. */
  function AfterDelete(next: Topology, meshes: seq<string>, ids: seq<NodeId>, v: View): Topology {
    var w := Without(next, Gone(v, ids), v);
    w.(meshes := w.meshes - (set m | m in meshes))
  }

  /** Every id once, each a birth standing in the topology; every mesh once, each held and not emptied by the ids; each
      other live mesh keeping an admin; and a mesh left while any is live. */
  predicate DeleteAdmitted(next: Topology, meshes: seq<string>, ids: seq<NodeId>, v: View) {
    && (meshes != [] || ids != [])
    && Deletable(next, {}, meshes, ids, v)
    && NoRepeats(meshes) && (forall m :: m in meshes ==> m in Without(next, Gone(v, ids), v).meshes)
    && (AfterDelete(next, meshes, ids, v).meshes != map[] || !AnyLiveMesh(v))
  }

  lemma WithoutNone(t: Topology, v: View)
    ensures Without(t, {}, v) == t
  {
    forall m | m in t.meshes ensures Cut(t.meshes[m], {}) == t.meshes[m] {
      assert t.meshes[m].nodes - {} == t.meshes[m].nodes && t.meshes[m].specs - {} == t.meshes[m].specs;
    }
    assert Without(t, {}, v).meshes == t.meshes;
  }

  /** A Delete is accepted exactly when it is admitted as a whole, and takes out exactly what it names. */
  lemma RemovedExactly(next: Topology, meshes: seq<string>, ids: seq<NodeId>, v: View)
    requires Filed(next)
    ensures Removed(next, meshes, ids, v).Ok? <==> DeleteAdmitted(next, meshes, ids, v)
    ensures Removed(next, meshes, ids, v).Ok? ==>
        Removed(next, meshes, ids, v).value == AfterDelete(next, meshes, ids, v)
  {
    hide Deletable, Without, Filed, DropMeshes, AnyLiveMesh;
    WithoutNone(next, v);
    NodesExactly(next, {}, meshes, ids, v);
    assert {} + Gone(v, ids) == Gone(v, ids);
    MeshesExactly(Without(next, Gone(v, ids), v), meshes);
  }

  /** The order of a Delete's list decides nothing: neither whether it is accepted nor what it leaves. */
  lemma DeleteOrderInsensitive(next: Topology, meshes: seq<string>, meshes': seq<string>, ids: seq<NodeId>,
      ids': seq<NodeId>, v: View)
    requires Filed(next) && multiset(meshes) == multiset(meshes') && multiset(ids) == multiset(ids')
    ensures Removed(next, meshes, ids, v).Ok? == Removed(next, meshes', ids', v).Ok?
    ensures Removed(next, meshes, ids, v).Ok? ==> Removed(next, meshes, ids, v) == Removed(next, meshes', ids', v)
  {
    hide Removed, Filed, Nameable, Without, AnyLiveMesh, BirthOf;
    RemovedExactly(next, meshes, ids, v);
    RemovedExactly(next, meshes', ids', v);
    SameElements(ids, ids');
    SameElements(ids', ids);
    SameElements(meshes, meshes');
    SameElements(meshes', meshes);
    assert Gone(v, ids) == Gone(v, ids');
    assert (set m | m in meshes) == (set m | m in meshes');
  }

  /** Naming a node id or a mesh twice is refused, whatever else the Delete lists. */
  lemma RepeatsRefused(next: Topology, meshes: seq<string>, ids: seq<NodeId>, v: View)
    requires Filed(next) && (!NoRepeats(ids) || !NoRepeats(meshes))
    ensures Removed(next, meshes, ids, v).Err?
  {
    RemovedExactly(next, meshes, ids, v);
  }

  /** No mesh that is neither deleted nor Dead loses its last node-admin. */
  lemma KeepsAnAdmin(next: Topology, meshes: seq<string>, ids: seq<NodeId>, v: View, m: string)
    requires Filed(next) && Removed(next, meshes, ids, v).Ok?
    requires m in next.meshes && m !in meshes && !v.DeadMesh(m) && next.meshes[m].Admins() != {}
    ensures m in Removed(next, meshes, ids, v).value.meshes
    ensures Removed(next, meshes, ids, v).value.meshes[m].Admins() != {}
  {
    hide Filed, Removed, Without, DeleteAdmitted;
    RemovedExactly(next, meshes, ids, v);
    AdminSurvives(next, meshes, ids, v, m);
  }

  lemma AdminSurvives(next: Topology, meshes: seq<string>, ids: seq<NodeId>, v: View, m: string)
    requires DeleteAdmitted(next, meshes, ids, v)
    requires m in next.meshes && m !in meshes && !v.DeadMesh(m) && next.meshes[m].Admins() != {}
    ensures m in AfterDelete(next, meshes, ids, v).meshes
    ensures AfterDelete(next, meshes, ids, v).meshes[m].Admins() != {}
  {
    hide AnyLiveMesh, Gone, Nameable, NoRepeats;
    assert AdminKept(next, m, {}, {} + Gone(v, ids), meshes, v);
    CutAdmins(next.meshes[m], Gone(v, ids));
  }

  // ---------------------------------------------------------------------------------------------
  // Refusals by name
  // ---------------------------------------------------------------------------------------------

  /** The birth a node id names is the one the view lists under it. */
  lemma BirthOfListed(v: View, id: NodeId, n: Node)
    requires v.WellFormed()
    ensures BirthOf(v, id) == Some(n) <==> n in v.nodes && n.id == id
  {
  }

  lemma ListedBirths(v: View, id: NodeId)
    requires v.WellFormed()
    ensures BirthOf(v, id).None? <==> forall n :: n in v.nodes ==> n.id != id
  {
    if BirthOf(v, id).None? {
      forall n | n in v.nodes ensures n.id != id { BirthOfListed(v, id, n); }
    }
  }

  /** `id`, listed at `k`, names no birth, one at no location of the topology, or one listed before. */
  ghost predicate UnknownAt(next: Topology, ids: seq<NodeId>, v: View, id: NodeId, k: int) {
    && 0 <= k < |ids| && ids[k] == id
    && (|| id in ids[..k]
        || forall n, m :: n in v.nodes && n.id == id && m in next.meshes ==> n.at !in next.meshes[m].nodes)
  }

  /** Every birth of the mesh that is a node-admin is named. */
  ghost predicate AdminsNamed(m: MeshTopology, ids: seq<NodeId>, v: View) {
    forall p :: p in m.nodes && p in m.specs && m.specs[p].kind == "node-admin" ==> exists n ::
        n in v.nodes && n.at == p && n.id in ids
  }

  /** `why` is true of the Delete. */
  ghost predicate DeleteFault(next: Topology, meshes: seq<string>, ids: seq<NodeId>, v: View, why: Reject) {
    match why
    case NoNodeListed => meshes == [] && ids == []
    case UnknownNodeId(id) => exists k :: UnknownAt(next, ids, v, id, k)
    case WouldLeaveMeshWithoutAdmin(m) =>
      m in next.meshes && m !in meshes && !v.DeadMesh(m) && AdminsNamed(next.meshes[m], ids, v)
    case UnknownMesh(m) =>
      exists k :: 0 <= k < |meshes| && meshes[k] == m &&
        (m !in next.meshes || m in meshes[..k] || (v.DeadMesh(m) && forall p ::
            p in next.meshes[m].nodes ==> exists n :: n in v.nodes && n.at == p && n.id in ids))
    case EmptyFabric => exists m :: m in v.meshes && m.status != ScopeDead
    case _ => false
  }

  /** The refusal of one id, over what `gone` leaves. */
  ghost predicate OneFault(t: Topology, gone: set<PathName>, meshes: seq<string>, id: NodeId, v: View, why: Reject) {
    || (why == UnknownNodeId(id) && !Nameable(t, gone, id, v))
    || (why.WouldLeaveMeshWithoutAdmin? && why.mesh in t.meshes && why.mesh !in meshes && !v.DeadMesh(why.mesh)
        && BirthOf(v, id).Some? && t.meshes[why.mesh].Admins() <= gone + {BirthOf(v, id).value.at})
  }

  lemma OneRefused(t: Topology, gone: set<PathName>, meshes: seq<string>, id: NodeId, v: View)
    requires Filed(t) && Filed(Without(t, gone, v)) && DeleteOne(Without(t, gone, v), meshes, id, v).Err?
    ensures OneFault(t, gone, meshes, id, v, DeleteOne(Without(t, gone, v), meshes, id, v).error)
  {
    hide BirthOf, Without, Filed, WithoutNode, View.DeadMesh, MeshTopology.Admins, FirstSpec, Names;
    var w := Without(t, gone, v);
    if BirthOf(v, id).Some? { WithoutSpec(t, gone, v, BirthOf(v, id).value.at); }
    if Nameable(t, gone, id, v) {
      var p := BirthOf(v, id).value.at;
      OwnedByItsMesh(t, p);
      OwnedByItsMesh(w, p);
      var m := t.SpecAt(p).value.mesh;
      AdminsWithout(t, gone, v, m, p);
      if p in t.meshes[m].Admins() { AtMostOne(w.meshes[m].Admins(), p); }
    }
  }

  lemma {:induction false} IdsRefused(t: Topology, gone: set<PathName>, meshes: seq<string>, ids: seq<NodeId>, v: View)
      returns (k: nat)
    requires Filed(t) && Filed(Without(t, gone, v)) && DeleteNodes(Without(t, gone, v), meshes, ids, v).Err?
    ensures k < |ids| && OneFault(t, gone + Gone(v, ids[..k]), meshes, ids[k], v,
        DeleteNodes(Without(t, gone, v), meshes, ids, v).error)
    decreases |ids|
  {
    hide Without, Filed, AdminKept, Nameable, DeleteOne, BirthOf, OneFault;
    OneExactly(t, gone, meshes, ids[0], v);
    if DeleteOne(Without(t, gone, v), meshes, ids[0], v).Err? {
      k := 0;
      OneRefused(t, gone, meshes, ids[0], v);
      assert gone + Gone(v, ids[..0]) == gone;
    } else {
      BirthNamed(t, gone, ids[0], v);
      var p, rest := BirthOf(v, ids[0]).value.at, ids[1..];
      WithoutFiled(t, gone + {p}, v);
      k := IdsRefused(t, gone + {p}, meshes, rest, v);
      assert ids[..k + 1] == [ids[0]] + rest[..k];
      assert gone + {p} + Gone(v, rest[..k]) == gone + Gone(v, ids[..k + 1]);
      k := k + 1;
    }
  }

  lemma GoneNamed(v: View, ids: seq<NodeId>, p: PathName)
    requires v.WellFormed()
    ensures p in Gone(v, ids) <==> exists n :: n in v.nodes && n.at == p && n.id in ids
  {
    hide BirthOf, View.WellFormed;
    forall id, n { BirthOfListed(v, id, n); }
    if n :| n in v.nodes && n.at == p && n.id in ids { assert BirthOf(v, n.id) == Some(n); }
    if id :| id in ids && BirthOf(v, id).Some? && BirthOf(v, id).value.at == p {
      assert BirthOf(v, id) == Some(BirthOf(v, id).value);
    }
  }

  lemma UnknownTruly(next: Topology, ids: seq<NodeId>, v: View, k: nat)
    requires v.WellFormed() && Filed(next) && k < |ids| && !Nameable(next, Gone(v, ids[..k]), ids[k], v)
    ensures UnknownAt(next, ids, v, ids[k], k)
  {
    hide BirthOf, Filed, FirstAt, FirstOf, Gone, Topology.SpecAt;
    var id := ids[k];
    ListedBirths(v, id);
    if BirthOf(v, id).Some? {
      var n := BirthOf(v, id).value;
      BirthOfListed(v, id, n);
      forall x | x in v.nodes && x.id == id ensures x == n { BirthOfListed(v, id, x); }
      if next.Contains(n.at) {
        GoneNamed(v, ids[..k], n.at);
        var x :| x in v.nodes && x.at == n.at && x.id in ids[..k];
        assert v.At(n.at) == Some(n) && v.At(x.at) == Some(x);
      } else {
        ContainsFiled(next, n.at);
      }
    }
  }

  lemma AdminsNamedTruly(m: MeshTopology, ids: seq<NodeId>, v: View, k: nat)
    requires v.WellFormed() && k < |ids| && BirthOf(v, ids[k]).Some?
    requires m.Admins() <= Gone(v, ids[..k]) + {BirthOf(v, ids[k]).value.at}
    ensures AdminsNamed(m, ids, v)
  {
    hide BirthOf, Gone, View.WellFormed;
    forall p | p in m.nodes && p in m.specs && m.specs[p].kind == "node-admin"
      ensures exists n :: n in v.nodes && n.at == p && n.id in ids
    {
      assert p in m.Admins();
      GoneNamed(v, ids[..k], p);
      var n := BirthOf(v, ids[k]).value;
      BirthOfListed(v, ids[k], n);
      if p != n.at {
        var x :| x in v.nodes && x.at == p && x.id in ids[..k];
        assert x.id in ids;
      }
    }
  }

  lemma {:induction false} MeshesUnknown(t: Topology, meshes: seq<string>)
    requires DropMeshes(t, meshes).Err?
    ensures
      var why := DropMeshes(t, meshes).error;
      why.UnknownMesh? && exists k ::
          0 <= k < |meshes| && meshes[k] == why.mesh && (why.mesh !in t.meshes || why.mesh in meshes[..k])
    decreases |meshes|
  {
    var rest := meshes[1..];
    if meshes[0] in t.meshes {
      var t' := t.(meshes := t.meshes - {meshes[0]});
      MeshesUnknown(t', rest);
      var m := DropMeshes(t', rest).error.mesh;
      var k :| 0 <= k < |rest| && rest[k] == m && (m !in t'.meshes || m in rest[..k]);
      assert meshes[k + 1] == m && meshes[..k + 1] == [meshes[0]] + rest[..k];
    } else {
      assert meshes[0] == DropMeshes(t, meshes).error.mesh;
    }
  }

  /** A refused Delete is refused by name for a fault it has. */
  lemma DeleteRefusedTruly(next: Topology, meshes: seq<string>, ids: seq<NodeId>, v: View)
    requires v.WellFormed() && Filed(next) && Removed(next, meshes, ids, v).Err?
    ensures DeleteFault(next, meshes, ids, v, Removed(next, meshes, ids, v).error)
  {
    hide Without, Filed, DropMeshes, DeleteNodes, View.WellFormed, Nameable, BirthOf, Gone, View.DeadMesh, AdminsNamed,
        UnknownAt, MeshTopology.Admins;
    var why := Removed(next, meshes, ids, v).error;
    WithoutNone(next, v);
    if meshes != [] || ids != [] {
      NodesExactly(next, {}, meshes, ids, v);
      assert {} + Gone(v, ids) == Gone(v, ids);
      if DeleteNodes(next, meshes, ids, v).Err? {
        var k := IdsRefused(next, {}, meshes, ids, v);
        assert {} + Gone(v, ids[..k]) == Gone(v, ids[..k]);
        if why.UnknownNodeId? {
          UnknownTruly(next, ids, v, k);
        } else {
          AdminsNamedTruly(next.meshes[why.mesh], ids, v, k);
        }
      } else {
        var w := Without(next, Gone(v, ids), v);
        if DropMeshes(w, meshes).Err? {
          MeshesUnknown(w, meshes);
          EmptiedTruly(next, ids, v, why.mesh);
        }
      }
    }
  }

  lemma EmptiedTruly(next: Topology, ids: seq<NodeId>, v: View, m: string)
    requires v.WellFormed()
    ensures m !in Without(next, Gone(v, ids), v).meshes ==>
        m !in next.meshes || (v.DeadMesh(m) && forall p ::
            p in next.meshes[m].nodes ==> exists n :: n in v.nodes && n.at == p && n.id in ids)
  {
    hide Gone, View.WellFormed, View.DeadMesh;
    if m in next.meshes { forall p | p in next.meshes[m].nodes { GoneNamed(v, ids, p); } }
  }
}
