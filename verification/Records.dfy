/** The topology the fabric-primary's records hold now: what a submitted change is applied to. */
module Records {
  import opened Model

  /** The names of the meshes the records hold: every mesh not deleted, and a deleted one while a node of it stands. */
  function HeldNames(v: View): set<string> {
    (set m | m in v.meshes && m.status != ScopeDead :: m.name) + (set n | n in v.nodes && v.Stands(n) :: n.mesh)
  }

  /** The id the records state for `name`, else the accepted one, else a fresh one. */
  function HeldId(v: View, accepted: Topology, name: string, mint: string -> MeshId): MeshId {
    var m := v.MeshNamed(name);
    if m.Some? && m.value.id.Some? then m.value.id.value
    else if name in accepted.meshes then accepted.meshes[name].id
    else mint(name)
  }

  /** The accepted spec of `n`'s location while its type and mesh match, else its type's default. */
  function KeptSpec(accepted: Topology, n: Node): Spec {
    var s := accepted.SpecAt(n.at);
    if s.Some? && s.value.kind == n.kind && s.value.mesh == n.mesh then s.value else DefaultSpec(n.at, n.mesh, n.kind)
  }

  function StandingIn(nodes: seq<Node>, v: View, mesh: string): set<PathName> {
    set n | n in nodes && v.Stands(n) && n.mesh == mesh :: n.at
  }

  function HeldMesh(nodes: seq<Node>, v: View, accepted: Topology, name: string, mint: string -> MeshId): MeshTopology {
    var standing := StandingIn(nodes, v, name);
    MeshTopology(name, HeldId(v, accepted, name, mint), standing, map p | p in standing ::
        KeptSpec(accepted, v.At(p).value))
  }

  function OfRecords(v: View, accepted: Topology, mint: string -> MeshId): Topology {
    Topology(v.fabric, map m | m in HeldNames(v) :: HeldMesh(v.nodes, v, accepted, m, mint), accepted.provider, [], [])
  }

  lemma HeldMeshGrows(nodes: seq<Node>, n: Node, v: View, accepted: Topology, name: string, mint: string -> MeshId)
    requires v.WellFormed() && n in v.nodes
    ensures
      var was := HeldMesh(nodes, v, accepted, name, mint);
      HeldMesh(nodes + [n], v, accepted, name, mint) ==
      if name == n.mesh then was.(nodes := was.nodes + {n.at}, specs := was.specs[n.at := KeptSpec(accepted, n)])
          else was
  {
    hide KeptSpec, HeldId, StandingIn;
    StandingGrows(nodes, n, v, name);
  }

  lemma StandingGrows(nodes: seq<Node>, n: Node, v: View, name: string)
    requires v.WellFormed() && n in v.nodes
    ensures v.At(n.at) == Some(n)
    ensures StandingIn(nodes + [n], v, name) ==
            if name == n.mesh then StandingIn(nodes, v, name) + {n.at} else StandingIn(nodes, v, name)
  {
    assert v.Stands(n);
  }

  lemma HeldNamesAre(v: View)
    requires v.WellFormed()
    ensures forall m :: m in v.meshes ==>
              (m.name in HeldNames(v) <==>
                  m.status != ScopeDead || exists n :: n in v.nodes && v.Stands(n) && n.mesh == m.name)
    ensures forall name :: name in HeldNames(v) ==> exists m :: m in v.meshes && m.name == name
    ensures forall n :: n in v.nodes ==> n.mesh in HeldNames(v)
  {
  }

  lemma HeldMeshStarts(v: View, accepted: Topology, m: Mesh, mint: string -> MeshId)
    requires v.WellFormed() && m in v.meshes
    ensures HeldMesh([], v, accepted, m.name, mint) ==
            MeshTopology(m.name, if m.id.Some? then m.id.value
                else if m.name in accepted.meshes then accepted.meshes[m.name].id else mint(m.name), {}, map[])
  {
  }

  lemma RecordsAre(v: View, accepted: Topology, mint: string -> MeshId, meshes: map<string, MeshTopology>)
    requires meshes.Keys == HeldNames(v) && forall m ::
        m in meshes ==> meshes[m] == HeldMesh(v.nodes, v, accepted, m, mint)
    ensures Topology(v.fabric, meshes, accepted.provider, [], []) == OfRecords(v, accepted, mint)
  {
  }

  method Compose(v: View, accepted: Topology, mint: string -> MeshId) returns (t: Topology)
    requires v.WellFormed()
    ensures t == OfRecords(v, accepted, mint)
  {
    hide *;
    HeldNamesAre(v);
    var meshes: map<string, MeshTopology> := map[];
    for i := 0 to |v.meshes|
      invariant forall name ::
          name in meshes <==> name in HeldNames(v) && exists m :: m in v.meshes[..i] && m.name == name
      invariant forall name :: name in meshes ==> meshes[name] == HeldMesh([], v, accepted, name, mint)
    {
      var m := v.meshes[i];
      if m.status != ScopeDead || exists n :: n in v.nodes && v.Stands(n) && n.mesh == m.name {
        var id := if m.id.Some? then m.id.value
            else if m.name in accepted.meshes then accepted.meshes[m.name].id else mint(m.name);
        HeldMeshStarts(v, accepted, m, mint);
        meshes := meshes[m.name := MeshTopology(m.name, id, {}, map[])];
      }
      assert v.meshes[..i + 1] == v.meshes[..i] + [m];
    }
    assert v.meshes[..|v.meshes|] == v.meshes;
    for j := 0 to |v.nodes|
      invariant meshes.Keys == HeldNames(v)
      invariant forall name :: name in meshes ==> meshes[name] == HeldMesh(v.nodes[..j], v, accepted, name, mint)
    {
      var n := v.nodes[j];
      forall name { HeldMeshGrows(v.nodes[..j], n, v, accepted, name, mint); }
      var m := meshes[n.mesh];
      meshes := meshes[n.mesh := m.(nodes := m.nodes + {n.at}, specs := m.specs[n.at := KeptSpec(accepted, n)])];
      assert v.nodes[..j + 1] == v.nodes[..j] + [n];
    }
    assert v.nodes[..|v.nodes|] == v.nodes;
    t := Topology(v.fabric, meshes, accepted.provider, [], []);
    RecordsAre(v, accepted, mint, meshes);
  }

  lemma KeptSpecFiled(accepted: Topology, n: Node)
    requires Filed(accepted)
    ensures KeptSpec(accepted, n).at == n.at && KeptSpec(accepted, n).mesh == n.mesh
  {
    if accepted.Contains(n.at) {
      ContainsFiled(accepted, n.at);
      var m :| m in accepted.meshes && n.at in accepted.meshes[m].nodes;
      SpecAtFiled(accepted, m, n.at);
    }
  }

  lemma HeldMeshFiled(v: View, accepted: Topology, m: string, mint: string -> MeshId)
    requires v.WellFormed() && Filed(accepted)
    ensures SpecsMatch(m, HeldMesh(v.nodes, v, accepted, m, mint))
    ensures forall p :: p in HeldMesh(v.nodes, v, accepted, m, mint).nodes <==> v.At(p).Some? && v.At(p).value.mesh == m
    ensures forall p :: p in HeldMesh(v.nodes, v, accepted, m, mint).nodes ==>
              HeldMesh(v.nodes, v, accepted, m, mint).specs[p] == KeptSpec(accepted, v.At(p).value)
  {
    forall n { KeptSpecFiled(accepted, n); }
  }

  /** `s` is `n`'s create spec: the accepted one of its location while its mesh and type match it, else its type's
      defaults. */
  ghost predicate SpecKept(accepted: Topology, n: Node, s: Spec) {
    if n.mesh in accepted.meshes && n.at in accepted.meshes[n.mesh].specs
        && accepted.meshes[n.mesh].specs[n.at].kind == n.kind
    then s == accepted.meshes[n.mesh].specs[n.at]
    else
      && s.at == n.at && s.mesh == n.mesh && s.kind == n.kind && s.executable == None && s.tags == {}
      && s.config == map[]
      && s.storage == if n.kind == "node-admin" then PersistentPreserve else Ephemeral
  }

  lemma SpecKeptExactly(accepted: Topology, n: Node)
    requires Filed(accepted)
    ensures SpecKept(accepted, n, KeptSpec(accepted, n))
  {
    if accepted.Contains(n.at) {
      ContainsFiled(accepted, n.at);
      var m :| m in accepted.meshes && n.at in accepted.meshes[m].nodes;
      SpecAtFiled(accepted, m, n.at);
    }
    if n.mesh in accepted.meshes && n.at in accepted.meshes[n.mesh].specs { SpecAtFiled(accepted, n.mesh, n.at); }
  }

  /** What the records hold, field by field: every mesh not Dead or with a birth in it, under its stated id, else its
      accepted id, else a fresh one, with exactly its births' locations and their create specs. */
  lemma RecordsByFields(v: View, accepted: Topology, mint: string -> MeshId)
    requires v.WellFormed() && Filed(accepted)
    ensures
      var t := OfRecords(v, accepted, mint);
      && t.fabric == v.fabric && t.provider == accepted.provider && t.pinned == [] && t.created == []
      && (forall name ::
          name in t.meshes <==>
            (exists m :: m in v.meshes && m.name == name && m.status != ScopeDead) || exists n ::
                n in v.nodes && n.mesh == name)
      && (forall m ::
          m in v.meshes && m.name in t.meshes ==>
            && t.meshes[m.name].name == m.name
            && t.meshes[m.name].id == if m.id.Some? then m.id.value
                else if m.name in accepted.meshes then accepted.meshes[m.name].id else mint(m.name))
      && (forall name, p ::
          name in t.meshes ==>
            (p in t.meshes[name].nodes <==> exists n :: n in v.nodes && n.mesh == name && n.at == p))
      && (forall n ::
          n in v.nodes ==>
            && n.mesh in t.meshes && n.at in t.meshes[n.mesh].specs
            && SpecKept(accepted, n, t.meshes[n.mesh].specs[n.at]))
  {
    hide KeptSpec, SpecKept, Filed, FirstAt, FirstOf, FirstNamed;
    var t := OfRecords(v, accepted, mint);
    HeldNamesAre(v);
    forall m | m in v.meshes { HeldMeshStarts(v, accepted, m, mint); }
    forall name | name in t.meshes { HeldMeshFiled(v, accepted, name, mint); }
    forall n | n in v.nodes { SpecKeptExactly(accepted, n); }
  }

  /** What the records compose files every spec under its own mesh and location. */
  lemma RecordsFiled(v: View, accepted: Topology, mint: string -> MeshId)
    requires v.WellFormed() && Filed(accepted)
    ensures Filed(OfRecords(v, accepted, mint))
  {
    forall m { HeldMeshFiled(v, accepted, m, mint); }
  }
}
