/** Every accepted Build is driven to its end: acceptance gives what planning needs, so from the view a Build was
    accepted on, planning ends with everything it owes realised. */
module AcceptedDrives {
  import opened Model
  import opened Changes
  import opened Records
  import opened Compile
  import opened Creation
  import opened Continuity
  import opened PlanKeys
  import opened PlanShape
  import opened BuildScope
  import Planner
  import FabricDelete
  import Convergence
  import Progress
  import FabricDrive

  lemma Plannable(accepted: Topology, change: Change, v: View, replaced: seq<PathName>, mints: Mints, t: Topology)
    requires AcceptedAs(accepted, change, v, replaced, mints, t)
    ensures t.WellFormed()
  {
    hide CompileReplacing, MeshWellFormed, Pins, Filed, View.WellFormed;
    AcceptedWellFormed(accepted, change, v, Among(replaced), mints);
  }

  /** No id minted for a create is one the view holds, so none is pinned. */
  lemma MintedUnpinned(
    accepted: Topology, change: Change, v: View, replaced: seq<PathName>, mints: Mints, t: Topology,
    c: (PathName, NodeId), e: (PathName, PinnedBirth))
    requires AcceptedAs(accepted, change, v, replaced, mints, t) && FreshMints(accepted, v, mints)
    requires c in t.created && e in t.pinned
    ensures c.1 != e.1.id
  {
    hide CompileReplacing, Pins, Filed, View.WellFormed, BuildScope.Deleting;
    CreatedByMint(accepted, change, v, replaced, mints, t, c);
    PinnedAtAcceptance(accepted, change, v, replaced, mints, t, e.0, e.1);
    assert v.At(e.0).value in v.nodes;
  }

  /** A held path a Create lists is one it replaces: its birth is pinned there. */
  lemma HeldIsReplaced(accepted: Topology, change: Change, v: View, replaced: seq<PathName>, mints: Mints,
      t: Topology, p: PathName)
    requires AcceptedAs(accepted, change, v, replaced, mints, t) && t.CreatedId(p).Some? && v.At(p).Some?
    ensures t.Replaced(p).Some?
  {
    hide CompileReplacing, Filed, View.WellFormed, View.At, Topology.SpecAt, Lookup, PinOf, MeshWellFormed, OfRecords;
    var compiled := t.(pinned := []);
    CreatesExactlyWhatIsListed(accepted, change, v, Among(replaced), mints, p);
    assert compiled.CreatedId(p) == t.CreatedId(p);
    var r :| r in change.nodes && r.at == p;
    ReplacedInItsOwnMesh(accepted, change, v, Among(replaced), mints, r);
    assert p in BuildScope.Deleting(v, change, replaced);
    assert (p, PinOf(v.At(p).value).value) in t.pinned;
    PinListed(t, p);
    CreateStages(accepted, change, v, Among(replaced), mints);
    AdmittedMesh(OfRecords(v, accepted, mints.mesh), change.meshes, change.nodes, v, Among(replaced), r);
    RequestFiled(OfRecords(v, accepted, mints.mesh), compiled.(created := []), change.meshes, change.nodes,
        mints.mesh, r);
    Plannable(accepted, change, v, replaced, mints, t);
    Named(t, r.mesh, p);
  }

  lemma PinListed(t: Topology, p: PathName)
    requires exists b :: (p, b) in t.pinned
    ensures t.PinAt(p).Some?
  {
    var b :| (p, b) in t.pinned;
    var e := (p, b);
    assert e in t.pinned;
  }

  lemma AcceptedUnpinned(accepted: Topology, change: Change, v: View, replaced: seq<PathName>, mints: Mints,
      t: Topology)
    requires AcceptedAs(accepted, change, v, replaced, mints, t) && FreshMints(accepted, v, mints)
    ensures Convergence.Unpinned(t, v)
  {
    hide AcceptedAs, FreshMints, Topology.Replaced, Lookup, View.At;
    forall c: (PathName, NodeId), e: (PathName, PinnedBirth) | c in t.created && e in t.pinned ensures c.1 != e.1.id {
      MintedUnpinned(accepted, change, v, replaced, mints, t, c, e);
    }
    forall p | v.At(p).Some? && t.CreatedId(p).Some? ensures t.Replaced(p).Some? {
      HeldIsReplaced(accepted, change, v, replaced, mints, t, p);
    }
  }

  lemma AcceptedFresh(accepted: Topology, change: Change, v: View, replaced: seq<PathName>, mints: Mints, t: Topology)
    requires AcceptedAs(accepted, change, v, replaced, mints, t) && MeshIdsKnown(accepted, v)
        && FreshMints(accepted, v, mints)
    ensures Convergence.Fresh(t, v)
  {
    hide AcceptedAs, MeshIdsKnown;
    forall n, c: (PathName, NodeId) | n in v.nodes && c in t.created ensures n.id != c.1 {
      CreatedByMint(accepted, change, v, replaced, mints, t, c);
    }
    forall m, x | m in v.meshes && x in t.meshes && m.id == Some(t.meshes[x].id) ensures m.name == x {
      IdIsItsNames(accepted, change, v, replaced, mints, t, m, x);
    }
  }

  lemma IdIsItsNames(
    accepted: Topology, change: Change, v: View, replaced: seq<PathName>, mints: Mints, t: Topology, m: Mesh, x: string)
    requires AcceptedAs(accepted, change, v, replaced, mints, t) && MeshIdsKnown(accepted, v)
        && FreshMints(accepted, v, mints)
    requires m in v.meshes && x in t.meshes && m.id == Some(t.meshes[x].id)
    ensures m.name == x
  {
    hide CompileReplacing, Filed, View.WellFormed, Pins, FirstNamed, HeldNames;
    MeshIdOf(accepted, change, v, replaced, mints, t, x);
  }

  /** What acceptance gives a drive. */
  lemma AcceptedFits(accepted: Topology, change: Change, v: View, replaced: seq<PathName>, mints: Mints, t: Topology)
    requires AcceptedAs(accepted, change, v, replaced, mints, t) && NoRepeats(replaced)
    requires MeshIdsKnown(accepted, v) && FreshMints(accepted, v, mints)
    ensures Convergence.Fit(t, Convergence.State(v, []))
  {
    hide CompileReplacing, Filed, View.WellFormed, Pins, Convergence.Unpinned, Convergence.Fresh, Identified,
        FreshMints;
    Plannable(accepted, change, v, replaced, mints, t);
    AcceptedIdentified(accepted, change, v, replaced, mints, t);
    AcceptedUnpinned(accepted, change, v, replaced, mints, t);
    AcceptedFresh(accepted, change, v, replaced, mints, t);
  }

  /** The plan a drive's pass runs is the one planned for the Build: a fabric.delete's when its topology holds no mesh
      and no pin. */
  lemma DrivenPlan(t: Topology, s: Convergence.State)
    requires t.WellFormed()
    ensures FabricDelete.PlanWith(t, s.view, Planner.OpenDeletes(s.view, s.steps), {}, s.steps,
        Convergence.CreatedBy(t, s.steps)) ==
            if t.meshes == map[] && t.pinned == [] then FabricDrive.EndPlan(s)
                else Convergence.PlanFor(t, s.view, s.steps)
  {
  }

  /** From its acceptance on, every drive of a Build ends, one that can go no further has its view settled, and some
      drive gets there. */
  lemma AcceptedBuildSettles(accepted: Topology, change: Change, v: View, replaced: seq<PathName>, mints: Mints,
      t: Topology)
    returns (whole: seq<Convergence.State>)
    requires AcceptedAs(accepted, change, v, replaced, mints, t) && NoRepeats(replaced)
    requires MeshIdsKnown(accepted, v) && FreshMints(accepted, v, mints)
    requires t.meshes != map[] || t.pinned != []
    ensures t.WellFormed()
    ensures forall drive :: Convergence.Drive(t, drive) && drive[0] == Convergence.State(v, []) ==>
              var last := drive[|drive| - 1];
              && |drive| - 1 <= |Convergence.Owed(t, v, [])|
              && ((forall s' :: !Convergence.Pass(t, last, s')) <==> Progress.Settled(t, last.view, last.steps))
    ensures Convergence.Drive(t, whole) && whole[0] == Convergence.State(v, [])
    ensures Progress.Settled(t, whole[|whole| - 1].view, whole[|whole| - 1].steps)
  {
    hide AcceptedAs, FreshMints, MeshIdsKnown, Convergence.Pass, Convergence.Owed, Progress.Settled,
        Convergence.PlanFor;
    hide Topology.WellFormed, View.WellFormed, Identified, Convergence.Unpinned, Convergence.Fresh;
    AcceptedFits(accepted, change, v, replaced, mints, t);
    forall drive | Convergence.Drive(t, drive) && drive[0] == Convergence.State(v, [])
      ensures
        var last := drive[|drive| - 1];
        && |drive| - 1 <= |Convergence.Owed(t, v, [])|
        && ((forall s' :: !Convergence.Pass(t, last, s')) <==> Progress.Settled(t, last.view, last.steps))
    {
      Progress.PlanningEnds(t, drive);
    }
    whole := Progress.SomeDriveEnds(t, Convergence.State(v, []));
  }

  /** So does every fabric.delete's, with its fabric deleted. */
  lemma AcceptedFabricDeleteEnds(accepted: Topology, change: Change, v: View, replaced: seq<PathName>, mints: Mints,
      t: Topology)
    returns (whole: seq<Convergence.State>)
    requires AcceptedAs(accepted, change, v, replaced, mints, t) && MeshIdsOnce(v) && t.meshes == map[]
        && t.pinned == []
    ensures forall drive :: FabricDrive.EndDrive(drive) && drive[0] == Convergence.State(v, []) ==>
              var last := drive[|drive| - 1];
              && |drive| - 1 <= |FabricDrive.EndOwed(v, [])|
              && ((forall s' :: !FabricDrive.EndPass(last, s')) <==> FabricDrive.FabricEnded(last))
    ensures FabricDrive.EndDrive(whole) && whole[0] == Convergence.State(v, [])
        && FabricDrive.FabricEnded(whole[|whole| - 1])
  {
    hide CompileReplacing, Filed, Pins, View.WellFormed, FabricDrive.EndPass, FabricDrive.EndOwed,
        FabricDrive.FabricEnded;
    forall drive | FabricDrive.EndDrive(drive) && drive[0] == Convergence.State(v, [])
      ensures
        var last := drive[|drive| - 1];
        && |drive| - 1 <= |FabricDrive.EndOwed(v, [])|
        && ((forall s' :: !FabricDrive.EndPass(last, s')) <==> FabricDrive.FabricEnded(last))
    {
      FabricDrive.FabricPlanningEnds(drive);
    }
    whole := FabricDrive.SomeFabricDriveEnds(Convergence.State(v, []));
  }
}
