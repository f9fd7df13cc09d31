# A verified model of RDM's Build engine, atlas, durable logs and gossip writer

This project models, in Dafny, the parts of RDM that decide what a fabric becomes and that must hold over whole
runs, and proves what they promise.

- **Builds.** An acceptance compiles a Create or a Delete, over the current records, into a complete topology. The
  planner then computes `topology - observed` from the step events recorded so far. It is a stateless function, run
  again after every pass and every crash, so its theorems are about every run: replacements go one at a time and in
  turn, planning ends, and a Build touches only what its change names.
- **The atlas.** A node-admin's atlas joins the effects of completed operations by stamp, lays answered primary
  updates over a view that lags them, and decides on a refused caller, first from its own records and then from the
  root's.
- **Durable logs.** The replica broker's records log and the consumer's operations record are journals: text files
  of whole lines, folded in memory, whose last line a crash may tear at any point. Produces are exactly-once per log
  over every interleaving; a caller never submits blindly; a copy of a record is always a prefix of it.
- **The gossip reference writer.** Varints, length-prefixed texts, frames, percent-encoded identities and
  fixed-width sequence strings, each with the reader that recovers it.

Code that works in place (the compiler's loops, the atlas, the logs, the caller's tick) is modelled by methods and
classes proved against functions; the theorems are about those functions and about runs built from them. What the
functions decide is stated a second time on the fields of their inputs, without naming them: `PlanFields` for a plan,
`AcceptedFields` for an acceptance, and the lemmas named `ByFields` or `Exactly` for the rest. Iteration
over the source's ordered maps is in key order. Randomness (minted ids), calls, clocks and the network are
parameters. The view of a fabric is well formed throughout: one birth per node id, one per location, one mesh per
name, and every birth's mesh listed.

`dafny verify dfyconfig.toml` checks the whole project.

## Where the code does less than its comments say

- A primary update's answer given again for the same pair, while the first is still held against an older record, is
  dropped by the next read (`crates/rdm-admin/src/atlas.rs:380`). `Primaries.AnswerTakesEffectExactly` states exactly
  when an answer takes effect, `Primaries.StaleRepeatHappens` gives a run.
- A caller whose local record is deleted can be re-admitted: the test for another birth at the path comes before the
  test for a deleted record (`crates/rdm-admin/src/atlas.rs:481-485`). `RefusedCaller.DeletedCallerExactly` states
  exactly when, `RefusedCaller.DeletedCallerReAdmitted` gives an input.
- A Create and a Delete plan the shutdown of a mesh that a later view lists and acceptance did not hold, one another
  Build made since (`crates/rdm-admin/src/accepted.rs:708-717`). `BuildScope.CreateShutsExactly` and
  `DeleteScope.DeleteTouchesExactlyItsOwn` state exactly when, `ScopeExamples.CreateShutsALaterMesh` and
  `ScopeExamples.DeleteShutsALaterMesh` give inputs; over runs whose views list only meshes it knows, a Create shuts
  down none (`BuildScope.CreateNeverShuts`).
- A Delete that names only meshes and leaves none, all of them Dead, compiles to the topology a fabric.delete is told
  by, and its plan deletes the fabric (`crates/rdm-admin/src/accepted.rs:442-447`, `585`).
  `DeleteScope.DeleteEndsTheFabricExactly` states exactly when, `ScopeExamples.DeadMeshDeleteEndsTheFabric` gives an
  input.
- Two meshes of a view that state one id and are both being shut down share a key (`PlanKeys.KeysDistinct`).
- The copy's restart counts a torn last line as an entry (`demo/src/consumer_example.rs:665`).
  `RecordCopy.CountIsWholeExactly` states exactly when the count is right, `RecordCopy.TornCopySkips` what happens
  otherwise.
- An offset is taken before the lock of the append (`demo/src/replica.rs:225-226`); it stands exactly when nothing
  of the topic was accepted in between, which the one decision at a time ensures
  (`ProduceRuns.OffsetStandsExactly`, `ProduceRuns.UnserialisedClash`).
- No parts and one empty part join to the same identity (`GossipWire.JoinedAlikeExactly`).

## Model

| member | source | states |
|---|---|---|
| `Model.KeyTextInjective` | crates/rdm-core/src/operation_id.rs:127-140 | two operation keys written alike are the same key, so comparing the written keys of step events loses nothing |
| `Model.KeyTexts` | crates/rdm-core/src/operation_id.rs:127-140 | each key is written as its action, a colon and its subject; an unscoped delete as its action alone |
| `Model.NamesByCharacter` | crates/rdm-core/src/path.rs:43-65 | a mesh name is 1 to 64 lower-case letters, digits and `-`, not led by `-`; a segment 1 to 64 of letters, digits, `-`, `_` and `~`; a tag of those and `.`, not led by `.` |
| `Model.TagsOneByOne` | crates/rdm-core/src/status.rs:1002-1007 | a tag set is accepted if and only if it has at most thirty-two labels and each is a tag |
| `Model.SegmentsRejoin` | crates/rdm-core/src/path.rs:79 | a path cut at its dots rejoins as itself, and no segment holds a dot |
| `Model.RejoinedSegments` | crates/rdm-core/src/path.rs:79 | dot-free segments put together are cut back into themselves |
| `Model.PathNamesByCharacter` | crates/rdm-core/src/path.rs:77-81 | a location is valid if and only if every segment of its path, and its name, is 1 to 64 letters, digits, `-`, `_` and `~` |
| `Order.LessExactly` | crates/rdm-admin/src/accepted.rs:590 | a text sorts before another if and only if it is a proper prefix of it or has the lesser character where they first differ |
| `Records.Compose` | crates/rdm-admin/src/accepted.rs:278-296 | the loops over mesh rows and nodes compute the specified composition of the records: held meshes, their ids, every standing node under its kept spec |
| `Records.HeldNamesAre` | crates/rdm-admin/src/accepted.rs:278-296 | a mesh is held exactly when it is not deleted or a node of it still stands, and every birth's mesh is held |
| `Records.RecordsFiled` | crates/rdm-admin/src/accepted.rs:278-296 | the composed topology files every spec under its own mesh and location |
| `Records.RecordsByFields` | crates/rdm-admin/src/accepted.rs:278-296 | field by field: a mesh is held if and only if it is not Dead or a birth is in it, under its stated id, else its accepted id, else a fresh one; its locations are exactly its births'; each birth keeps its accepted spec while mesh and type match, else its type's defaults |
| `Validation.Check` | crates/rdm-admin/src/accepted.rs:229-254 | the validation loop returns the first broken invariant the specification names, mesh by mesh in name order |
| `Validation.ValidateExactly` | crates/rdm-admin/src/accepted.rs:229-254 | a topology validates if and only if it holds a mesh and is well formed: every location in exactly one mesh, under one spec at its own key, every mesh with an admin |
| `Validation.RefusedTruly` | crates/rdm-admin/src/accepted.rs:229-254 | a refused topology is refused by name for a fault its first faulty mesh, in name order, really has: a location named before, a name not its own or not valid, no node-admin, or exactly the listed missing and misfiled specs |
| `Validation.ReadSpecs` | crates/rdm-admin/src/accepted.rs:47-60 | the reading loop files each spec at its own location and refuses a repeated location by name |
| `Validation.ReadExactly` | crates/rdm-admin/src/accepted.rs:47-60 | a list is read if and only if no location repeats, each spec then at its own location; a refused location is one listed twice |
| `Validation.SpecsRoundTrip` | crates/rdm-admin/src/accepted.rs:47-60 | the list of specs as written reads back as the identical map if and only if every spec sits at its own location |
| `Creation.Add` | crates/rdm-admin/src/accepted.rs:362-410 | the in-place addition, one mesh and then one node at a time, computes the specified result or refusal |
| `Creation.MeshesAdded` | crates/rdm-admin/src/accepted.rs:362-378 | listed meshes are entered if and only if none repeats, each name is valid and none is held; each enters empty under its minted id |
| `Creation.NodesAdded` | crates/rdm-admin/src/accepted.rs:379-405 | listed nodes are entered if and only if each is admissible and no location repeats; each mesh then holds exactly the nodes asked for it beside its own, each with the storage, executable, tags and config its request names, its type's storage where it names none |
| `Creation.CreatedExactly` | crates/rdm-admin/src/accepted.rs:362-410 | a Create is accepted if and only if it is admitted as a whole, and then adds exactly what it lists, each node's spec as its request asks for it field by field, and touches nothing else |
| `Creation.CreateRefusedTruly` | crates/rdm-admin/src/accepted.rs:362-410 | a refused Create is refused by name for a fault it has: nothing listed, a mesh held or listed twice or not valid, a location not valid, held or listed twice, no executable, tags refused, a mesh neither held nor listed, or a listed mesh with no node-admin |
| `Deletion.Remove` | crates/rdm-admin/src/accepted.rs:417-447 | the in-place removal, one node id and then one mesh at a time, computes the specified result or refusal |
| `Deletion.OneExactly` | crates/rdm-admin/src/accepted.rs:417-447 | one node id is taken if and only if it names a birth the topology still holds and its mesh keeps an admin, and the result is the topology without that location |
| `Deletion.RemovedExactly` | crates/rdm-admin/src/accepted.rs:417-447 | a Delete is accepted if and only if it is admitted as a whole, and leaves exactly the topology without the named births and meshes |
| `Deletion.DeleteRefusedTruly` | crates/rdm-admin/src/accepted.rs:417-447 | a refused Delete is refused by name for a fault it has: nothing listed, an id of no birth or listed before, a mesh whose every node-admin it names, a mesh not held, listed before or emptied, or the last mesh of a fabric with a live one |
| `Deletion.BirthOfListed` | crates/rdm-admin/src/accepted.rs:350-353 | a node id names the birth the view lists under it, and none when it lists none |
| `Deletion.DeleteOrderInsensitive` | crates/rdm-admin/src/accepted.rs:417-447 | permuting the node ids and mesh names changes neither acceptance nor the resulting topology |
| `Deletion.RepeatsRefused` | crates/rdm-admin/src/accepted.rs:417-447 | naming a node id or a mesh twice is always refused |
| `Deletion.KeepsAnAdmin` | crates/rdm-admin/src/accepted.rs:417-447 | no mesh that is neither deleted nor Dead loses its last node-admin |
| `Compile.MintCreated` | crates/rdm-admin/src/accepted.rs:190-196 | the minting loop keeps ids already named and mints one for each other path |
| `Compile.Accept` | crates/rdm-admin/src/accepted.rs:329-345 | the acceptance composes, changes, validates and mints as specified, or returns the first refusal |
| `Compile.AcceptedWellFormed` | crates/rdm-admin/src/accepted.rs:329-345 | every non-empty topology compile accepts names each path in exactly one mesh with one spec at its own key |
| `Acceptance.CreateAcceptedExactly` | crates/rdm-admin/src/accepted.rs:329-410 | a Create compiles if and only if it is admitted, every request for a held location is in the mesh that holds it, and every held mesh has a valid name and is left a node-admin |
| `Acceptance.DeleteAcceptedExactly` | crates/rdm-admin/src/accepted.rs:329-447 | a Delete compiles if and only if it is admitted and every mesh it leaves has a valid name and a node-admin it does not name |
| `AcceptedFields.CreateAcceptedByFields` | crates/rdm-admin/src/accepted.rs:329-410 | a Create compiles if and only if, read off the change and the view: something is listed; listed meshes are distinct, valid, not held and each with an admin listed; listed locations are distinct, valid, with an executable and valid tags, in a mesh held or listed, and held only where replaced in the same mesh; and every held mesh has a valid name and keeps or is given an admin |
| `AcceptedFields.CreateLeavesByFields` | crates/rdm-admin/src/accepted.rs:278-410 | what it compiles to: the held and the listed meshes, each listed node with its request's storage, executable, tags and config under its minted id, each other standing node with the spec it had |
| `AcceptedFields.DeleteAcceptedByFields` | crates/rdm-admin/src/accepted.rs:329-447 | a Delete compiles if and only if, read off the change and the view: something is listed, nothing twice; every id is of a birth; every mesh named is live or keeps a birth not named; every mesh that stays has a valid name and an admin not named; and a mesh stays unless all are Dead |
| `AcceptedFields.DeleteLeavesByFields` | crates/rdm-admin/src/accepted.rs:278-447 | what it compiles to: exactly the meshes that stay, each with exactly its births not named, every spec as it was |
| `AcceptedFields.RemovalAccepted` | crates/rdm-admin/src/accepted.rs:331-335 | a fabric's removal is always accepted, with no mesh, no pin and nothing created |
| `Continuity.ReplacedInItsOwnMesh` | crates/rdm-admin/src/accepted.rs:380-405 | a Create naming a held path is accepted only under the mesh that holds it and only when it is replaced |
| `Continuity.MintedAt` | crates/rdm-admin/src/accepted.rs:190-196 | minting keeps every id already named, mints exactly the paths without one, and names no path twice |
| `Continuity.CreatesExactlyWhatIsListed` | crates/rdm-admin/src/accepted.rs:308-345 | a Build creates exactly the locations its change lists, each under the id minted for it |
| `Continuity.SpecContinuity` | crates/rdm-admin/src/accepted.rs:278-345 | over any run of Builds that leaves a standing node alone, its whole create spec never changes |
| `Continuity.MeshIdContinuity` | crates/rdm-admin/src/accepted.rs:278-345 | over any run of Builds through which a mesh stays and the view states its accepted id or none, its id never changes |
| `Continuity.RecreatedMeshIsNew` | crates/rdm-admin/src/accepted.rs:362-378 | a mesh a Build creates enters under an id no mesh of any earlier topology had |
| `Planner.NextReplacement` | crates/rdm-admin/src/accepted.rs:729-744 | the search over the pinned births returns the specified replacement step |
| `Planner.PlanSection` | crates/rdm-admin/src/accepted.rs:628-674 | the section's loop over its paths, admins first, emits the specified operations |
| `Planner.PlanBuild` | crates/rdm-admin/src/accepted.rs:628-718 | the planning loops emit the specified plan: sections in name order, deletes in path order, shutdowns in name order |
| `PlanShape.PlanHas` | crates/rdm-admin/src/accepted.rs:628-718 | an operation is planned if and only if it is a missing mesh's create, a replacement step, a due create, a surplus birth's pinned delete or a going mesh's shutdown |
| `PlanFields.PlanByFields` | crates/rdm-admin/src/accepted.rs:571-744 | an operation is planned if and only if, read off the topology, the view and the step events: it makes a kept mesh the view does not list; it is the delete, then the create, of the first pinned replacement of its mesh whose create holds no Complete; it creates a path no pin replaces whose create began and holds no Complete, or for which the view holds no matching birth live, stopped after its create or silent in a held mesh; it deletes, with its kind and mesh, a birth pinned at a path no mesh names while that very birth, or a live or stopped one of a kept mesh, is listed there; or it shuts down a listed mesh no longer named, its id known, not Dead or its delete open |
| `PlanFields.OpenByFields` | crates/rdm-admin/src/accepted.rs:548-560 | a mesh's delete is open if and only if its AcceptedRoster step is complete and neither its MeshDeleted nor its MeshLeft step is |
| `PlanShape.StepIsHeads` | crates/rdm-admin/src/accepted.rs:729-744 | the planned replacement step is the first unfinished replacement's, in pinned order: its delete until complete, then its create |
| `PlanShape.NeverCreatedAndDeleted` | crates/rdm-admin/src/accepted.rs:628-704 | no path is both created and deleted by one plan |
| `PlanShape.NeverPlannedAgain` | crates/rdm-admin/src/accepted.rs:656-704 | every planned delete carries a pinned birth and is not complete; a replacement's create is planned only after its delete completed, and not once complete itself |
| `PlanShape.OrdinaryCreateExactly` | crates/rdm-admin/src/accepted.rs:656-674 | a path created and not replaced is planned if and only if its create is open or the view does not satisfy it |
| `PlanShape.OrdinaryCreateReplanned` | crates/rdm-admin/src/accepted.rs:656-674 | an open create is always planned again; a complete one never while the view holds its matching birth live or stopped |
| `PlanOrdering.PlanInOrder` | crates/rdm-admin/src/accepted.rs:628-718 | a plan is its sections, mesh by mesh in name order, each its mesh's create, its replacement step, its admins' creates and its other creates in path order; then its deletes in path order; then its shutdowns in name order |
| `PlanKeys.KeysDistinct` | crates/rdm-admin/src/build.rs:220-230 | for every topology whose pins, creates and mesh ids are each of one thing, every view and every history, no two operations of a plan share a key if and only if no two meshes being shut down state one id |
| `FabricDelete.AnyPlanKeysDistinct` | crates/rdm-admin/src/accepted.rs:571-718 | the same of any Build's plan, a fabric.delete's included (shutdowns by mesh id, deletes by node id, one fabric.delete); in particular keys are distinct while no two meshes of the view state one id |
| `ReplacementRuns.OnlyTheHeads` | crates/rdm-admin/src/accepted.rs:635-660 | of a mesh's replacements a plan holds only the head's step |
| `ReplacementRuns.ReplacementsInTurn` | crates/rdm-admin/src/accepted.rs:729-744 | over every run of plan, run, record, crash and replan, creates follow their own delete and paths go strictly in pinned order |
| `ReplacementRuns.AtMostOneDown` | crates/rdm-admin/src/accepted.rs:729-744 | at any moment of any run at most one replaced path of a mesh has its delete complete and its create not |
| `ReplacementRuns.PassAdvances` | crates/rdm-admin/src/accepted.rs:729-744 | a pass moves a mesh's replacements on by exactly one when it completes the step it planned, else by none |
| `ReplacementRuns.TwoStepsEach` | crates/rdm-admin/src/accepted.rs:182-187 | k replacements are finished exactly when 2k passes completed their planned step |
| `Convergence.PlannedIsOwed` | crates/rdm-admin/src/accepted.rs:628-718 | every planned operation's key is among the work still owed |
| `Convergence.EmptyPlanExactly` | crates/rdm-admin/src/accepted.rs:628-718 | the plan is empty if and only if nothing is owed |
| `Convergence.OwedShrinks` | crates/rdm-admin/src/build.rs:92-168 | realising any operation of the Build as its contract documents takes its key off what is owed and puts nothing on |
| `Convergence.PassDecreases` | crates/rdm-admin/src/accepted.rs:562-718 | every pass that completes anything strictly decreases the count of what is owed |
| `Convergence.PassesBounded` | crates/rdm-admin/src/accepted.rs:562-718 | a drive makes no more passes than operations were owed at its start |
| `Progress.SomePass` | crates/rdm-admin/src/build.rs:92-168 | while anything is planned, an executor can realise some of it as documented: the realised state is built for each kind of operation |
| `Progress.EmptyPlanIsSettled` | crates/rdm-admin/src/accepted.rs:628-718 | the plan is empty if and only if every kept mesh is held, every created path satisfied with no create open, every replacement's create complete, every other pinned birth gone or its delete complete, and every unnamed mesh with a known id Dead and not being deleted |
| `Progress.PlanningEnds` | crates/rdm-admin/src/accepted.rs:562-718 | every drive ends: it makes no more passes than operations were owed, and it cannot go on if and only if its plan is empty, if and only if its view is settled |
| `Progress.SomeDriveEnds` | crates/rdm-admin/src/accepted.rs:562-718 | from every fit state some drive reaches the empty plan |
| `AcceptedDrives.AcceptedFits` | crates/rdm-admin/src/control_plane.rs:299-379 | acceptance with fresh mints gives a drive all it needs |
| `AcceptedDrives.AcceptedBuildSettles` | crates/rdm-admin/src/accepted.rs:329-718 | from the view it was accepted on, every drive of a Build ends, one that cannot go on is settled, and some drive gets there |
| `FabricDrive.EndPassDecreases` | crates/rdm-admin/src/accepted.rs:585-627 | every pass of a fabric.delete strictly decreases the count of what may be owed |
| `FabricDrive.FabricPlanningEnds` | crates/rdm-admin/src/accepted.rs:585-627 | every drive of a fabric.delete ends, and it cannot go on if and only if its plan is empty, if and only if the fabric's delete is complete, no mesh is still to shut, and no birth is still to delete: no live or stopped primary, and no birth whose delete began, of a deleted mesh other than the fabric-primary's |
| `AcceptedDrives.AcceptedFabricDeleteEnds` | crates/rdm-admin/src/accepted.rs:329-627 | so for every accepted fabric.delete, and some drive gets there |
| `AcceptedDrives.DrivenPlan` | crates/rdm-admin/src/accepted.rs:486-494 | the plan a pass runs is the Build's own: a fabric.delete's exactly when its topology holds no mesh and no pin |
| `BuildScope.PinBirths` | crates/rdm-admin/src/control_plane.rs:366-372 | the pinning loop pins the birth the view holds at each path, and refuses one with no incarnation |
| `BuildScope.PinsByFields` | crates/rdm-admin/src/control_plane.rs:366-372 | pinning fails if and only if some path's birth has no incarnation; else the births are pinned in the paths' order, each with its type, mesh, id and incarnation |
| `BuildScope.AcceptedIdentified` | crates/rdm-admin/src/control_plane.rs:299-379 | with fresh mints, and ids of one mesh each in the accepted topology and the view, every accepted Build pins each path and birth once, creates each path and node id once and has each mesh under its own id |
| `BuildScope.CreateTouchesOnlyItsOwn` | crates/rdm-admin/src/accepted.rs:571-718 | over every later view, history and pass, a Create plans creates only at its listed paths under their minted ids and specs, and deletes only of births pinned at the paths it replaces |
| `BuildScope.CreateShutsExactly` | crates/rdm-admin/src/accepted.rs:708-717 | a Create plans a mesh's shutdown if and only if the view lists the mesh, live or with its delete open, and acceptance neither held nor listed it |
| `BuildScope.CreateNeverShuts` | crates/rdm-admin/src/accepted.rs:548-717 | over every run of a Create's own passes, the open deletes read from its own history, whose views list no live mesh that acceptance neither held nor listed, no pass plans a shutdown |
| `ScopeExamples.CreateShutsALaterMesh` | crates/rdm-admin/src/accepted.rs:708-717 | an accepted Create that shuts down a mesh another Build made after it |
| `DeleteScope.DeleteTouchesExactlyItsOwn` | crates/rdm-admin/src/accepted.rs:571-718 | over every view, history and pass, a Delete plans exactly: the unfinished deletes of the births it names, as pinned at acceptance, whose paths still hold surplus; the shutdowns of the listed meshes with known ids, not Dead or open, that are named, emptied or were not held at acceptance; and the creates, under their held ids, of the meshes it leaves that the view does not list |
| `DeleteScope.DeleteAtAcceptance` | crates/rdm-admin/src/accepted.rs:571-718 | over the view it was accepted on, before any mesh.delete of it, exactly the named births' unfinished deletes and the shutdowns of the named meshes that are not Dead and whose id is known |
| `ScopeExamples.DeleteShutsALaterMesh` | crates/rdm-admin/src/accepted.rs:708-717 | an accepted Delete of one broker that shuts down a mesh another Build made after it |
| `DeleteScope.DeleteEndsTheFabricExactly` | crates/rdm-admin/src/accepted.rs:585-627 | a Delete is planned as a fabric.delete, fabric.deleted with it, if and only if it names no birth and leaves no mesh |
| `ScopeExamples.DeadMeshDeleteEndsTheFabric` | crates/rdm-admin/src/accepted.rs:442-447 | an accepted Delete of the last, Dead mesh whose plan deletes the fabric |
| `DeleteScope.SurplusExactly` | crates/rdm-admin/src/accepted.rs:467-474 | before pinning, the surplus births are exactly the named ones the view holds live or stopped in kept meshes |
| `DeleteScope.SurplusPinnedDeletes` | crates/rdm-admin/src/accepted.rs:467-704 | with exactly its surplus births pinned, a Delete plans, over every view, history and pass, the unfinished deletes of exactly the named births held live or stopped in kept meshes at acceptance whose paths still hold surplus |
| `FabricDelete.Plan` | crates/rdm-admin/src/accepted.rs:571-627 | the planner's loops compute the specified plan of either kind of Build |
| `FabricDelete.FabricDeleteOrder` | crates/rdm-admin/src/accepted.rs:585-627 | for every view naming a fabric-primary and every history: no birth of its own mesh is deleted, the other meshes' operations come mesh by mesh in name order, its own mesh's shutdown follows them all, and fabric.deleted is last |
| `FabricDelete.FabricDeleteHas` | crates/rdm-admin/src/accepted.rs:585-627 | a fabric.delete plans exactly the shutdowns of the meshes it still leads, the deletes of the other meshes' final births once those meshes are deleted, and fabric.deleted until it is done |
| `FabricDelete.FabricDeleteByFields` | crates/rdm-admin/src/accepted.rs:585-627 | read off the view and the step events: exactly the shutdown of each mesh with a known id, neither deleted nor left, not Dead or its delete open; once a mesh other than the fabric-primary's is deleted and has not left, the delete, holding no Complete, of its primary live or stopped and of each birth whose delete began, with its kind, mesh and incarnation; and fabric.deleted until it is complete |
| `FabricDelete.OwnMeshExactly` | crates/rdm-admin/src/topology.rs:224-228 | the fabric-primary's own mesh is the mesh of the only birth flagged fabric-primary, and there is none when more than one or none is |
| `FabricDelete.CompleteMeshes` | crates/rdm-admin/src/accepted.rs:502-523 | the completing loops compute the specified view |
| `FabricDelete.MeshRowsCompleted` | crates/rdm-admin/src/accepted.rs:502-523 | the completed view keeps what it held, covers every row that is not deleted or is the only one of its name, by id or name, keeps mesh names unique, and completing it again adds nothing |
| `FabricDelete.MeshRowsAdd` | crates/rdm-admin/src/accepted.rs:502-523 | what completing adds is rows' meshes, of an id and a name the view did not hold, Pending, Ready, Leaving or Dead as the row's state says; a Dead one only of the only row of its name |
| `FabricDelete.RowsAreLed` | crates/rdm-admin/src/accepted.rs:502-627 | a mesh known only by a row that is not Deleted is led by a fabric.delete over the completed view, until its delete is complete or it left |
| `FabricDelete.CompleteNodes` | crates/rdm-admin/src/accepted.rs:530-543 | the completing loop computes the specified births |
| `FabricDelete.NodeRowsCompleted` | crates/rdm-admin/src/accepted.rs:530-543 | completing keeps the births held, adds only births of rows it held none of, each at its row's path, type, incarnation and state, primary of nothing and not stopped, holds every row's, and completing again adds nothing |
| `Effects.AbsorbIsNewest` | crates/rdm-admin/src/atlas.rs:297-309 | after any receipts a birth's effect is one held or said of it, and none of those is newer: of a later admission, of the same with a greater build id, or later in the same Build |
| `Effects.OrderIrrelevant` | crates/rdm-admin/src/atlas.rs:297-309 | any order and any duplication of the same effects leave the same map |
| `Effects.ReceiptsJoin` | crates/rdm-admin/src/atlas.rs:518-559 | streamed receipts in any order and number, with each Build's whole receipts anywhere among them, leave the same effects |
| `Effects.ReceiptsAreNewest` | crates/rdm-admin/src/atlas.rs:518-559 | and each birth's is of a completed lifecycle step of a Build on it, and no other such step is newer |
| `Effects.LatestStepDecides` | crates/rdm-admin/src/atlas.rs:297-309 | a lifecycle step later than every other one on its birth decides it whatever order the receipts came in: a start admitted after a stop leaves the birth started |
| `Effects.LifecycleExactly` | crates/rdm-admin/src/atlas.rs:312-324 | the three lifecycle operations leave their three lifecycles, whatever their subject, and no other operation leaves one |
| `Effects.PlannedLifecycles` | crates/rdm-admin/src/atlas.rs:312-329 | of the operations a plan writes, a node's delete leaves its birth deleted, and no other leaves a lifecycle |
| `Effects.PinnedBirthActedOn` | crates/rdm-admin/src/atlas.rs:235-242 | a pinned birth is the one acted on whatever the current records name |
| `Effects.BirthByFields` | crates/rdm-admin/src/atlas.rs:235-242 | the birth a step acted on is the one its Build pinned first under its subject; with none pinned, the one the subject's record names |
| `Atlas.Atlas.TakeEffect` | crates/rdm-admin/src/atlas.rs:297-309 | a lifecycle step is taken exactly when its birth holds no effect or an older one, by time, build id and index; any other step changes nothing |
| `Atlas.Atlas.Receipts` | crates/rdm-admin/src/atlas.rs:518-523 | the effects become the join with every completed step of the Build |
| `Atlas.Atlas.TakeReceipt` | crates/rdm-admin/src/atlas.rs:531-559 | the last matching completed step is taken exactly when its birth holds no effect or an older one, a create's birth is held, and the answer is the specified one |
| `Atlas.StreamedByFields` | crates/rdm-admin/src/atlas.rs:531-538 | the same of the specification: a receipt's lifecycle step is taken the moment it streams up, over an older effect of its birth |
| `Atlas.TakenByFields` | crates/rdm-admin/src/atlas.rs:531-559 | what the last matching receipt is taken as: a stop's as Stopped and a delete's as Deleted where its birth is known, a start's as started, an edit's as a refresh, a create's as the birth its record names, anything else as nothing |
| `Atlas.NoReceiptTaken` | crates/rdm-admin/src/atlas.rs:531-534 | no receipt is taken if and only if no event completes the operation in the mesh |
| `Atlas.Atlas.Scope` | crates/rdm-admin/src/atlas.rs:352-358 | the scope becomes the given meshes; those taken and handed away are the two differences |
| `Atlas.Atlas.PrimaryUpdated` | crates/rdm-admin/src/atlas.rs:375-387 | the held answers become the specified ones, the early return included |
| `Atlas.Atlas.FabricPrimaryUpdated` | crates/rdm-admin/src/atlas.rs:393-397 | the held fabric-primary answer becomes the specified one |
| `Atlas.Atlas.LayPrimaries` | crates/rdm-admin/src/atlas.rs:419-461 | the returned view is the overlay and the answers held after it are those that still stand |
| `Primaries.OverlayIdempotent` | crates/rdm-admin/src/atlas.rs:419-461 | applying the overlay to the overlaid view, with the answers it kept, gives the same view |
| `Primaries.OthersUntouched` | crates/rdm-admin/src/atlas.rs:445-460 | a role nothing is laid for is untouched, and so is everything of a birth but its two flags |
| `Primaries.ReadByFields` | crates/rdm-admin/src/atlas.rs:419-461 | a read, birth by birth: over the record an answer was held against, still naming the node it was sent to, the answered node is flagged and that one cleared; over a record naming another node, while the view still flags the old one, the record's node is flagged and the old one cleared; every other flag is as it was |
| `Primaries.KeptByFields` | crates/rdm-admin/src/atlas.rs:426-444 | the answers that stand after a read are exactly those it laid |
| `Primaries.ReadBeforeAnswers` | crates/rdm-admin/src/atlas.rs:420 | before any answer came a read changes nothing |
| `Primaries.OldGivesWayToNew` | crates/rdm-admin/src/atlas.rs:445-460 | a view naming only the old primary, and holding the new one, names only the new one once laid |
| `Primaries.OldFabricGivesWayToNew` | crates/rdm-admin/src/atlas.rs:445-460 | the same of the fabric-primary |
| `Primaries.NeverOverANewerRecord` | crates/rdm-admin/src/atlas.rs:375-436 | after any interleaving of record moves, answers and reads, a read lays the record's own primary, or an answer over exactly the record held when that answer came |
| `Primaries.NeverOverANewerFabricRecord` | crates/rdm-admin/src/atlas.rs:393-441 | the same of the fabric-primary's record |
| `Primaries.HeldFromItsAnswer` | crates/rdm-admin/src/atlas.rs:375-387 | every held answer came as an event, and the record it is held against is the one of that moment |
| `Primaries.RecordIsNewest` | crates/rdm-core/src/role.rs:68-78 | after any interleaving the record held of a role is one that came, and none that came has a higher revision, or its revision and a lower node id |
| `Primaries.FabricRecordIsNewest` | crates/rdm-core/src/role.rs:68-78 | the same of the fabric-primary's record |
| `Primaries.AnswerTakesEffectExactly` | crates/rdm-admin/src/atlas.rs:375-436 | an answer that comes while the record names the node it was sent to is laid by the next read if and only if it does not repeat a pair still held against another record |
| `Primaries.AnswerAfterItsRecord` | crates/rdm-admin/src/atlas.rs:375-436 | an answer whose record came first is laid by the next read if and only if the view still names the old primary |
| `Primaries.AnswerOfNeither` | crates/rdm-admin/src/atlas.rs:375-387 | an answer over a record naming neither node, repeating no pair held, is dropped, and no other role's is |
| `Primaries.FabricAnswerTakesEffect` | crates/rdm-admin/src/atlas.rs:393-441 | a fabric-primary's answer always takes effect |
| `Primaries.FabricAnswerAfterItsRecord` | crates/rdm-admin/src/atlas.rs:393-441 | and one whose record came first is laid while the view still names the old fabric-primary |
| `Primaries.StaleRepeatHappens` | crates/rdm-admin/src/atlas.rs:380-382 | a run in which the repeated answer is dropped by every next read |
| `RefusedCaller.DeletedBirthNeverReAdmitted` | crates/rdm-admin/src/atlas.rs:173-189 | a local decision that the caller's record is deleted stays a delete whatever the root answers |
| `RefusedCaller.ReAdmittedExactly` | crates/rdm-admin/src/atlas.rs:470-496 | for every caller, plan and root, exactly when the whole decision re-admits |
| `RefusedCaller.LocalExactly` | crates/rdm-admin/src/atlas.rs:470-496 | what this admin decides alone, by fields: not its mesh; the path held by another node's live record, or by a newer incarnation of the caller, named; a deleted record; else re-admitted exactly when its mesh's plan names the path |
| `RefusedCaller.VerifiedExactly` | crates/rdm-admin/src/atlas.rs:173-189 | what the root's answer makes of it: a listed caller stays deleted, is re-admitted under a matching or unrecorded incarnation, or is held by the listed one; another node listed at its path holds it; nothing listed deletes it |
| `RefusedCaller.UnlistedCaller` | crates/rdm-admin/src/atlas.rs:173-189 | a caller in scope that the root does not list is a deleted birth exactly when some mesh's plan names its path, else unneeded |
| `RefusedCaller.DeletedCallerExactly` | crates/rdm-admin/src/atlas.rs:481-493 | a caller whose local record is deleted is re-admitted if and only if its mesh is in scope, another live birth holds its path here and the root still lists the caller; otherwise it is deleted or left to its mesh's primary |
| `RefusedCaller.DeletedCallerReAdmitted` | crates/rdm-admin/src/atlas.rs:481-485 | an input on which a deleted caller is re-admitted |
| `Journal.ReadWhole` | demo/src/replica.rs:154-163 | the opening loop decodes every whole line, stops at a torn one, and names the first line that does not decode |
| `Journal.FirstBadLine` | demo/src/replica.rs:154-163 | a journal refused at a line is readable whole lines up to it, and that line does not read |
| `Journal.TornAtAnyPoint` | demo/src/replica.rs:145-168 | a line torn at any point reopens as no entry, or as the entry once its newline is written; nothing before it is lost |
| `Journal.CutHolds` | demo/src/replica.rs:164-167 | cutting the torn tail leaves the same entries and no torn line |
| `RecordsLog.RecordsLog.Open` | demo/src/replica.rs:145-168 | the opened log's memory is the fold of the file's whole lines, the file cut to them; a line that does not decode refuses the open by its number |
| `RecordsLog.RecordsLog.Append` | demo/src/replica.rs:185-193 | the file gains exactly the line and memory stays the fold of the file |
| `RecordsLog.FirstAcceptanceStands` | demo/src/replica.rs:185-209 | whatever a log says, an operation's input is that of its first accepted line |
| `RecordsLog.RecordsLog.Read` | demo/src/replica.rs:171-178 | the loop returns the specified page of the topic and where the next read starts |
| `RecordsLog.RecordsLog.PutAccepted` | demo/src/replica.rs:221-230 | the record is appended at the topic's next offset |
| `RecordsLog.RecordsLog.Pending` | demo/src/replica.rs:238-241 | the accepted and not completed operations, in order |
| `RecordsLog.RecordsLog.Decide` | crates/rdm-node/src/operation.rs:158-176 | a new operation is recorded; one held with another input conflicts; one held with its own is answered its output if completed, else in flight; nothing else is written |
| `RecordsLog.RecordsLog.Complete` | crates/rdm-node/src/operation.rs:188-200 | a completion is recorded only for an operation pending |
| `RecordsLog.RecordsLog.CompletePending` | demo/src/replica.rs:252-260 | the open appends exactly one completion for each pending operation, at its offset, and leaves nothing pending |
| `RecordsLog.CompletionsExactly` | demo/src/replica.rs:252-260 | those completions are exactly one for each operation accepted and not completed, at its offset, in operation order |
| `RecordsLog.RecordsLog.Produce` | demo/src/replica.rs:443-463 | refused if and only if the operation is held with another input; a completed one is answered its offset and nothing is written; a pending one is completed at its recorded offset; a new one is accepted and completed at its topic's end |
| `RecordsLog.ProduceExactly` | demo/src/replica.rs:443-463 | the same of the specification: when a produce is refused, what it answers and what it writes |
| `ProduceRuns.MemoryIsTheFile` | demo/src/replica.rs:145-209 | at every moment of every run the live memory is the fold of the file's whole lines |
| `ProduceRuns.Reopens` | demo/src/replica.rs:145-168 | a stopped broker's open brings back the memory its whole lines fold to, the file cut to them |
| `ProduceRuns.NothingLost` | demo/src/replica.rs:145-209 | no whole line on disk at any moment of a run is ever lost |
| `ProduceRuns.RecordedOnce` | demo/src/replica.rs:196-230 | over every run of concurrent produces, torn crashes and opens, an operation id has at most one accepted line |
| `ProduceRuns.OneOffset` | demo/src/replica.rs:443-463 | every `Produced` answer for an operation carries the same record and offset |
| `ProduceRuns.RepeatAnswered` | demo/src/replica.rs:443-463 | at any later moment of a live broker, over every run, a repeat of an answered produce is answered the same offset and nothing is written; under its id any other input is refused |
| `ProduceRuns.RunsToItsAnswer` | demo/src/replica.rs:443-463 | a produce run to its end at a live broker, its operation not held with another input, is answered its offset |
| `ProduceRuns.NewAccepted` | demo/src/replica.rs:443-463 | a produce no line names is accepted at its topic's end |
| `ProduceRuns.FetchedForever` | demo/src/replica.rs:171-178 | from its answer on, at every later moment, a fetch at the offset starts with the record |
| `ProduceRuns.PagesCover` | demo/src/replica.rs:171-178 | a page holds every record from its start up to its bound or the topic's end, in order and at its offset, and the next read starts where it ended; past the end it is empty and the next read starts at the end |
| `ProduceRuns.OffsetStandsExactly` | demo/src/replica.rs:225-226 | an offset taken before other lines are appended is still the topic's next if and only if none of them accepts in the topic |
| `ProduceRuns.UnserialisedClash` | demo/src/replica.rs:225-226 | two accepts that are not serialised: a fetch at the second's offset gives the first's record |
| `Gateway.KeepMarks` | demo/src/replica.rs:354-356 | exactly the marks whose births are still ready stay |
| `Gateway.KeptExactly` | demo/src/replica.rs:352-356 | a mark stands if and only if the topology names its very birth: a node reborn under another incarnation is marked no more |
| `Gateway.Choose` | demo/src/replica.rs:343-350 | the primary unless passed over, then the first ready broker that is not; none exactly when there is no primary or all are passed over |
| `Gateway.AskEachGateway` | demo/src/replica.rs:389-411 | the unspent ready gateways are asked in order, each once, up to the first that produces; each spent call is marked and no other mark moves |
| `Gateway.AskedExactly` | demo/src/replica.rs:389-411 | in a round none produced, a ready birth is asked if and only if no mark of its own incarnation stands on it |
| `Gateway.AskedInOrder` | demo/src/replica.rs:389-411 | the births a round asks are asked in the topology's order |
| `Gateway.SpentNotAskedAgain` | demo/src/replica.rs:384-411 | over any rounds, a birth whose call was spent is not asked again while every topology since names it ready |
| `Caller.Calls.Tick` | demo/src/consumer_example.rs:592-654 | by pending, present and outcomes: an operation waiting for a path a node is at is gone on its result, sent again on an unknown and else unchanged; one to send moves to Accepted or Uncertain of the chosen node's path, goes, or stays, case by case of the outcome; the node chosen is the tick's in turn of those not known to leave the op unserved, which gain the chosen one when it turns a submit away |
| `Caller.LeftExactly` | demo/src/consumer_example.rs:609-654 | the same of one operation's step: exactly where each progress, node, presence and outcome leave it |
| `Caller.CandidatesInOrder` | demo/src/consumer_example.rs:596-603 | the serving nodes that may be asked keep the order they are listed in |
| `Caller.NeverSubmittedBlindly` | demo/src/consumer_example.rs:584-654 | over every run and every outcome sequence, between two submits of one operation the first provably was not taken or its node answered a later get with unknown |
| `Caller.DoneExactly` | demo/src/consumer_example.rs:609-654 | an operation is dropped if and only if its result came back or its id was refused |
| `Caller.TwoPathsOnlyLate` | demo/src/consumer_example.rs:412-654 | with durable records, an operation is recorded at two paths only by the delivery of a submit after a get at its path answered unknown |
| `Caller.RecordedAtOnePath` | demo/src/consumer_example.rs:412-654 | so with no such delivery no operation is ever recorded at two paths |
| `Caller.TicksAreARun` | demo/src/consumer_example.rs:592-654 | the ticks of an operation, with its deliveries, are such a run, and its progress is what the ticks make of it |
| `Caller.TicksRecordAtOnePath` | demo/src/consumer_example.rs:592-654 | over every run of ticks, whatever their outcomes, an operation is recorded at two paths only by such a delivery |
| `Caller.LateDeliveryRecordsTwice` | demo/src/consumer_example.rs:625-644 | a run with a delivery after that get records an operation at two paths |
| `ConsumerRecord.Service.Open` | demo/src/consumer_example.rs:242-271 | the opened record's entries and operations are the file's whole lines and their fold, the file cut to them |
| `ConsumerRecord.Service.Append` | demo/src/consumer_example.rs:286-300 | the file gains exactly the entry and memory stays the fold |
| `ConsumerRecord.FirstAcceptanceStands` | demo/src/consumer_example.rs:286-300 | whatever a record says, an operation's input is that of its first acceptance |
| `ConsumerRecord.Service.Submit` | demo/src/consumer_example.rs:417-431 | a new operation is recorded and its work started; one held with another input conflicts, a completed one is answered its output, and nothing changes |
| `ConsumerRecord.Service.StartWork` | demo/src/consumer_example.rs:370-373 | work is started unless it already runs |
| `ConsumerRecord.Service.EndWork` | demo/src/consumer_example.rs:375-380 | the work's output is recorded once and the operation runs no more |
| `ConsumerRecord.Service.Resume` | demo/src/consumer_example.rs:362-365 | after a resume exactly the pending operations run, and the count is of those it started |
| `ConsumerRecord.TornReopens` | demo/src/consumer_example.rs:242-300 | a record torn at any point of any entry reopens as one its process wrote, nothing before that entry lost |
| `ConsumerRecord.EachOnce` | demo/src/consumer_example.rs:327-338 | in a record the service writes an operation is accepted once and completed once |
| `ConsumerRecord.OutputIsTheWork` | demo/src/consumer_example.rs:366-390 | a completed operation's output is its work on the input it was accepted with |
| `ConsumerRecord.RepeatAnswered` | demo/src/consumer_example.rs:417-431 | a repeat of a completed operation with its input is answered its work on it, and refused any other input |
| `ConsumerRecord.OthersAnswered` | demo/src/consumer_example.rs:417-431 | one accepted and not completed is in flight for its own input and refused any other; one never accepted is recorded |
| `ConsumerRuns.MemoryIsTheRecord` | demo/src/consumer_example.rs:242-300 | at every moment of every run of submits, ends, resumes, torn crashes and opens, memory is the fold of the file's whole entries and only pending work runs |
| `ConsumerRuns.NothingLost` | demo/src/consumer_example.rs:242-300 | no whole entry on disk at any moment of a run is ever lost |
| `ConsumerRuns.WorkedOnce` | demo/src/consumer_example.rs:362-390 | over every run an operation is accepted once and completed once, its output its work on the input it was accepted with |
| `ConsumerRuns.WorkedToItsEnd` | demo/src/consumer_example.rs:366-431 | a new operation is recorded when it is submitted to a live service, and its work's end records its output |
| `ConsumerRuns.ReopensAndResumes` | demo/src/consumer_example.rs:242-365 | a stopped service's open brings back the memory its whole entries fold to with nothing running, and a resume then runs exactly what is accepted and not completed |
| `ConsumerRuns.RepeatsAnswered` | demo/src/consumer_example.rs:417-431 | over every run, at any live moment a repeat of a completed operation is answered its work on its input and starts nothing |
| `RecordCopy.Serve` | demo/src/consumer_example.rs:440-467 | the handler streams the started frame, the entries up to where the caller went, and a terminal naming where the next read starts |
| `RecordCopy.SentExactly` | demo/src/consumer_example.rs:440-467 | a read past the end is answered the end; any other streams the end, the entries from its start, at most 256, each at its index, and where the next read starts |
| `RecordCopy.Copy.From` | demo/src/consumer_example.rs:663-666 | a round reads from the copy's length, known or counted from the file |
| `RecordCopy.Copy.Restart` | demo/src/consumer_example.rs:663-665 | a restart forgets where the next read starts and keeps the copy |
| `RecordCopy.Copy.Round` | demo/src/consumer_example.rs:484-507 | a round cut at any frame extends the copy by exactly the entries handed over, every frame acknowledged and every acknowledged entry recorded, reaches its terminal exactly when the stream did, and is refused exactly when the copy is past the source's end |
| `RecordCopy.AlwaysAPrefix` | demo/src/consumer_example.rs:663-700 | over any number of rounds broken at any frame the copy is exactly a prefix of the growing source |
| `RecordCopy.UnbrokenAdvances` | demo/src/consumer_example.rs:275-283 | an unbroken round brings the copy to the source's end or 256 entries further |
| `RecordCopy.CountIsWholeExactly` | demo/src/consumer_example.rs:665 | the line count is the number of whole entries if and only if the file is empty or ends with a newline, else one more |
| `RecordCopy.RestartReadsOnExactly` | demo/src/consumer_example.rs:665 | a restart reads on from the copy's end if and only if the file holds no torn line |
| `RecordCopy.TornCopySkips` | demo/src/consumer_example.rs:665 | a copy torn inside a line and restarted reads on past an entry it does not hold |
| `GossipWire.WriteNumber` | tools/test-support/gossip_wire.rs:21-23 | the writing loop appends the number's varint |
| `GossipWire.U64Length` | tools/test-support/gossip_wire.rs:21-23 | a 64-bit number takes at most ten bytes |
| `GossipWire.U64ReadsBack` | tools/test-support/gossip_wire.rs:21-23 | the unsigned varint of the Postcard wire format reads back as the number, whatever follows |
| `GossipWire.WriteText` | tools/test-support/gossip_wire.rs:24 | the length and the bytes are appended |
| `GossipWire.TextReadsBack` | tools/test-support/gossip_wire.rs:24 | a text reads back as itself, whatever follows |
| `GossipWire.WriteFrame` | tools/test-support/gossip_wire.rs:88 | the loop writes the count, each name and value, the body's length and the body |
| `GossipWire.FrameReadsBack` | tools/test-support/gossip_wire.rs:88 | every attribute list and body is recovered from the writer's bytes, whatever follows them |
| `GossipWire.Esc` | tools/test-support/gossip_wire.rs:25-27 | an escaped text holds only unreserved bytes and `%` (sections 2.1 and 2.3 of RFC 3986), never `/` |
| `GossipWire.EscReadsBack` | tools/test-support/gossip_wire.rs:25-27 | an escaped text decodes to the original |
| `GossipWire.EscItself` | tools/test-support/gossip_wire.rs:25-27 | a text is its own escape if and only if it is letters, digits, `-`, `.`, `_` and `~` alone |
| `GossipWire.EscInjective` | tools/test-support/gossip_wire.rs:25-27 | two texts escape alike if and only if they are the same |
| `GossipWire.JoinedInjective` | tools/test-support/gossip_wire.rs:28 | non-empty lists that join alike are the same list |
| `GossipWire.JoinedAlikeExactly` | tools/test-support/gossip_wire.rs:28 | any two lists join alike if and only if they are the same, or are no part and one empty part |
| `GossipWire.SequenceOrder` | tools/test-support/gossip_wire.rs:48-56 | the sequence strings of 64-bit values are twenty decimal digits that read as the value, and order exactly as the values do |
| `GossipWire.StatusSequenceOrder` | tools/test-support/gossip_wire.rs:60-64 | and keep that order behind a common epoch prefix |

## Left out

- `crates/rdm-admin/src/admin.rs` and what it exercises (elections, projections, recovery) are not part of this model.
- RPC, QUIC, gossip delivery, async tasks, spans and real time, the gateway's forward loop included: outcomes are arbitrary inputs.
- JSON and UTF-8: a line codec is any writer whose lines have no newline of their own and read back; a file is text of decoded characters.
- Disk errors inside a live process: a write either happens whole or the process crashes during it.
- `BuildReject` display text, `FabricState`, `delete_admits` and `EntrySpec::of`: single-branch or finite.
- The births an exited verdict pins (`crates/rdm-admin/src/control_plane.rs:374-379`) and the acceptance gates around compile: inputs of the acceptance, not modelled.
- Fields of a node the planner does not read (addresses, versions, tags of a live birth).
- `Atlas::apply`, `Atlas::answer`, `answered_mesh_primary` and the atlas's row projection: lookups over what the atlas holds; they would only add easy members.
- The formatting of a frame's time, its trace strings and the expansion of a members frame's body (`tools/test-support/gossip_wire.rs:29-32`, `79-85`).
- Progress.PlanningEnds: the executor realises operations as `build.rs` documents them and nothing else moves the view; a fabric that other actors change meanwhile is not modelled.
- FabricDrive.FabricPlanningEnds: likewise, and the fabric-primary stays while the fabric is deleted, as the sequence documents.
- BuildScope.AcceptedIdentified: what is minted is new and no two of it alike, the replaced paths are listed once, and a mesh id is of one mesh in the accepted topology and the view, as inputs; minting itself is randomness.
- ProduceRuns.RecordedOnce: decisions and completions are serialised, as the decision lock of `crates/rdm-node/src/operation.rs:158-200` makes them; without it the lemma is false, as ProduceRuns.UnserialisedClash shows.
- ProduceRuns.FetchedForever: for topics of at most 2^64 - 1 records, the width of an offset.
- Caller.RecordedAtOnePath: records are durable; a submit that reached its node within its call is not delivered again.
- ConsumerRecord.Service.EndWork: the completion and the end of the run are one step; a completion that cannot be recorded is a crash.
- RecordCopy.AlwaysAPrefix: the copy's lines are written whole and the source record at a path only grows.
- Gateway.AskEachGateway: the message of each refused answer is kept as a value, not as text.
