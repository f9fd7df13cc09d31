/** What a caller submits, and the refusals by name it may be answered with. */
module Changes {
  import opened Model

  datatype NodeRequest = NodeRequest(
    at: PathName, mesh: string, kind: string, storage: Option<Storage>, executable: Option<Binding>,
    tags: set<string>, config: map<string, string>)

  datatype Change =
    | Create(meshes: seq<string>, nodes: seq<NodeRequest>)
    | Delete(meshes: seq<string>, ids: seq<NodeId>)
    | RemoveFabric

  datatype Reject =
    | NoNodeListed | EmptyFabric
    | InvalidMeshName(mesh: string) | MeshAlreadyExists(mesh: string) | DuplicateMesh(mesh: string)
    | UnknownMesh(mesh: string) | MeshWithoutAdmin(mesh: string) | WouldLeaveMeshWithoutAdmin(mesh: string)
    | InvalidNodeName(at: PathName) | NameHeld(at: PathName) | ExecutableMissing(at: PathName)
    | TagsRefused(at: PathName) | NodeNamedTwice(at: PathName) | UnknownNodeId(id: NodeId)
    | NodeSpecMismatch(mesh: string, missing: seq<PathName>, extra: seq<PathName>)
}
