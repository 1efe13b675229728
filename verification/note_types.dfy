/** The records exchanged by the note synchronisation protocol: the note as
    the client caches it, the change a client proposes, the note the server
    reports as applied, and the conflict it reports otherwise. */
module NoteTypes {
  import opened Wrappers

  type Id = string

  /** The id of the signed-in user a request acts for. */
  type UserId = string

  /** A timestamp string (`toISOString()`), treated as an opaque value. */
  type Stamp = string

  /** A note in the client cache.  Notes fetched from the server carry both
      timestamps; entries copied from a sync response carry neither. */
  datatype Note = Note(
    id: Id,
    title: string,
    content: string,
    version: int,
    createdAt: Option<Stamp>,
    updatedAt: Option<Stamp>)

  /** No two notes of the list share an id. */
  predicate DistinctIds(ns: seq<Note>) {
    forall i, j :: 0 <= i < j < |ns| ==> ns[i].id != ns[j].id
  }

  /** An entry of the sync response's `applied` list: exactly the four fields
      the server copies out of the stored note. */
  datatype SyncedNote = SyncedNote(id: Id, title: string, content: string, version: int)

  /** One element of the request's `changes` array; `None` is an undefined
      field. */
  datatype Change = Change(
    id: Option<Id>,
    title: Option<string>,
    content: Option<string>,
    baseVersion: Option<int>)

  /** The `serverData` snapshot attached to a version conflict. */
  datatype ServerData = ServerData(title: string, content: string)

  /** An entry of the sync response's `conflicts` list, tagged by its reason.
      Only a version conflict carries `serverData`; a missing-fields conflict
      echoes whatever id and base version the change had and reports a null
      server version. */
  datatype Conflict =
    | MissingFields(givenId: Option<Id>, givenVersion: Option<int>)
    | VersionConflict(id: Id, clientVersion: int, serverVersion: int, serverData: ServerData)
    | ClientAhead(id: Id, clientVersion: int, serverVersion: int)
  {
    /** The conflict's `id` field (undefined when the change had none). */
    function ConflictId(): Option<Id> {
      match this
      case MissingFields(given, _) => given
      case VersionConflict(id, _, _, _) => Some(id)
      case ClientAhead(id, _, _) => Some(id)
    }

    /** The literal `reason` string sent on the wire. */
    function Reason(): string {
      match this
      case MissingFields(_, _) => "Missing required fields"
      case VersionConflict(_, _, _, _) => "Version conflict"
      case ClientAhead(_, _, _) => "Client version ahead of server"
    }

    /** The `serverVersion` field; `None` is the JSON `null`. */
    function ServerVersion(): Option<int> {
      match this
      case MissingFields(_, _) => None
      case VersionConflict(_, _, sv, _) => Some(sv)
      case ClientAhead(_, _, sv) => Some(sv)
    }

    /** The optional `serverData` field. */
    function Data(): Option<ServerData> {
      if VersionConflict? then Some(serverData) else None
    }
  }

  /** The body of a successful sync response. */
  datatype SyncResponse = SyncResponse(applied: seq<SyncedNote>, conflicts: seq<Conflict>)

  /** An applied entry as it lands in the client cache: no timestamps. */
  function FromSynced(n: SyncedNote): Note {
    Note(n.id, n.title, n.content, n.version, None, None)
  }
}
