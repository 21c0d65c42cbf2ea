/**
 * The Girder documents that the sharable-dataset feature reads and writes,
 * reduced to the fields it touches, together with the authorization and
 * dataset-validation checks it calls.
 *
 * Ids are abstract naturals: Girder's ObjectIds only need to be compared and
 * freshly generated here.
 */
module Documents {

  type UserId = nat
  type FolderId = nat
  type ItemId = nat
  /** The content of one stored file; copying a file copies this value. */
  type FileBlob = nat

  datatype Option<T> = None | Some(value: T) {
    function GetOr(default: T): T {
      match this
      case Some(v) => v
      case None => default
    }
  }

  /** Exceptions raised by the code or by the Girder calls it makes. */
  datatype Error =
    | AccessDenied      // Folder().requireAccess fails
    | ValidationFailed  // crud.verify_dataset / crud.verify_sharable_dataset fail
    | MissingDocument   // a findOne by id found nothing and the result is used
    | KeyError          // a dict key read or deleted that is not there
    | ValueError        // get_media on an unrecognised source type
    | TypeError         // `index in None`

  datatype Result<T> = Ok(value: T) | Err(error: Error)

  /** Girder's AccessType levels READ < WRITE < ADMIN. */
  datatype Level = Read | Write | Admin {
    function Rank(): nat {
      match this
      case Read => 0
      case Write => 1
      case Admin => 2
    }
  }

  datatype User = User(id: UserId, admin: bool)

  /** RequestStatus: the state of one access request. */
  datatype Status = Granted | Denied | Pending

  /** One entry `{id, status}` of a document's `access.requests` list. */
  datatype Request = Request(id: UserId, status: Status)

  /**
   * A document's `access` record: the per-user ACL that Girder keeps and the
   * `requests` list this feature adds. `requests` is None when the record has
   * no such key (Girder creates `access` with users and groups only).
   */
  datatype Access = Access(users: map<UserId, Level>, requests: Option<seq<Request>>)

  /** The dataset type marker in a folder's meta. */
  datatype MediaType = ImageSequence | LargeImage | Video

  datatype Meta = Meta(
    annotate: bool,
    mediaType: Option<MediaType>,
    sharable: bool,
    previewFrames: Option<seq<int>>,
    originalMediaName: Option<string>)

  /**
   * A folder document. `sharableMediaId` and `originalMediaId` are top-level
   * keys of the document (not meta keys): the source dataset points at its
   * sharable copy and the copy points back at its source.
   */
  datatype Folder = Folder(
    id: FolderId,
    name: string,
    parentId: nat,
    creatorId: Option<UserId>,
    public: bool,
    size: nat,
    meta: Meta,
    access: Option<Access>,
    sharableMediaId: Option<FolderId>,
    originalMediaId: Option<FolderId>)

  /** An item document with the content of the files attached to it. */
  datatype Item = Item(
    id: ItemId,
    folderId: FolderId,
    name: string,
    description: string,
    meta: Option<map<string, string>>,
    files: seq<FileBlob>)

  /** The level `user` holds on `f` through its ACL, if any. */
  function AclLevel(f: Folder, user: UserId): Option<Level> {
    if f.access.Some? && user in f.access.value.users then Some(f.access.value.users[user]) else None
  }

  /**
   * Girder's access test as used by `requireAccess`: site administrators pass
   * every check, a public folder grants READ to everyone, otherwise the user's
   * ACL entry must reach the level.
   */
  predicate HasAccess(f: Folder, user: User, level: Level) {
    || user.admin
    || (f.public && level == Read)
    || (AclLevel(f, user.id).Some? && AclLevel(f, user.id).value.Rank() >= level.Rank())
  }

  /** Girder's `setUserAccess(doc, user, level)`: the user's ACL entry becomes `level`. */
  function SetUserAccess(f: Folder, user: UserId, level: Level): (r: Folder)
    ensures AclLevel(r, user) == Some(level)
    ensures forall v :: v != user ==> AclLevel(r, v) == AclLevel(f, v)
    ensures r.access.Some? && r.access.value.requests == (if f.access.Some? then f.access.value.requests else None)
    ensures r.(access := f.access) == f
  {
    match f.access
    case None => f.(access := Some(Access(map[user := level], None)))
    case Some(a) => f.(access := Some(a.(users := a.users[user := level])))
  }

  /** `crud.verify_dataset`: the folder is marked as an annotated dataset. */
  predicate VerifyDataset(f: Folder) {
    f.meta.annotate
  }

  /** `crud.verify_sharable_dataset`: an annotated dataset marked sharable. */
  predicate VerifySharableDataset(f: Folder) {
    f.meta.annotate && f.meta.sharable
  }
}
