/**
 * The state-changing half of the sharable-dataset feature: `share_dataset`,
 * `request_access`, `grant_access` and `deny_access`, run against Girder's
 * folder and item collections. The class `Girder` holds those collections;
 * its methods are the crud functions, and `SetUserAccessRequest` is the
 * upsert the feature installs on the Folder model.
 */
module SharableDataset {
  import opened Documents
  import opened AccessRequests
  import opened Preview

  const PublicNotShareable := "Public datasets cannot be shared"
  const TypeNotSuitable := "Dataset type not suitable for sharing"
  const SharableCreated := "Sharable dataset created"
  const SharableRemoved := "Sharable dataset removed"
  const AlreadyHasAccess := "User already has access to this data"
  const AlreadyRequestedAccess := "User has already requested access to this data"
  const RequestSent := "Access request sent"

  /** The notifications `events.trigger` sends to the mailer. */
  datatype Event =
    | RequestEvent(user: UserId, dataset: FolderId)
    | GrantEvent(dataset: FolderId, owner: UserId, exchangeDataset: FolderId, exchangeOwner: UserId)
    | DenyEvent(dataset: FolderId, owner: UserId, requester: UserId)

  /** The name of a dataset's sharable copy. */
  function SharedName(name: string): (r: string)
    ensures r != name
  {
    assert |name + "_shared"| == |name| + 7;
    name + "_shared"
  }

  /** `f` is the `<name>_shared` sibling that `share_dataset` looks up for `src`. */
  predicate IsSharedSibling(f: Folder, src: Folder) {
    f.name == SharedName(src.name) && f.parentId == src.parentId
  }

  /** The folders after `Folder().remove` of every `<name>_shared` sibling of `src`. */
  function WithoutSharedSibling(fs: map<FolderId, Folder>, src: Folder): (r: map<FolderId, Folder>)
    ensures forall k :: k in r <==> k in fs && !IsSharedSibling(fs[k], src)
    ensures forall k :: k in r ==> r[k] == fs[k]
  {
    map k | k in fs && !IsSharedSibling(fs[k], src) :: fs[k]
  }

  /** The items whose folder is still there: removing a folder removes its items. */
  function ItemsWithin(its: map<ItemId, Item>, fs: map<FolderId, Folder>): (r: map<ItemId, Item>)
    ensures forall i :: i in r <==> i in its && its[i].folderId in fs
    ensures forall i :: i in r ==> r[i] == its[i]
  {
    map i | i in its && its[i].folderId in fs :: its[i]
  }

  /** `del folder[SharableMediaId]` as written: a folder never shared has no such key. */
  function UnshareAsWritten(f: Folder): (r: Result<Folder>)
    ensures r.Err? <==> f.sharableMediaId.None?
    ensures r.Ok? ==> r.value.sharableMediaId.None? && r.value.(sharableMediaId := f.sharableMediaId) == f
  {
    if f.sharableMediaId.None? then Err(KeyError) else Ok(f.(sharableMediaId := None))
  }

  /** Dropping the reference to the sharable copy, whether or not there is one. */
  function Unshare(f: Folder): (r: Folder)
    ensures r.sharableMediaId.None?
    ensures r.(sharableMediaId := f.sharableMediaId) == f
    ensures f.sharableMediaId.Some? ==> UnshareAsWritten(f) == Ok(r)
  {
    f.(sharableMediaId := None)
  }

  /**
   * The input that shows the discrepancy: unsharing a dataset that was never
   * shared fails as written, after the sibling removal already ran; the
   * corrected step leaves the dataset without a reference.
   */
  lemma UnshareNeverShared(f: Folder)
    requires f.sharableMediaId.None?
    ensures UnshareAsWritten(f) == Err(KeyError)
    ensures Unshare(f) == f
  {
  }

  /** The dataset types `share_dataset` accepts. */
  predicate SuitableType(f: Folder) {
    f.meta.mediaType == Some(ImageSequence) || f.meta.mediaType == Some(LargeImage)
  }

  /** The checks `share_dataset` makes before touching anything, in order. */
  predicate ShareRefused(f: Folder, user: User) {
    f.public || !HasAccess(f, user, Admin) || !VerifyDataset(f)
  }

  /** The frames `share_dataset` copies: valid images or valid large images. */
  function FramesFor(f: Folder, images: seq<ItemId>, largeImages: seq<ItemId>): seq<ItemId> {
    if f.meta.mediaType == Some(ImageSequence) then images else largeImages
  }

  /** The sharable copy as `createFolder` makes it and the final meta update stamps it. */
  function SharedFolder(src: Folder, user: UserId, id: FolderId, previewFrames: seq<int>): (r: Folder)
    ensures IsSharedSibling(r, src) && r.public
    ensures r.meta.sharable && r.meta.previewFrames == Some(previewFrames) && r.meta.originalMediaName == Some(src.name)
    ensures r.originalMediaId == Some(src.id) && RequestsOf(r) == []
  {
    Folder(id, SharedName(src.name), src.parentId, Some(user), true, src.size,
           src.meta.(sharable := true, previewFrames := Some(previewFrames), originalMediaName := Some(src.name)),
           Some(Access(map[user := Admin], None)), None, Some(src.id))
  }

  /** The copy of frame `frame`: name, description and meta, and its files only when previewed. */
  function CopiedItem(frame: Item, id: ItemId, folder: FolderId, preview: bool): (r: Item)
    ensures r.id == id && r.name == frame.name && r.folderId == folder
    ensures r.files == if preview then frame.files else []
  {
    Item(id, folder, frame.name, frame.description, frame.meta, if preview then frame.files else [])
  }

  /**
   * The copies of the first `n` frames, numbered `pid + 1` onwards in frame
   * order, each in folder `pid` and keeping its files only when its index is
   * one of the preview frames.
   */
  function CopiedItems(source: map<ItemId, Item>, frames: seq<ItemId>, pid: FolderId, preview: seq<int>, n: nat)
    : (r: map<ItemId, Item>)
    requires n <= |frames| && forall k :: 0 <= k < |frames| ==> frames[k] in source
    ensures forall i :: i in r <==> pid < i <= pid + n
    ensures forall i :: i in r ==> r[i].id == i && r[i].folderId == pid
    ensures forall k {:trigger frames[k]} :: 0 <= k < n ==>
              r[pid + 1 + k] == CopiedItem(source[frames[k]], pid + 1 + k, pid, k in preview)
  {
    if n == 0 then map[]
    else CopiedItems(source, frames, pid, preview, n - 1)[pid + n := CopiedItem(source[frames[n - 1]], pid + n, pid, n - 1 in preview)]
  }

  /** Copying one more frame adds its copy under the next id. */
  lemma CopiedItemsStep(source: map<ItemId, Item>, frames: seq<ItemId>, pid: FolderId, preview: seq<int>, n: nat, id: ItemId)
    requires n < |frames| && forall k :: 0 <= k < |frames| ==> frames[k] in source
    requires id == pid + 1 + n
    ensures (source + CopiedItems(source, frames, pid, preview, n))[id := CopiedItem(source[frames[n]], id, pid, n in preview)]
            == source + CopiedItems(source, frames, pid, preview, n + 1)
  {
  }

  /** The copies depend only on the frames' own documents. */
  lemma {:induction false} CopiedItemsAgree(s1: map<ItemId, Item>, s2: map<ItemId, Item>, frames: seq<ItemId>, pid: FolderId, preview: seq<int>, n: nat)
    requires n <= |frames|
    requires forall k :: 0 <= k < |frames| ==> frames[k] in s1 && frames[k] in s2 && s1[frames[k]] == s2[frames[k]]
    ensures CopiedItems(s1, frames, pid, preview, n) == CopiedItems(s2, frames, pid, preview, n)
  {
    if n > 0 {
      CopiedItemsAgree(s1, s2, frames, pid, preview, n - 1);
    }
  }

  /** A second write to the same key replaces the first. */
  lemma UpdateTwice<K, V>(m: map<K, V>, k: K, a: V, b: V)
    ensures m[k := a][k := b] == m[k := b]
  {
  }

  /** The folder map after `setUserAccess(fs[id], user, READ)`. */
  function GrantRead(fs: map<FolderId, Folder>, id: FolderId, user: UserId): map<FolderId, Folder>
    requires id in fs
  {
    fs[id := SetUserAccess(fs[id], user, Read)]
  }

  /** The folder map after `setUserAccessRequest(fs[id], user, status)`. */
  function MarkRequest(fs: map<FolderId, Folder>, id: FolderId, user: UserId, status: Status): map<FolderId, Folder>
    requires id in fs
  {
    fs[id := WithRequest(fs[id], user, status)]
  }

  /** No two folders under one parent share a name. */
  ghost predicate SiblingNamesUnique(fs: map<FolderId, Folder>) {
    forall a, b :: a in fs && b in fs && fs[a].parentId == fs[b].parentId && fs[a].name == fs[b].name ==> a == b
  }

  /** A sharable copy whose source still exists is that source's `<name>_shared` sibling. */
  ghost predicate CopiesNamedAfterSource(fs: map<FolderId, Folder>) {
    forall p, o :: p in fs && o in fs && fs[p].originalMediaId == Some(o) ==> IsSharedSibling(fs[p], fs[o])
  }

  /** Every folder's request list has at most one entry per user. */
  ghost predicate RequestsUnique(fs: map<FolderId, Folder>) {
    forall k :: k in fs ==> UniqueUsers(RequestsOf(fs[k]))
  }

  /** The user already has a granted or pending entry, so `request_access` answers without writing. */
  predicate AlreadyRequested(f: Folder, user: UserId) {
    HasRequestedAccess(f, user, AnyOf([Granted, Pending])) == Flag(true)
  }

  /**
   * The store invariant: ids are below the next fresh id and match their
   * keys, every item sits in an existing folder, sibling names are unique,
   * sharable copies are named after their sources, and request lists hold at
   * most one entry per user.
   */
  ghost predicate Consistent(fs: map<FolderId, Folder>, its: map<ItemId, Item>, next: nat) {
    && (forall k :: k in fs ==> k < next && fs[k].id == k)
    && (forall k :: k in fs && fs[k].originalMediaId.Some? ==> fs[k].originalMediaId.value < next)
    && (forall i :: i in its ==> i < next && its[i].id == i && its[i].folderId in fs)
    && SiblingNamesUnique(fs)
    && CopiesNamedAfterSource(fs)
    && RequestsUnique(fs)
  }

  /** Rewriting a folder's ACL, requests or references other than its source keeps the invariant. */
  lemma ReplaceFolderConsistent(fs: map<FolderId, Folder>, its: map<ItemId, Item>, next: nat, k: FolderId, f: Folder)
    requires Consistent(fs, its, next) && k in fs
    requires f.id == k && f.name == fs[k].name && f.parentId == fs[k].parentId
    requires f.originalMediaId == fs[k].originalMediaId
    requires UniqueUsers(RequestsOf(f))
    ensures Consistent(fs[k := f], its, next)
  {
    var fs' := fs[k := f];
    assert CopiesNamedAfterSource(fs') by {
      forall p, o | p in fs' && o in fs' && fs'[p].originalMediaId == Some(o)
        ensures IsSharedSibling(fs'[p], fs'[o])
      {
        assert IsSharedSibling(fs[p], fs[o]);
      }
    }
    assert SiblingNamesUnique(fs') by {
      forall a, b | a in fs' && b in fs' && fs'[a].parentId == fs'[b].parentId && fs'[a].name == fs'[b].name
        ensures a == b
      {
        assert fs[a].parentId == fs[b].parentId && fs[a].name == fs[b].name;
      }
    }
  }

  /** The request upsert keeps the invariant. */
  lemma MarkRequestConsistent(fs: map<FolderId, Folder>, its: map<ItemId, Item>, next: nat, k: FolderId, user: UserId, status: Status)
    requires Consistent(fs, its, next) && k in fs
    ensures Consistent(MarkRequest(fs, k, user, status), its, next)
  {
    UpsertKeepsUnique(RequestsOf(fs[k]), Request(user, status));
    ReplaceFolderConsistent(fs, its, next, k, WithRequest(fs[k], user, status));
  }

  /** Removing the `<name>_shared` sibling with its items keeps the invariant. */
  lemma RemoveSiblingConsistent(fs: map<FolderId, Folder>, its: map<ItemId, Item>, next: nat, src: Folder)
    requires Consistent(fs, its, next)
    ensures var fs' := WithoutSharedSibling(fs, src); Consistent(fs', ItemsWithin(its, fs'), next)
  {
  }

  /** A new folder with a fresh id, no source and no requests keeps the invariant when its name is free. */
  lemma AddFolderConsistent(fs: map<FolderId, Folder>, its: map<ItemId, Item>, next: nat, f: Folder)
    requires Consistent(fs, its, next)
    requires f.id == next && f.originalMediaId.None? && RequestsOf(f) == []
    requires forall k :: k in fs ==> !(fs[k].parentId == f.parentId && fs[k].name == f.name)
    ensures Consistent(fs[next := f], its, next + 1)
  {
    var fs' := fs[next := f];
    assert CopiesNamedAfterSource(fs') by {
      forall p, o | p in fs' && o in fs' && fs'[p].originalMediaId == Some(o)
        ensures IsSharedSibling(fs'[p], fs'[o])
      {
        assert p != next && o != next;
      }
    }
  }

  /** A new item with a fresh id in an existing folder keeps the invariant. */
  lemma AddItemConsistent(fs: map<FolderId, Folder>, its: map<ItemId, Item>, next: nat, item: Item)
    requires Consistent(fs, its, next)
    requires item.id == next && item.folderId in fs
    ensures Consistent(fs, its[next := item], next + 1)
  {
  }

  /** Adding the copies of the first `n` frames to folder `pid`, made just before, keeps the invariant. */
  lemma CopiesConsistent(fs: map<FolderId, Folder>, its: map<ItemId, Item>, pid: FolderId,
                         frames: seq<ItemId>, preview: seq<int>, n: nat)
    requires Consistent(fs, its, pid + 1) && pid in fs
    requires n <= |frames| && forall k :: 0 <= k < |frames| ==> frames[k] in its
    ensures Consistent(fs, its + CopiedItems(its, frames, pid, preview, n), pid + 1 + n)
  {
    var copies := CopiedItems(its, frames, pid, preview, n);
    var all := its + copies;
    forall i | i in all
      ensures i < pid + 1 + n && all[i].id == i && all[i].folderId in fs
    {
      if i in copies {
        assert all[i] == copies[i];
      } else {
        assert all[i] == its[i];
      }
    }
  }

  /**
   * Stamping the copy `f` of `src` with its source reference, and `src` with
   * its copy reference, keeps the invariant.
   */
  lemma StampCopyConsistent(fs: map<FolderId, Folder>, its: map<ItemId, Item>, next: nat, src: Folder, f: Folder)
    requires Consistent(fs, its, next) && src.id in fs && fs[src.id] == src
    requires f.id in fs && f.id != src.id && IsSharedSibling(fs[f.id], src) && IsSharedSibling(f, src)
    requires f.originalMediaId == Some(src.id) && RequestsOf(f) == []
    ensures Consistent(fs[f.id := f][src.id := src.(sharableMediaId := Some(f.id))], its, next)
  {
    var fs' := fs[f.id := f];
    assert Consistent(fs', its, next) by {
      StampOnlyCopy(fs, its, next, src, f);
    }
    ReplaceFolderConsistent(fs', its, next, src.id, src.(sharableMediaId := Some(f.id)));
  }

  /** Stamping the copy alone. */
  lemma StampOnlyCopy(fs: map<FolderId, Folder>, its: map<ItemId, Item>, next: nat, src: Folder, f: Folder)
    requires Consistent(fs, its, next) && src.id in fs && fs[src.id] == src
    requires f.id in fs && f.id != src.id && IsSharedSibling(fs[f.id], src) && IsSharedSibling(f, src)
    requires f.originalMediaId == Some(src.id) && RequestsOf(f) == []
    ensures Consistent(fs[f.id := f], its, next)
  {
    var fs' := fs[f.id := f];
    assert CopiesNamedAfterSource(fs') by {
      forall p, o | p in fs' && o in fs' && fs'[p].originalMediaId == Some(o)
        ensures IsSharedSibling(fs'[p], fs'[o])
      {
        if p != f.id {
          var o := fs[p].originalMediaId.value;
          assert IsSharedSibling(fs[p], fs[o]);
          assert f.name == fs[f.id].name && f.parentId == fs[f.id].parentId;
        }
      }
    }
    assert SiblingNamesUnique(fs') by {
      forall a, b | a in fs' && b in fs' && fs'[a].parentId == fs'[b].parentId && fs'[a].name == fs'[b].name
        ensures a == b
      {
        assert fs[a].parentId == fs[b].parentId && fs[a].name == fs[b].name;
      }
    }
  }

  /** Removing the `<name>_shared` sibling and dropping the source's reference keeps the invariant. */
  lemma UnshareConsistent(fs: map<FolderId, Folder>, its: map<ItemId, Item>, next: nat, src: Folder)
    requires Consistent(fs, its, next) && src.id in fs && fs[src.id] == src
    ensures var fs' := WithoutSharedSibling(fs, src);
            src.id in fs' && Consistent(fs'[src.id := Unshare(src)], ItemsWithin(its, fs'), next)
  {
    var fs' := WithoutSharedSibling(fs, src);
    RemoveSiblingConsistent(fs, its, next, src);
    assert !IsSharedSibling(src, src);
    ReplaceFolderConsistent(fs', ItemsWithin(its, fs'), next, src.id, Unshare(src));
  }

  /** The new `<name>_shared` folder as `createFolder` makes it, before its meta is stamped. */
  function CreatedFolder(src: Folder, user: UserId, id: FolderId): (r: Folder)
    ensures r.id == id && IsSharedSibling(r, src) && r.originalMediaId.None? && RequestsOf(r) == []
  {
    Folder(id, SharedName(src.name), src.parentId, Some(user), true, src.size, src.meta,
           Some(Access(map[user := Admin], None)), None, None)
  }

  /**
   * Creating the sharable copy of `src` in a store without a `<name>_shared`
   * sibling, copying the frames into it and stamping both folders keeps the
   * invariant.
   */
  lemma CreateCopyConsistent(fs: map<FolderId, Folder>, its: map<ItemId, Item>, next: nat, src: Folder,
                             user: UserId, frames: seq<ItemId>, preview: seq<int>)
    requires Consistent(fs, its, next) && src.id in fs && fs[src.id] == src
    requires forall k :: k in fs ==> !IsSharedSibling(fs[k], src)
    requires forall k :: 0 <= k < |frames| ==> frames[k] in its
    ensures Consistent(fs[next := SharedFolder(src, user, next, preview)][src.id := src.(sharableMediaId := Some(next))],
                       its + CopiedItems(its, frames, next, preview, |frames|), next + 1 + |frames|)
  {
    var created := Folder(next, SharedName(src.name), src.parentId, Some(user), true, src.size, src.meta,
                          Some(Access(map[user := Admin], None)), None, None);
    var fs1 := fs[next := created];
    var its2 := its + CopiedItems(its, frames, next, preview, |frames|);
    assert Consistent(fs1, its2, next + 1 + |frames|) by {
      AddFolderConsistent(fs, its, next, created);
      CopiesConsistent(fs1, its, next, frames, preview, |frames|);
    }
    var stamped := SharedFolder(src, user, next, preview);
    StampCopyConsistent(fs1, its2, next + 1 + |frames|, src, stamped);
    UpdateTwice(fs, next, created, stamped);
  }

  class Girder {
    var folders: map<FolderId, Folder>
    var items: map<ItemId, Item>
    /** Ids below `nextId` have been handed out. */
    var nextId: nat
    ghost var events: seq<Event>

    ghost predicate Valid()
      reads this
    {
      Consistent(folders, items, nextId)
    }

    constructor ()
      ensures Valid()
      ensures folders == map[] && items == map[] && nextId == 0 && events == []
    {
      folders, items, nextId, events := map[], map[], 0, [];
    }

    /**
     * `setUserAccessRequest(doc, user, status)`: replace the user's entry at
     * its index, or append one when the loop finds none.
     */
    method SetUserAccessRequest(fid: FolderId, user: UserId, status: Status := Pending)
      requires Valid() && fid in folders
      modifies this
      ensures Valid()
      ensures folders == MarkRequest(old(folders), fid, user, status)
      ensures items == old(items) && nextId == old(nextId) && events == old(events)
    {
      var doc := folders[fid];
      var access := if doc.access.None? then Access(map[], Some([])) else doc.access.value;
      var requests := access.requests.GetOr([]);
      var entry := Request(user, status);
      var index := 0;
      while index < |requests| && requests[index].id != user
        invariant 0 <= index <= |requests|
        invariant forall j :: 0 <= j < index ==> requests[j].id != user
      {
        index := index + 1;
      }
      ghost var before := requests;
      if index < |requests| {
        requests := requests[index := entry];
      } else {
        requests := requests + [entry];
      }
      assert requests == Upsert(before, entry);
      MarkRequestConsistent(folders, items, nextId, fid, user, status);
      folders := folders[fid := doc.(access := Some(access.(requests := Some(requests))))];
    }

    /** `Folder().remove` of the `<name>_shared` sibling of `src`, if there is one. */
    method RemoveSharedSibling(src: Folder)
      requires SiblingNamesUnique(folders)
      modifies this
      ensures folders == WithoutSharedSibling(old(folders), src)
      ensures items == ItemsWithin(old(items), folders)
      ensures nextId == old(nextId) && events == old(events)
    {
      if k :| k in folders && IsSharedSibling(folders[k], src) {
        folders := folders - {k};
      }
      assert folders == WithoutSharedSibling(old(folders), src);
      items := ItemsWithin(items, folders);
    }

    /**
     * `share_dataset(folder, user, share)`. `images` and `largeImages` stand
     * for what `crud.valid_images` and `crud.valid_large_images` return for
     * the folder. A public folder is refused before any access check; then
     * ADMIN access, then dataset validation. Past those checks the
     * `<name>_shared` sibling is removed whatever `share` and the type say.
     */
    method ShareDataset(fid: FolderId, user: User, share: bool, images: seq<ItemId>, largeImages: seq<ItemId>)
      returns (r: Result<string>)
      requires Valid() && fid in folders
      requires forall k :: 0 <= k < |images| ==> images[k] in items && items[images[k]].folderId == fid
      requires forall k :: 0 <= k < |largeImages| ==> largeImages[k] in items && items[largeImages[k]].folderId == fid
      modifies this
      ensures Valid()
      ensures events == old(events)
      ensures old(folders[fid]).public ==> r == Ok(PublicNotShareable)
      ensures !old(folders[fid]).public && !HasAccess(old(folders[fid]), user, Admin) ==> r == Err(AccessDenied)
      ensures !old(folders[fid]).public && HasAccess(old(folders[fid]), user, Admin) && !VerifyDataset(old(folders[fid])) ==>
                r == Err(ValidationFailed)
      ensures ShareRefused(old(folders[fid]), user) ==>
                folders == old(folders) && items == old(items) && nextId == old(nextId)
      ensures !ShareRefused(old(folders[fid]), user) && !share ==>
                && r == Ok(SharableRemoved)
                && folders == WithoutSharedSibling(old(folders), old(folders[fid]))[fid := Unshare(old(folders[fid]))]
                && items == ItemsWithin(old(items), WithoutSharedSibling(old(folders), old(folders[fid])))
                && nextId == old(nextId)
      ensures !ShareRefused(old(folders[fid]), user) && share && !SuitableType(old(folders[fid])) ==>
                && r == Ok(TypeNotSuitable)
                && folders == WithoutSharedSibling(old(folders), old(folders[fid]))
                && items == ItemsWithin(old(items), folders) && nextId == old(nextId)
      ensures !ShareRefused(old(folders[fid]), user) && share && SuitableType(old(folders[fid])) ==>
                var src := old(folders[fid]);
                var frames := FramesFor(src, images, largeImages);
                var pid := old(nextId);
                var preview := PreviewFrames(|frames|);
                var kept := ItemsWithin(old(items), WithoutSharedSibling(old(folders), src));
                && r == Ok(SharableCreated)
                && folders == WithoutSharedSibling(old(folders), src)[pid := SharedFolder(src, user.id, pid, preview)]
                                                                     [fid := src.(sharableMediaId := Some(pid))]
                && nextId == pid + 1 + |frames|
                && items == kept + CopiedItems(old(items), frames, pid, preview, |frames|)
    {
      var src := folders[fid];
      if src.public {
        return Ok(PublicNotShareable);
      }
      if !HasAccess(src, user, Admin) {
        return Err(AccessDenied);
      }
      if !VerifyDataset(src) {
        return Err(ValidationFailed);
      }
      r := Reshare(src, user.id, share, FramesFor(src, images, largeImages));
    }

    /**
     * `share_dataset` past its checks: remove the `<name>_shared` sibling,
     * then either drop the source's reference, refuse the type, or publish a
     * fresh copy and point the source at it.
     */
    method Reshare(src: Folder, user: UserId, share: bool, frames: seq<ItemId>) returns (r: Result<string>)
      requires Valid() && src.id in folders && folders[src.id] == src
      requires forall k :: 0 <= k < |frames| ==> frames[k] in items && items[frames[k]].folderId == src.id
      modifies this
      ensures Valid() && events == old(events)
      ensures !share ==>
                && r == Ok(SharableRemoved)
                && folders == WithoutSharedSibling(old(folders), src)[src.id := Unshare(src)]
                && items == ItemsWithin(old(items), WithoutSharedSibling(old(folders), src))
                && nextId == old(nextId)
      ensures share && !SuitableType(src) ==>
                && r == Ok(TypeNotSuitable)
                && folders == WithoutSharedSibling(old(folders), src)
                && items == ItemsWithin(old(items), folders) && nextId == old(nextId)
      ensures share && SuitableType(src) ==>
                var pid := old(nextId);
                var preview := PreviewFrames(|frames|);
                && r == Ok(SharableCreated)
                && folders == WithoutSharedSibling(old(folders), src)[pid := SharedFolder(src, user, pid, preview)]
                                                                     [src.id := src.(sharableMediaId := Some(pid))]
                && nextId == pid + 1 + |frames|
                && items == ItemsWithin(old(items), WithoutSharedSibling(old(folders), src))
                            + CopiedItems(old(items), frames, pid, preview, |frames|)
    {
      ghost var before := (folders, items, nextId);
      RemoveSharedSibling(src);
      assert src.id in folders && folders[src.id] == src;
      if !share {
        UnshareConsistent(before.0, before.1, before.2, src);
        folders := folders[src.id := Unshare(src)];
        return Ok(SharableRemoved);
      }
      if !SuitableType(src) {
        RemoveSiblingConsistent(before.0, before.1, before.2, src);
        return Ok(TypeNotSuitable);
      }
      RemoveSiblingConsistent(before.0, before.1, before.2, src);
      ghost var kept := items;
      assert forall k :: 0 <= k < |frames| ==> frames[k] in kept && kept[frames[k]] == old(items)[frames[k]];
      var pid := CreateSharableCopy(src, user, frames);
      CopiedItemsAgree(kept, old(items), frames, pid, PreviewFrames(|frames|), |frames|);
      r := Ok(SharableCreated);
    }

    /**
     * The `share=true` branch of `share_dataset` once the sibling is gone:
     * create the public `<name>_shared` folder, copy every frame into it
     * (file content only for preview frames), then stamp its meta and its
     * back-reference to the source, and the source's reference to it.
     */
    method CreateSharableCopy(src: Folder, user: UserId, frames: seq<ItemId>) returns (pid: FolderId)
      requires Valid() && src.id in folders && folders[src.id] == src
      requires forall k :: k in folders ==> !IsSharedSibling(folders[k], src)
      requires forall k :: 0 <= k < |frames| ==> frames[k] in items
      modifies this
      ensures Valid() && events == old(events)
      ensures pid == old(nextId) && nextId == pid + 1 + |frames|
      ensures folders == old(folders)[pid := SharedFolder(src, user, pid, PreviewFrames(|frames|))]
                                     [src.id := src.(sharableMediaId := Some(pid))]
      ensures items == old(items) + CopiedItems(old(items), frames, pid, PreviewFrames(|frames|), |frames|)
    {
      var previewFrames := PreviewFrames(|frames|);
      pid := nextId;
      var created := CreatedFolder(src, user, pid);
      folders := folders[pid := created];
      nextId := nextId + 1;
      CopyFrames(frames, pid, previewFrames);
      UpdateTwice(old(folders), pid, created, SharedFolder(src, user, pid, previewFrames));
      folders := folders[pid := SharedFolder(src, user, pid, previewFrames)][src.id := src.(sharableMediaId := Some(pid))];
      CreateCopyConsistent(old(folders), old(items), pid, src, user, frames, previewFrames);
    }

    /**
     * The copy loop of `share_dataset`: each frame, in order, becomes a new
     * item of folder `pid` under the next fresh id.
     */
    method CopyFrames(frames: seq<ItemId>, pid: FolderId, previewFrames: seq<int>)
      requires nextId == pid + 1
      requires forall k :: 0 <= k < |frames| ==> frames[k] in items
      modifies this
      ensures folders == old(folders) && events == old(events)
      ensures nextId == pid + 1 + |frames|
      ensures items == old(items) + CopiedItems(old(items), frames, pid, previewFrames, |frames|)
    {
      var source := items;
      var index := 0;
      assert items == source + CopiedItems(source, frames, pid, previewFrames, 0) by {
        assert CopiedItems(source, frames, pid, previewFrames, 0) == map[];
      }
      while index < |frames|
        invariant 0 <= index <= |frames|
        invariant nextId == pid + 1 + index
        invariant folders == old(folders) && events == old(events)
        invariant items == source + CopiedItems(source, frames, pid, previewFrames, index)
      {
        var frame := source[frames[index]];
        var isPreviewable := index in previewFrames;
        var copy := CopiedItem(frame, nextId, pid, isPreviewable);
        CopiedItemsStep(source, frames, pid, previewFrames, index, nextId);
        items := items[nextId := copy];
        nextId := nextId + 1;
        index := index + 1;
      }
    }

    /**
     * `request_access(folder, user)`: the creator already has access; a user
     * with a granted or pending entry has already asked; anyone else gets a
     * pending entry and a notification.
     */
    method RequestAccess(fid: FolderId, user: User) returns (r: Result<string>)
      requires Valid() && fid in folders
      modifies this
      ensures Valid()
      ensures items == old(items) && nextId == old(nextId)
      ensures !VerifyDataset(old(folders[fid])) ==> r == Err(ValidationFailed)
      ensures VerifyDataset(old(folders[fid])) && old(folders[fid]).creatorId == Some(user.id) ==>
                r == Ok(AlreadyHasAccess)
      ensures (VerifyDataset(old(folders[fid])) && old(folders[fid]).creatorId != Some(user.id)
               && AlreadyRequested(old(folders[fid]), user.id)) ==> r == Ok(AlreadyRequestedAccess)
      ensures (VerifyDataset(old(folders[fid])) && old(folders[fid]).creatorId != Some(user.id)
               && !AlreadyRequested(old(folders[fid]), user.id)) ==> r == Ok(RequestSent)
      ensures r != Ok(RequestSent) ==> folders == old(folders) && events == old(events)
      ensures r == Ok(RequestSent) ==>
                && folders == MarkRequest(old(folders), fid, user.id, Pending)
                && events == old(events) + [RequestEvent(user.id, fid)]
    {
      var folder := folders[fid];
      if !VerifyDataset(folder) {
        return Err(ValidationFailed);
      }
      if folder.creatorId == Some(user.id) {
        return Ok(AlreadyHasAccess);
      } else if HasRequestedAccess(folder, user.id, AnyOf([Granted, Pending])) == Flag(true) {
        return Ok(AlreadyRequestedAccess);
      }
      SetUserAccessRequest(fid, user.id);
      events := events + [RequestEvent(user.id, fid)];
      r := Ok(RequestSent);
    }

    /**
     * A user whose entry on a dataset was denied calls `request_access` twice:
     * the first call sends a fresh request, the second is refused.
     */
    method RequestAgainAfterDenial(fid: FolderId, user: User) returns (first: Result<string>, second: Result<string>)
      requires Valid() && fid in folders
      requires VerifyDataset(folders[fid]) && folders[fid].creatorId != Some(user.id)
      requires HasRequestedAccess(folders[fid], user.id, Unfiltered) == StatusAnswer(Denied)
      modifies this
      ensures Valid()
      ensures first == Ok(RequestSent) && second == Ok(AlreadyRequestedAccess)
      ensures folders == MarkRequest(old(folders), fid, user.id, Pending)
      ensures HasRequestedAccess(folders[fid], user.id, Unfiltered) == StatusAnswer(Pending)
    {
      DeniedMayRequestAgain(folders[fid], user.id);
      first := RequestAccess(fid, user);
      second := RequestAccess(fid, user);
    }

    /**
     * `grant_access(sharable_folder, folder_owner, sharable_exchange_folder,
     * exchange_folder_owner)`: both owners must hold ADMIN on their sharable
     * folders before anything changes; then each source dataset is checked
     * and opened for READ to the other owner in turn, so a failure on the
     * second source leaves the first grant in place; finally each sharable
     * folder records a granted entry for the other owner.
     */
    method GrantAccess(sid: FolderId, owner: User, eid: FolderId, exchangeOwner: User) returns (r: Result<()>)
      requires Valid() && sid in folders && eid in folders
      modifies this
      ensures Valid()
      ensures items == old(items) && nextId == old(nextId)
      ensures !HasAccess(old(folders[sid]), owner, Admin) || !HasAccess(old(folders[eid]), exchangeOwner, Admin) ==>
                r == Err(AccessDenied) && folders == old(folders) && events == old(events)
      ensures HasAccess(old(folders[sid]), owner, Admin) && HasAccess(old(folders[eid]), exchangeOwner, Admin) ==>
                var o := old(folders[sid]).originalMediaId;
                var eo := old(folders[eid]).originalMediaId;
                if o.None? || o.value !in old(folders) then
                  r == Err(MissingDocument) && folders == old(folders) && events == old(events)
                else if !HasAccess(old(folders[o.value]), owner, Admin) then
                  r == Err(AccessDenied) && folders == old(folders) && events == old(events)
                else
                  var f1 := GrantRead(old(folders), o.value, exchangeOwner.id);
                  if eo.None? || eo.value !in f1 then
                    r == Err(MissingDocument) && folders == f1 && events == old(events)
                  else if !HasAccess(f1[eo.value], exchangeOwner, Admin) then
                    r == Err(AccessDenied) && folders == f1 && events == old(events)
                  else
                    var f2 := GrantRead(f1, eo.value, owner.id);
                    && r == Ok(())
                    && folders == MarkRequest(MarkRequest(f2, sid, exchangeOwner.id, Granted), eid, owner.id, Granted)
                    && events == old(events) + [GrantEvent(sid, owner.id, eid, exchangeOwner.id)]
    {
      if !HasAccess(folders[sid], owner, Admin) || !HasAccess(folders[eid], exchangeOwner, Admin) {
        return Err(AccessDenied);
      }
      var o := folders[sid].originalMediaId;
      if o.None? || o.value !in folders {
        return Err(MissingDocument);
      }
      if !HasAccess(folders[o.value], owner, Admin) {
        return Err(AccessDenied);
      }
      SetAccessLevel(o.value, exchangeOwner.id, Read);
      var eo := folders[eid].originalMediaId;
      if eo.None? || eo.value !in folders {
        return Err(MissingDocument);
      }
      if !HasAccess(folders[eo.value], exchangeOwner, Admin) {
        return Err(AccessDenied);
      }
      SetAccessLevel(eo.value, owner.id, Read);
      SetUserAccessRequest(sid, exchangeOwner.id, Granted);
      SetUserAccessRequest(eid, owner.id, Granted);
      events := events + [GrantEvent(sid, owner.id, eid, exchangeOwner.id)];
      r := Ok(());
    }

    /** Girder's `setUserAccess(folder, user, level, save=True)`. */
    method SetAccessLevel(fid: FolderId, user: UserId, level: Level)
      requires Valid() && fid in folders
      modifies this
      ensures Valid()
      ensures folders == old(folders)[fid := SetUserAccess(old(folders[fid]), user, level)]
      ensures items == old(items) && nextId == old(nextId) && events == old(events)
    {
      ReplaceFolderConsistent(folders, items, nextId, fid, SetUserAccess(folders[fid], user, level));
      folders := folders[fid := SetUserAccess(folders[fid], user, level)];
    }

    /**
     * `deny_access(sharable_folder, owner, requesting_user)`: after the ADMIN
     * check the requester's entry becomes denied, created if it was missing.
     */
    method DenyAccess(sid: FolderId, owner: User, requester: UserId) returns (r: Result<()>)
      requires Valid() && sid in folders
      modifies this
      ensures Valid()
      ensures items == old(items) && nextId == old(nextId)
      ensures !HasAccess(old(folders[sid]), owner, Admin) ==>
                r == Err(AccessDenied) && folders == old(folders) && events == old(events)
      ensures HasAccess(old(folders[sid]), owner, Admin) ==>
                && r == Ok(())
                && folders == MarkRequest(old(folders), sid, requester, Denied)
                && events == old(events) + [DenyEvent(sid, owner.id, requester)]
    {
      if !HasAccess(folders[sid], owner, Admin) {
        return Err(AccessDenied);
      }
      SetUserAccessRequest(sid, requester, Denied);
      events := events + [DenyEvent(sid, owner.id, requester)];
      r := Ok(());
    }
  }

  /** In a consistent store a source dataset has at most one sharable copy. */
  lemma AtMostOneSharableCopy(fs: map<FolderId, Folder>, its: map<ItemId, Item>, next: nat, src: FolderId, p: FolderId, q: FolderId)
    requires Consistent(fs, its, next) && src in fs && p in fs && q in fs
    requires fs[p].originalMediaId == Some(src) && fs[q].originalMediaId == Some(src)
    ensures p == q
  {
    assert IsSharedSibling(fs[p], fs[src]) && IsSharedSibling(fs[q], fs[src]);
  }

  /**
   * After a successful exchange each sharable folder's lookup reports the
   * other owner as granted, also when both sharable folders are the same.
   */
  lemma ExchangeGrantsBoth(fs: map<FolderId, Folder>, sid: FolderId, owner: UserId, eid: FolderId, exchangeOwner: UserId)
    requires sid in fs && eid in fs
    ensures var after := MarkRequest(MarkRequest(fs, sid, exchangeOwner, Granted), eid, owner, Granted);
            && HasRequestedAccess(after[sid], exchangeOwner, Unfiltered) == StatusAnswer(Granted)
            && HasRequestedAccess(after[eid], owner, Unfiltered) == StatusAnswer(Granted)
  {
    var first := MarkRequest(fs, sid, exchangeOwner, Granted);
    LookupAfterSet(fs[sid], exchangeOwner, Granted);
    LookupAfterSet(first[eid], owner, Granted);
    if sid == eid && owner != exchangeOwner {
      LookupOfOtherAfterSet(first[sid], owner, Granted, exchangeOwner, Unfiltered);
    }
  }

  /**
   * A user whose only entry was denied is not refused by `request_access`,
   * and once the pending entry is written a second request is refused.
   */
  lemma DeniedMayRequestAgain(f: Folder, user: UserId)
    requires UniqueUsers(RequestsOf(f))
    requires HasRequestedAccess(f, user, Unfiltered) == StatusAnswer(Denied)
    ensures !AlreadyRequested(f, user)
    ensures AlreadyRequested(WithRequest(f, user, Pending), user)
    ensures HasRequestedAccess(WithRequest(f, user, Pending), user, Unfiltered) == StatusAnswer(Pending)
  {
    assert !AlreadyRequested(f, user) by {
      var reqs := RequestsOf(f);
      var i :| 0 <= i < |reqs| && reqs[i] == Request(user, Denied);
      forall j | 0 <= j < |reqs| && reqs[j].id == user ensures reqs[j].status == Denied {
        assert j == i;
      }
    }
    RequestIsRecorded(f, user);
    LookupAfterSet(f, user, Pending);
  }

  /** A user who has asked once is refused the second time. */
  lemma RequestIsRecorded(f: Folder, user: UserId)
    requires UniqueUsers(RequestsOf(f))
    ensures AlreadyRequested(WithRequest(f, user, Pending), user)
  {
    FilteredLookupAfterSet(f, user, Pending, AnyOf([Granted, Pending]));
  }

  /** `deny_access` leaves the requester denied, whether or not an entry existed. */
  lemma DenyRecordsDenied(fs: map<FolderId, Folder>, sid: FolderId, requester: UserId)
    requires sid in fs
    ensures HasRequestedAccess(MarkRequest(fs, sid, requester, Denied)[sid], requester, Unfiltered) == StatusAnswer(Denied)
    ensures RequestsOf(fs[sid]) == [] ==> RequestsOf(MarkRequest(fs, sid, requester, Denied)[sid]) == [Request(requester, Denied)]
  {
    LookupAfterSet(fs[sid], requester, Denied);
  }
}
