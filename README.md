# Sharable datasets in the DIVE Girder plugin, modelled in Dafny

The DIVE plugin for Girder lets the owner of an annotated image dataset publish
a *sharable copy* of it. The copy is a public `<name>_shared` folder next to the
source. It holds a copy of every frame, but only the *preview frames* (one in
twenty, spread evenly) keep their file content. Other users can browse the
sharable copies, request access to a dataset, and have that request granted
(an exchange of READ access between two owners) or denied. Each folder keeps
requests in an `access.requests` list of `{id, status}` entries.

The model has five modules:

- `Documents` (documents.dfy): the folder and item documents, reduced to the
  fields the feature reads or writes. It also holds Girder's access test,
  `setUserAccess`, and the two dataset checks.
- `AccessRequests` (access_requests.dfy): the request store.
  - `setUserAccessRequest` is an upsert. The first entry for the user is
    replaced in place; with no such entry, a new one is appended.
  - `hasRequestedAccess` is a lookup, filtered or unfiltered.
  - `has_requested` reports the unfiltered lookup.
- `Preview` (preview.dfy): the preview-frame selection, the two URL builders,
  and `get_media`, which blanks the id and url of every non-preview frame.
- `Queries` (queries.dfy):
  - the match conditions of the two listing pipelines;
  - their skip/limit page;
  - their total count.
- `SharableDataset` (sharable_dataset.dfy): the class `Girder`.
  - Its fields are the folder collection, the item collection, the next fresh
    id, and a ghost log of the notifications sent.
  - Its methods are `share_dataset`, `request_access`, `grant_access`,
    `deny_access`, and the upsert loop. Each states the whole new store.
  - Each method keeps a store invariant, `Consistent`:
    - ids are fresh and match their keys;
    - items sit in existing folders;
    - sibling names are unique;
    - every sharable copy is the `<name>_shared` sibling of its source;
    - request lists hold at most one entry per user.
  - Lemmas after the class relate several calls to each other.

Two places in the source fail where the surrounding code evidently expects
them to succeed; see "## Findings". The rest of the model uses the corrected
behaviour.

## Model

| member | source | states |
|---|---|---|
| Documents.SetUserAccess | server/dive_server/crud_sharable_dataset.py:242-244 | the user's ACL level becomes the given one; every other user's level, the request list and every other field are unchanged |
| AccessRequests.IndexOfUser | server/dive_server/views_sharable_dataset.py:42-47 | the index the loop stops at is the first entry for the user; there is none exactly when no entry carries the user's id |
| AccessRequests.Upsert | server/dive_server/views_sharable_dataset.py:42-50 | the request list after the for/else loop; its replace-in-place, append and uniqueness properties are stated by the three lemmas below |
| AccessRequests.UpsertReplacesInPlace | server/dive_server/views_sharable_dataset.py:42-47 | an existing entry for the user is replaced by `{id, status}` at its own index; the length and every other entry are unchanged |
| AccessRequests.UpsertAppends | server/dive_server/views_sharable_dataset.py:48-50 | with no entry for the user, the new entry is appended after the unchanged earlier entries |
| AccessRequests.UpsertKeepsUnique | server/dive_server/views_sharable_dataset.py:42-50 | at most one entry per user before the upsert implies the same after it |
| AccessRequests.UpsertKeepsOthers | server/dive_server/views_sharable_dataset.py:42-50 | an entry of any other user is present after the upsert exactly when it was before |
| AccessRequests.SetUserAccessRequestAsWritten | server/dive_server/views_sharable_dataset.py:32-50 | the code as written fails with KeyError exactly when `access` exists without a `requests` key |
| AccessRequests.WithRequest | server/dive_server/views_sharable_dataset.py:27-50 | the corrected upsert: the request list becomes the upsert of the old one, and the ACL and every other field are unchanged |
| AccessRequests.AsWrittenAgreesWhenRequestsPresent | server/dive_server/views_sharable_dataset.py:32-50 | wherever the code as written does not fail, it produces exactly the corrected document |
| AccessRequests.AsWrittenFailsOnFreshFolder | server/dive_server/views_sharable_dataset.py:42 | a folder whose `access` holds only its creator's ACL makes the code as written fail; the corrected upsert records the single pending entry |
| AccessRequests.WithRequestOnBareDocument | server/dive_server/views_sharable_dataset.py:32-33 | a document without `access` gets `{requests: [entry]}` and nothing else in its record |
| AccessRequests.FirstHit | server/dive_server/views_sharable_dataset.py:59-62 | the result is the status of the first entry matching the user and filter; it is None exactly when no entry matches |
| AccessRequests.HasRequestedAccess | server/dive_server/views_sharable_dataset.py:55-63 | no `access` record gives None; with a filter it gives True iff some entry of the user has a status in the filter; without one it gives None iff the user has no entry, and otherwise the status of the user's first entry |
| AccessRequests.HasRequested | server/dive_server/views_sharable_dataset.py:199-205 | reports the caller's own id with the unfiltered lookup: None exactly when there is no `access` record or no entry for the user, and otherwise the status of the user's first entry; never a boolean |
| AccessRequests.LookupAfterSet | server/dive_server/views_sharable_dataset.py:42-63 | round trip: after setting a status, the unfiltered lookup and `has_requested` return that status |
| AccessRequests.FilteredLookupAfterSet | server/dive_server/views_sharable_dataset.py:42-63 | with unique entries, the filtered lookup after setting a status is True exactly when the filter contains that status |
| AccessRequests.LookupOfOtherAfterSet | server/dive_server/views_sharable_dataset.py:42-63 | on a document that already has an access record, setting one user's status leaves every lookup of every other user unchanged |
| AccessRequests.FirstHitOnPrefixOfMisses | server/dive_server/views_sharable_dataset.py:59-62 | extending a list with entries that do not match leaves the first match unchanged |
| Preview.PreviewCount | server/dive_server/crud_sharable_dataset.py:143 | the count is the least c with n <= 20c, i.e. `ceil(0.05 * n)` |
| Preview.PreviewFrames | server/dive_server/crud_sharable_dataset.py:142-144 | `set_preview_frames` with integer arithmetic; its shape is stated by `Preview.PreviewFramesShape` |
| Preview.PreviewFramesShape | server/dive_server/crud_sharable_dataset.py:142-144 | `ceil(n/20)` entries, all in [0, n-1], strictly increasing; the first is 0 and, with two or more entries, the last is n-1; empty exactly when n = 0 |
| Preview.PreviewFramesExamples | server/dive_server/crud_sharable_dataset.py:142-144 | 0 frames give [], 20 give [0], 41 give [0, 20, 40] |
| Preview.IdText | server/dive_server/crud_sharable_dataset.py:28 | `str(_id)` is a non-empty string of hexadecimal digits |
| Preview.GetUrl | server/dive_server/crud_sharable_dataset.py:23-28 | the url is empty exactly when `preview` is false; otherwise it starts with `/api/v1/dive_dataset/` and ends with `/download` |
| Preview.GetLargeImageMetadataUrl | server/dive_server/crud_sharable_dataset.py:31-36 | the url is empty exactly when `preview` is false (the default); otherwise it starts with `api/v1/` and ends with `/tiles/internal_metadata` |
| Preview.GetMedia | server/dive_server/crud_sharable_dataset.py:284-318 | a folder that is not a sharable dataset is refused; other types raise ValueError; otherwise one resource per frame carries its filename, and its id and url are non-empty exactly when its index is a preview frame, and then the id is the item's id and the url is the large-image metadata route for large images or the media download route otherwise; a non-empty frame list on a folder without `previewFrames` raises TypeError, which is the only other failure (an empty list gives an empty listing) |
| Queries.SharableQueryAgreesWithLookup | server/dive_server/crud_sharable_dataset.py:321-339 | a folder matches iff it is annotated and sharable, its creator exists and is not the user, and the request lookup filtered to granted is not True |
| Queries.MatchesSharableQuery | server/dive_server/crud_sharable_dataset.py:321-339 | the `$and` of the sharable query; its meaning in terms of the request lookup is stated by `Queries.SharableQueryAgreesWithLookup` |
| Queries.SharableDatasets | server/dive_server/crud_sharable_dataset.py:321-339 | the matches are exactly the folders that satisfy the sharable query |
| Queries.SharableDatasetsCount | server/dive_server/crud_sharable_dataset.py:46-72 | the matches number exactly the folders counted one by one as matching, so the listing's total is the match count |
| Queries.OwnsSharableDataset | server/dive_server/crud_sharable_dataset.py:345-353 | the first `$match` of the requests query: annotated, created by the user, marked sharable; the rows it admits are stated by `Queries.DatasetRequestRows` |
| Queries.PendingRows | server/dive_server/crud_sharable_dataset.py:355-356 | unwinding one folder yields exactly its pending entries |
| Queries.DatasetRequestRows | server/dive_server/crud_sharable_dataset.py:342-357 | the rows are exactly the pending entries of the annotated sharable folders that the user created |
| Queries.PendingRowsCount | server/dive_server/crud_sharable_dataset.py:355-356 | one row per pending entry of the folder |
| Queries.DatasetRequestRowsCount | server/dive_server/crud_sharable_dataset.py:342-357 | the total number of rows equals the number of pending entries on the user's sharable datasets |
| Queries.Window | server/dive_server/crud_sharable_dataset.py:53-54 | the page is the slice of `limit` rows starting at `offset`, cut short at the end and empty past it |
| Queries.ListSharableDatasets | server/dive_server/crud_sharable_dataset.py:39-74 | the page is the skip/limit window of the matching folders in stored order; the total is the number of matching folders, whatever the page; every folder on the page matches; the page holds at most `limit` folders |
| Queries.ListDatasetRequests | server/dive_server/crud_sharable_dataset.py:76-112 | the page is the skip/limit window of the pending-request rows; the total is the number of pending entries on the user's sharable datasets; every row on the page is such an entry; the page holds at most `limit` rows |
| SharableDataset.SharedName | server/dive_server/crud_sharable_dataset.py:124 | the copy's name differs from the source's, so a dataset is never its own `<name>_shared` sibling |
| SharableDataset.WithoutSharedSibling | server/dive_server/crud_sharable_dataset.py:124-132 | exactly the `<name>_shared` siblings of the source are removed; every other folder is unchanged |
| SharableDataset.ItemsWithin | server/dive_server/crud_sharable_dataset.py:132 | removing a folder removes exactly the items inside it |
| SharableDataset.UnshareAsWritten | server/dive_server/crud_sharable_dataset.py:198-199 | `del` fails with KeyError exactly when the dataset has no sharable reference; otherwise only the reference goes |
| SharableDataset.Unshare | server/dive_server/crud_sharable_dataset.py:198-200 | the corrected step: the dataset ends without a reference, nothing else changes, and it agrees with the code as written wherever that succeeds |
| SharableDataset.UnshareNeverShared | server/dive_server/crud_sharable_dataset.py:199 | unsharing a dataset that was never shared fails as written and leaves it unchanged when corrected |
| SharableDataset.SharedFolder | server/dive_server/crud_sharable_dataset.py:146-190 | the copy is a public `<name>_shared` sibling of the source; its meta is stamped sharable, with the preview frames and the source's name; it points back at the source and has no requests |
| SharableDataset.CopiedItem | server/dive_server/crud_sharable_dataset.py:165-182 | a frame's copy keeps its name, goes in the new folder, and keeps its files only when previewed |
| SharableDataset.CopiedItems | server/dive_server/crud_sharable_dataset.py:165-182 | one copy per frame, under ids pid+1 to pid+n in frame order, each in folder pid; copy k keeps its files iff k is a preview frame |
| SharableDataset.CopiedItemsStep | server/dive_server/crud_sharable_dataset.py:165-182 | one more iteration adds the copy of the next frame under the next id |
| SharableDataset.CopiedItemsAgree | server/dive_server/crud_sharable_dataset.py:165-182 | the copies depend only on the frames' own documents |
| SharableDataset.ReplaceFolderConsistent | server/dive_server/crud_sharable_dataset.py:242-259 | rewriting a folder's ACL, requests or copy reference keeps the store invariant |
| SharableDataset.MarkRequestConsistent | server/dive_server/views_sharable_dataset.py:42-52 | the request upsert keeps the store invariant, including one entry per user |
| SharableDataset.RemoveSiblingConsistent | server/dive_server/crud_sharable_dataset.py:131-132 | removing the `<name>_shared` sibling with its items keeps the store invariant |
| SharableDataset.AddFolderConsistent | server/dive_server/crud_sharable_dataset.py:146-152 | creating a folder under a fresh id and a free name keeps the store invariant |
| SharableDataset.AddItemConsistent | server/dive_server/crud_sharable_dataset.py:168-174 | creating an item under a fresh id in an existing folder keeps the store invariant |
| SharableDataset.CopiesConsistent | server/dive_server/crud_sharable_dataset.py:165-182 | adding the frame copies to the new folder keeps the store invariant |
| SharableDataset.StampCopyConsistent | server/dive_server/crud_sharable_dataset.py:184-193 | stamping the copy and the source with their cross-references keeps the store invariant |
| SharableDataset.StampOnlyCopy | server/dive_server/crud_sharable_dataset.py:184-191 | stamping the copy with its back-reference keeps the store invariant |
| SharableDataset.UnshareConsistent | server/dive_server/crud_sharable_dataset.py:198-200 | the unshare branch (sibling removed, reference dropped) keeps the store invariant |
| SharableDataset.CreatedFolder | server/dive_server/crud_sharable_dataset.py:146-152 | the new folder gets the fresh id and is the `<name>_shared` sibling, with no source reference and no requests |
| SharableDataset.CreateCopyConsistent | server/dive_server/crud_sharable_dataset.py:146-193 | creating, filling and stamping the copy in a store without a sibling keeps the store invariant |
| SharableDataset.Girder.SetUserAccessRequest | server/dive_server/views_sharable_dataset.py:27-53 | the for/else loop writes exactly the upsert of the folder's list; nothing else in the store changes; the invariant holds |
| SharableDataset.Girder.RemoveSharedSibling | server/dive_server/crud_sharable_dataset.py:124-132 | after the lookup and removal, no sibling of the source remains, and only the items of the removed folder are gone |
| SharableDataset.Girder.ShareDataset | server/dive_server/crud_sharable_dataset.py:115-203 | checks in order: public, then ADMIN, then dataset (a refusal changes nothing). The sibling is removed before `share` or the type is read. Unsharing drops the reference; an unsuitable type stops after the removal. Sharing creates the stamped copy and one item per frame, and points the source at the copy |
| SharableDataset.Girder.Reshare | server/dive_server/crud_sharable_dataset.py:124-203 | past the checks: the same three outcomes as `share_dataset`, with the invariant kept |
| SharableDataset.Girder.CreateSharableCopy | server/dive_server/crud_sharable_dataset.py:146-193 | the copy gets the next id; the frame copies follow under the ids after it; the copy and the source are stamped; the invariant holds |
| SharableDataset.Girder.CopyFrames | server/dive_server/crud_sharable_dataset.py:165-182 | the loop adds exactly the copies of all frames, in order, and touches no folder |
| SharableDataset.Girder.RequestAccess | server/dive_server/crud_sharable_dataset.py:206-226 | a dataset check, then the creator, then a granted or pending entry each refuse without a write; a valid dataset asked for by a non-creator with no granted or pending entry always gives 'Access request sent', with a pending entry written and one notification sent |
| SharableDataset.Girder.GrantAccess | server/dive_server/crud_sharable_dataset.py:229-265 | both sharable-folder ADMIN checks come before any change. Each source is checked and opened for READ in turn, so a failure on the second leaves the first grant applied. On success both sharable folders record a granted entry and one notification is sent |
| SharableDataset.Girder.SetAccessLevel | server/dive_server/crud_sharable_dataset.py:242-244 | only that folder's ACL entry for the user changes; the invariant holds |
| SharableDataset.Girder.DenyAccess | server/dive_server/crud_sharable_dataset.py:268-281 | without ADMIN nothing changes; otherwise the requester's entry becomes denied and one notification is sent |
| SharableDataset.AtMostOneSharableCopy | server/dive_server/crud_sharable_dataset.py:124-193 | in a consistent store, two folders that point back at the same source are the same folder |
| SharableDataset.ExchangeGrantsBoth | server/dive_server/crud_sharable_dataset.py:254-259 | after the exchange each sharable folder reports the other owner as granted, also when both are the same folder |
| SharableDataset.DeniedMayRequestAgain | server/dive_server/crud_sharable_dataset.py:209-218 | a user whose entry is denied is not refused, the entry becomes pending, and a second request is refused |
| SharableDataset.Girder.RequestAgainAfterDenial | server/dive_server/crud_sharable_dataset.py:206-226 | a denied user on a valid dataset they did not create calling `request_access` twice gets 'Access request sent' with the entry now pending, then 'already requested' |
| SharableDataset.RequestIsRecorded | server/dive_server/crud_sharable_dataset.py:214-218 | once a pending entry is written, the granted-or-pending lookup is True |
| SharableDataset.DenyRecordsDenied | server/dive_server/crud_sharable_dataset.py:273-276 | afterwards the requester's status is denied; a folder without entries gets exactly that one |

## Left out

- Preview.PreviewFrames: selects `i * (n - 1) / (count - 1)` with integer division. numpy's `linspace(..., dtype=int)` computes the points in floating point and truncates them. For 49 values of n up to 3000 the two disagree by one (for n = 459, entry 11 is 229 here and 228 in floats). Floating point is not modelled.
- Ids are naturals. ObjectId conversion (`ObjectId(id)` in `setUserAccessRequest`) and the ObjectId text format are not modelled. `str(_id)` is written in hexadecimal only to give the URLs a shape.
- Girder storage is a pair of maps in one object. Several things are left out:
  - the difference between a document held in memory and its saved copy. Each request write is a targeted `$set` at an index or a `$push`, handed to `_saveAcl`; the model applies it to the stored folder;
  - the `created` and `updated` timestamps;
  - recursive removal of subfolders;
  - the file store (a frame's files are a value copied with the item).
- Girder access control is reduced to site administrators, public READ and per-user ACL levels. Groups are not modelled.
- `crud.verify_dataset` and `crud.verify_sharable_dataset` are modelled as the annotate and sharable marks. `crud.valid_images` and `crud.valid_large_images` are parameters: the frame ids of the folder, in order. crud.py is not part of this model.
- SharableDataset.Girder.CreateSharableCopy: never fails. In the source, `parent_folder` is a `Folder().findOne` on the dataset's `parentId`, passed as `parent=` to `createFolder`. A dataset placed directly under a user or a collection gets None there, so creating the copy fails after the old sibling was already removed. Parent kinds are not modelled.
- SharableDataset.CreatedFolder: the new copy's ACL is only `{user: ADMIN}`. Girder's `createFolder` also copies the parent's access policies, and that inherited ACL decides the later ADMIN checks on the sharable folder in `grant_access` and `deny_access`. Parent ACLs are not modelled.
- SharableDataset.AtMostOneSharableCopy: holds only because no modelled operation renames or moves a folder. `share_dataset` finds the old copy by name (`<name>_shared` under the same parent), not through `SharableMediaId`. Share A, rename A to B in Girder, then share B: no `B_shared` exists, so `A_shared` survives, still pointing at A, next to the new `B_shared`. Renaming and moving folders are outside this model.
- `get_or_create_auxiliary_folder` and `crud_annotation.clone_annotations` in `share_dataset` are left out. They create folders and annotations the feature never reads back.
- `events.trigger` is recorded in a ghost log of notifications; mail delivery is not modelled.
- Listings: `$sort` is left out, and pages are in stored order. The `$lookup`/`$set` login joins are left out, and so is the `$unwind` that drops rows whose requester has no login. A `limit` of 0 gives an empty page here, while MongoDB rejects `$limit: 0`.
- Request status is one datatype. `grant_access` and `deny_access` pass the enum object where `request_access` compares strings; this serialisation mismatch is not modelled.
- The REST views are not modelled (routes, parameter decoding, and two views that call crud functions under wrong names or signatures). The crud signatures are modelled instead.
- Plugin loading, `setRequestAccess`, the client router and the overridden job views are not part of this model.

## Findings

| source | as written | input that shows it | evidently intended | confidence | as-written member | corrected member |
|---|---|---|---|---|---|---|
| server/dive_server/views_sharable_dataset.py:42 | `doc['access']['requests']` is read without a default, and `{'requests': []}` is created only when `access` is missing | a folder whose `access` record holds only its creator's ACL, as Girder creates every folder (AccessRequests.AsWrittenFailsOnFreshFolder) | a missing `requests` key reads as an empty list, as `hasRequestedAccess` reads it at line 59 | medium, not executed | AccessRequests.SetUserAccessRequestAsWritten | AccessRequests.WithRequest |
| server/dive_server/crud_sharable_dataset.py:199 | `del folder[SharableMediaId]` on unshare | a dataset that was never shared, after the sibling removal has already run (SharableDataset.UnshareNeverShared) | unsharing leaves the dataset without a reference whether or not it had one | medium, not executed | SharableDataset.UnshareAsWritten | SharableDataset.Unshare |
