/**
 * The match conditions of the two listing views, stated over the folder
 * collection in its stored order: the sharable datasets a user may request
 * (`get_sharable_dataset_query`) and the pending requests on the user's own
 * sharable datasets (`get_dataset_requests_query`), with the skip/limit page
 * and total count that `list_sharable_datasets` and `list_dataset_requests`
 * report.
 */
module Queries {
  import opened Documents
  import opened AccessRequests

  /** `access.requests $elemMatch {id: user, status: granted}`. */
  predicate HasGrantedEntry(f: Folder, user: UserId) {
    exists i :: 0 <= i < |RequestsOf(f)| && RequestsOf(f)[i] == Request(user, Granted)
  }

  /**
   * `get_sharable_dataset_query(user)`: annotated, marked sharable, created by
   * someone other than the user (a missing creator never matches), and
   * carrying no granted request from the user.
   */
  predicate MatchesSharableQuery(f: Folder, user: UserId) {
    && f.meta.annotate
    && !(f.creatorId == Some(user) || f.creatorId == None)
    && f.meta.sharable
    && !HasGrantedEntry(f, user)
  }

  /**
   * The query excludes a folder on the requests side exactly when the
   * request store reports a granted request for the user.
   */
  lemma SharableQueryAgreesWithLookup(f: Folder, user: UserId)
    ensures MatchesSharableQuery(f, user) <==>
              && f.meta.annotate && f.meta.sharable
              && f.creatorId.Some? && f.creatorId.value != user
              && HasRequestedAccess(f, user, Only(Granted)) != Flag(true)
  {
    if f.access.Some? {
      assert HasGrantedEntry(f, user) <==>
             exists i :: 0 <= i < |RequestsOf(f)| && RequestsOf(f)[i].id == user && RequestsOf(f)[i].status in [Granted];
    }
  }

  /** The sharable datasets visible to `user`, in collection order. */
  function SharableDatasets(folders: seq<Folder>, user: UserId): (r: seq<Folder>)
    ensures |r| <= |folders|
    ensures forall f :: f in r <==> f in folders && MatchesSharableQuery(f, user)
  {
    if folders == [] then []
    else
      var rest := SharableDatasets(folders[1..], user);
      assert forall f :: f in folders <==> f == folders[0] || f in folders[1..];
      if MatchesSharableQuery(folders[0], user) then [folders[0]] + rest else rest
  }

  /** Number of folders matching the sharable query, counted one by one. */
  function MatchCount(folders: seq<Folder>, user: UserId): nat {
    if folders == [] then 0
    else (if MatchesSharableQuery(folders[0], user) then 1 else 0) + MatchCount(folders[1..], user)
  }

  /** One result per matching folder: the listing's total is the match count. */
  lemma {:induction false} SharableDatasetsCount(folders: seq<Folder>, user: UserId)
    ensures |SharableDatasets(folders, user)| == MatchCount(folders, user)
  {
    if folders != [] {
      SharableDatasetsCount(folders[1..], user);
    }
  }

  /** The first stage of `get_dataset_requests_query(user)`. */
  predicate OwnsSharableDataset(f: Folder, user: UserId) {
    f.meta.annotate && f.creatorId == Some(user) && f.meta.sharable
  }

  /** One row of the requests listing: a folder with one of its pending entries. */
  datatype RequestRow = RequestRow(folder: Folder, request: Request)

  /** `$unwind: '$access.requests'` then `$match: {status: pending}` on one folder. */
  function PendingRows(f: Folder, reqs: seq<Request>): (rows: seq<RequestRow>)
    ensures |rows| <= |reqs|
    ensures forall row :: row in rows <==> row.folder == f && row.request in reqs && row.request.status == Pending
  {
    if reqs == [] then []
    else
      var rest := PendingRows(f, reqs[1..]);
      assert forall e :: e in reqs <==> e == reqs[0] || e in reqs[1..];
      if reqs[0].status == Pending then [RequestRow(f, reqs[0])] + rest else rest
  }

  /** Number of pending entries in a request list. */
  function PendingCount(reqs: seq<Request>): nat {
    if reqs == [] then 0 else (if reqs[0].status == Pending then 1 else 0) + PendingCount(reqs[1..])
  }

  /**
   * `get_dataset_requests_query(user)` over the collection: one row per
   * pending entry of every annotated sharable folder the user created.
   */
  function DatasetRequestRows(folders: seq<Folder>, user: UserId): (rows: seq<RequestRow>)
    ensures forall row :: row in rows <==>
              && row.folder in folders
              && OwnsSharableDataset(row.folder, user)
              && row.request in RequestsOf(row.folder)
              && row.request.status == Pending
  {
    if folders == [] then []
    else
      var rest := DatasetRequestRows(folders[1..], user);
      assert forall f :: f in folders <==> f == folders[0] || f in folders[1..];
      if OwnsSharableDataset(folders[0], user) then PendingRows(folders[0], RequestsOf(folders[0])) + rest else rest
  }

  /** The length of a folder's unwound rows is its number of pending entries. */
  lemma {:induction false} PendingRowsCount(f: Folder, reqs: seq<Request>)
    ensures |PendingRows(f, reqs)| == PendingCount(reqs)
  {
    if reqs != [] {
      PendingRowsCount(f, reqs[1..]);
    }
  }

  /** Total pending entries over the folders the user owns as sharable datasets. */
  function OwnedPendingCount(folders: seq<Folder>, user: UserId): nat {
    if folders == [] then 0
    else (if OwnsSharableDataset(folders[0], user) then PendingCount(RequestsOf(folders[0])) else 0)
         + OwnedPendingCount(folders[1..], user)
  }

  /** Exactly one row per pending entry on the user's sharable datasets. */
  lemma {:induction false} DatasetRequestRowsCount(folders: seq<Folder>, user: UserId)
    ensures |DatasetRequestRows(folders, user)| == OwnedPendingCount(folders, user)
  {
    if folders != [] {
      DatasetRequestRowsCount(folders[1..], user);
      PendingRowsCount(folders[0], RequestsOf(folders[0]));
    }
  }

  /** `$skip: offset` then `$limit: limit`. */
  function Window<T>(rows: seq<T>, offset: nat, limit: nat): (page: seq<T>)
    ensures |page| <= limit
    ensures offset <= |rows| ==> |page| == if |rows| - offset < limit then |rows| - offset else limit
    ensures offset > |rows| ==> page == []
    ensures forall k :: 0 <= k < |page| ==> offset + k < |rows| && page[k] == rows[offset + k]
  {
    if offset >= |rows| then []
    else if |rows| - offset < limit then rows[offset..]
    else rows[offset..offset + limit]
  }

  /** A page of a listing and the total count of matches, independent of the page. */
  datatype Listing<T> = Listing(page: seq<T>, total: nat)

  /** `list_sharable_datasets(user, limit, offset)` in collection order. */
  function ListSharableDatasets(folders: seq<Folder>, user: UserId, limit: nat, offset: nat): (r: Listing<Folder>)
    ensures r.total == MatchCount(folders, user)
    ensures r.page == Window(SharableDatasets(folders, user), offset, limit)
    ensures forall f :: f in r.page ==> f in folders && MatchesSharableQuery(f, user)
    ensures |r.page| <= limit
  {
    var all := SharableDatasets(folders, user);
    SharableDatasetsCount(folders, user);
    Listing(Window(all, offset, limit), |all|)
  }

  /** `list_dataset_requests(user, limit, offset)` in collection order. */
  function ListDatasetRequests(folders: seq<Folder>, user: UserId, limit: nat, offset: nat): (r: Listing<RequestRow>)
    ensures r.total == OwnedPendingCount(folders, user)
    ensures r.page == Window(DatasetRequestRows(folders, user), offset, limit)
    ensures forall row :: row in r.page ==>
              row.folder in folders && OwnsSharableDataset(row.folder, user) && row.request.status == Pending
    ensures |r.page| <= limit
  {
    var all := DatasetRequestRows(folders, user);
    DatasetRequestRowsCount(folders, user);
    Listing(Window(all, offset, limit), |all|)
  }
}
