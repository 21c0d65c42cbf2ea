/**
 * The access-request store attached to a folder document: the upsert
 * `setUserAccessRequest` and the lookup `hasRequestedAccess` that the
 * sharable-dataset resource installs on Girder's Folder model, and the
 * `has_requested` endpoint that reports the lookup.
 *
 * The upsert itself runs as a loop inside `Girder.SetUserAccessRequest`
 * (sharable_dataset.dfy); `WithRequest` below is the document it produces.
 */
module AccessRequests {
  import opened Documents

  /** The document's `access.requests` list, a missing record or key read as empty. */
  function RequestsOf(doc: Folder): seq<Request> {
    if doc.access.Some? then doc.access.value.requests.GetOr([]) else []
  }

  /** At most one entry per user id. */
  ghost predicate UniqueUsers(reqs: seq<Request>) {
    forall i, j :: 0 <= i < j < |reqs| ==> reqs[i].id != reqs[j].id
  }

  /** The index of the first entry for `user`, if there is one. */
  function IndexOfUser(reqs: seq<Request>, user: UserId): (r: Option<nat>)
    ensures r.Some? ==> r.value < |reqs| && reqs[r.value].id == user
    ensures r.Some? ==> forall j :: 0 <= j < r.value ==> reqs[j].id != user
    ensures r.None? <==> forall j :: 0 <= j < |reqs| ==> reqs[j].id != user
  {
    if reqs == [] then None
    else if reqs[0].id == user then Some(0)
    else match IndexOfUser(reqs[1..], user)
      case None => None
      case Some(k) => Some(k + 1)
  }

  /**
   * The request list after setting `e`: the first entry with `e.id` is
   * replaced in place, or `e` is appended when there is none.
   */
  function Upsert(reqs: seq<Request>, e: Request): seq<Request> {
    match IndexOfUser(reqs, e.id)
    case Some(i) => reqs[i := e]
    case None => reqs + [e]
  }

  /** An existing entry for the user is replaced at its index; nothing else moves. */
  lemma UpsertReplacesInPlace(reqs: seq<Request>, e: Request, k: nat)
    requires k < |reqs| && reqs[k].id == e.id
    requires forall j :: 0 <= j < k ==> reqs[j].id != e.id
    ensures |Upsert(reqs, e)| == |reqs|
    ensures Upsert(reqs, e)[k] == e
    ensures forall j :: 0 <= j < |reqs| && j != k ==> Upsert(reqs, e)[j] == reqs[j]
  {
  }

  /** Without an entry for the user, the new entry goes at the end. */
  lemma UpsertAppends(reqs: seq<Request>, e: Request)
    requires forall j :: 0 <= j < |reqs| ==> reqs[j].id != e.id
    ensures Upsert(reqs, e) == reqs + [e]
  {
  }

  /** The upsert never creates a second entry for a user. */
  lemma UpsertKeepsUnique(reqs: seq<Request>, e: Request)
    requires UniqueUsers(reqs)
    ensures UniqueUsers(Upsert(reqs, e))
  {
    var r := Upsert(reqs, e);
    match IndexOfUser(reqs, e.id)
    case Some(k) =>
      forall i, j | 0 <= i < j < |r| ensures r[i].id != r[j].id {
        if i != k && j != k {
          assert r[i] == reqs[i] && r[j] == reqs[j];
        } else if i == k {
          assert reqs[k].id == e.id && r[j] == reqs[j];
        } else {
          assert reqs[k].id == e.id && r[i] == reqs[i];
        }
      }
    case None =>
      forall i, j | 0 <= i < j < |r| ensures r[i].id != r[j].id {
        if j == |reqs| {
          assert r[j] == e && r[i] == reqs[i];
        } else {
          assert r[i] == reqs[i] && r[j] == reqs[j];
        }
      }
  }

  /** Entries of other users keep their status through an upsert. */
  lemma UpsertKeepsOthers(reqs: seq<Request>, e: Request, v: UserId, s: Status)
    requires v != e.id
    ensures Request(v, s) in Upsert(reqs, e) <==> Request(v, s) in reqs
  {
    var r := Upsert(reqs, e);
    match IndexOfUser(reqs, e.id)
    case Some(k) =>
      if Request(v, s) in reqs {
        var j :| 0 <= j < |reqs| && reqs[j] == Request(v, s);
        assert r[j] == reqs[j];
      }
      if Request(v, s) in r {
        var j :| 0 <= j < |r| && r[j] == Request(v, s);
        assert reqs[j] == r[j];
      }
    case None =>
  }

  /**
   * `setUserAccessRequest(doc, user, status)` as the code reads: a document
   * without `access` first gets `{'requests': []}`, but a document whose
   * `access` record has no `requests` key fails on `doc['access']['requests']`.
   */
  function SetUserAccessRequestAsWritten(doc: Folder, user: UserId, status: Status): (r: Result<Folder>)
    ensures r.Err? <==> doc.access.Some? && doc.access.value.requests.None?
    ensures r.Err? ==> r.error == KeyError
  {
    match doc.access
    case None => Ok(doc.(access := Some(Access(map[], Some([Request(user, status)])))))
    case Some(a) =>
      if a.requests.None? then Err(KeyError)
      else Ok(doc.(access := Some(a.(requests := Some(Upsert(a.requests.value, Request(user, status)))))))
  }

  /**
   * The document after `setUserAccessRequest(doc, user, status)`, with a
   * missing `requests` key read as an empty list (as `hasRequestedAccess`
   * reads it). Only the request list changes.
   */
  function WithRequest(doc: Folder, user: UserId, status: Status): (r: Folder)
    ensures RequestsOf(r) == Upsert(RequestsOf(doc), Request(user, status))
    ensures r.access.Some? && r.access.value.requests.Some?
    ensures doc.access.Some? ==> r.access.value.users == doc.access.value.users
    ensures r.(access := doc.access) == doc
  {
    match doc.access
    case None => doc.(access := Some(Access(map[], Some([Request(user, status)]))))
    case Some(a) => doc.(access := Some(a.(requests := Some(Upsert(a.requests.GetOr([]), Request(user, status))))))
  }

  /** Where the code as written does not fail, it produces `WithRequest`. */
  lemma AsWrittenAgreesWhenRequestsPresent(doc: Folder, user: UserId, status: Status)
    requires doc.access.None? || doc.access.value.requests.Some?
    ensures SetUserAccessRequestAsWritten(doc, user, status) == Ok(WithRequest(doc, user, status))
  {
  }

  /**
   * The input that shows the discrepancy: a folder as Girder creates it, whose
   * `access` record holds its creator's ACL and no `requests` key. The first
   * request on it fails as written; the corrected upsert records it.
   */
  lemma AsWrittenFailsOnFreshFolder(creator: UserId, requester: UserId)
    ensures var doc := Folder(7, "dataset", 1, Some(creator), false, 0,
                              Meta(true, Some(ImageSequence), true, Some([0]), None),
                              Some(Access(map[creator := Admin], None)), None, None);
            && SetUserAccessRequestAsWritten(doc, requester, Pending) == Err(KeyError)
            && RequestsOf(WithRequest(doc, requester, Pending)) == [Request(requester, Pending)]
  {
    var doc := Folder(7, "dataset", 1, Some(creator), false, 0,
                      Meta(true, Some(ImageSequence), true, Some([0]), None),
                      Some(Access(map[creator := Admin], None)), None, None);
    assert RequestsOf(doc) == [];
  }

  /** A document with no `access` record gets one holding just the new entry. */
  lemma WithRequestOnBareDocument(doc: Folder, user: UserId, status: Status)
    requires doc.access.None?
    ensures WithRequest(doc, user, status).access == Some(Access(map[], Some([Request(user, status)])))
  {
  }

  /** The status filter of `hasRequestedAccess`: none, one value, or a list. */
  datatype StatusFilter = Unfiltered | Only(status: Status) | AnyOf(statuses: seq<Status>)

  /** The filter as a list, a single status wrapped into a one-element list. */
  function Wanted(filter: StatusFilter): Option<seq<Status>> {
    match filter
    case Unfiltered => None
    case Only(s) => Some([s])
    case AnyOf(ss) => Some(ss)
  }

  /** What `hasRequestedAccess` returns: Python None, True/False, or a status. */
  datatype Answer = NoneAnswer | Flag(flag: bool) | StatusAnswer(status: Status)

  predicate Hit(e: Request, user: UserId, wanted: Option<seq<Status>>) {
    e.id == user && (wanted.None? || e.status in wanted.value)
  }

  /** The status of the first entry for `user` that passes the filter. */
  function FirstHit(reqs: seq<Request>, user: UserId, wanted: Option<seq<Status>>): (r: Option<Status>)
    ensures r.None? <==> forall j :: 0 <= j < |reqs| ==> !Hit(reqs[j], user, wanted)
    ensures r.Some? ==> exists i :: 0 <= i < |reqs| && Hit(reqs[i], user, wanted) && reqs[i].status == r.value
                                    && forall j :: 0 <= j < i ==> !Hit(reqs[j], user, wanted)
  {
    if reqs == [] then None
    else if Hit(reqs[0], user, wanted) then Some(reqs[0].status)
    else
      var rest := FirstHit(reqs[1..], user, wanted);
      assert rest.Some? ==> exists i :: 1 <= i < |reqs| && Hit(reqs[i], user, wanted) && reqs[i].status == rest.value
                                        && forall j :: 0 <= j < i ==> !Hit(reqs[j], user, wanted) by {
        if rest.Some? {
          var i :| 0 <= i < |reqs[1..]| && Hit(reqs[1..][i], user, wanted) && reqs[1..][i].status == rest.value
                   && forall j :: 0 <= j < i ==> !Hit(reqs[1..][j], user, wanted);
          assert forall j :: 1 <= j < i + 1 ==> !Hit(reqs[j], user, wanted) by {
            forall j | 1 <= j < i + 1 ensures !Hit(reqs[j], user, wanted) {
              assert reqs[j] == reqs[1..][j - 1];
            }
          }
        }
      }
      assert rest.None? ==> forall j :: 1 <= j < |reqs| ==> !Hit(reqs[j], user, wanted) by {
        if rest.None? {
          forall j | 1 <= j < |reqs| ensures !Hit(reqs[j], user, wanted) {
            assert reqs[j] == reqs[1..][j - 1];
          }
        }
      }
      rest
  }

  /**
   * `hasRequestedAccess(doc, user, status)`. With a filter: whether some
   * entry for the user has a status in it. Without: the status of the user's
   * first entry, or None. A document without `access` gives None either way.
   */
  function HasRequestedAccess(doc: Folder, user: UserId, filter: StatusFilter): (r: Answer)
    ensures doc.access.None? ==> r == NoneAnswer
    ensures doc.access.Some? && filter != Unfiltered ==>
              r == Flag(exists i :: 0 <= i < |RequestsOf(doc)| && RequestsOf(doc)[i].id == user
                                    && RequestsOf(doc)[i].status in Wanted(filter).value)
    ensures filter == Unfiltered ==>
              (r == NoneAnswer <==> doc.access.None? || forall j :: 0 <= j < |RequestsOf(doc)| ==> RequestsOf(doc)[j].id != user)
    ensures filter == Unfiltered && r != NoneAnswer ==>
              r.StatusAnswer? && exists i :: 0 <= i < |RequestsOf(doc)| && RequestsOf(doc)[i] == Request(user, r.status)
                                             && forall j :: 0 <= j < i ==> RequestsOf(doc)[j].id != user
  {
    if doc.access.None? then NoneAnswer
    else
      var hit := FirstHit(RequestsOf(doc), user, Wanted(filter));
      if filter != Unfiltered then Flag(hit.Some?)
      else if hit.Some? then StatusAnswer(hit.value)
      else NoneAnswer
  }

  /** The `has_requested` endpoint: the current user's id and the unfiltered lookup. */
  function HasRequested(doc: Folder, user: UserId): (r: (UserId, Answer))
    ensures r.0 == user
    ensures r.1.Flag? == false
    ensures r.1 == NoneAnswer <==> doc.access.None? || forall j :: 0 <= j < |RequestsOf(doc)| ==> RequestsOf(doc)[j].id != user
    ensures r.1 != NoneAnswer ==>
              r.1.StatusAnswer? && exists i :: 0 <= i < |RequestsOf(doc)| && RequestsOf(doc)[i] == Request(user, r.1.status)
                                               && forall j :: 0 <= j < i ==> RequestsOf(doc)[j].id != user
  {
    (user, HasRequestedAccess(doc, user, Unfiltered))
  }

  /** Round trip: after setting a status, the unfiltered lookup returns it. */
  lemma {:induction false} LookupAfterSet(doc: Folder, user: UserId, status: Status)
    ensures HasRequestedAccess(WithRequest(doc, user, status), user, Unfiltered) == StatusAnswer(status)
    ensures HasRequested(WithRequest(doc, user, status), user) == (user, StatusAnswer(status))
  {
    var reqs := RequestsOf(doc);
    var after := RequestsOf(WithRequest(doc, user, status));
    match IndexOfUser(reqs, user)
    case Some(k) =>
      assert after[k] == Request(user, status);
      assert forall j :: 0 <= j < k ==> after[j] == reqs[j];
      assert FirstHit(after, user, None) == Some(status);
    case None =>
      assert after == reqs + [Request(user, status)];
      assert after[|reqs|] == Request(user, status);
      assert forall j :: 0 <= j < |reqs| ==> after[j] == reqs[j];
      assert FirstHit(after, user, None) == Some(status);
  }

  /**
   * Round trip through a filter: with at most one entry per user, after
   * setting a status the filtered lookup is True exactly when the filter
   * holds that status.
   */
  lemma FilteredLookupAfterSet(doc: Folder, user: UserId, status: Status, filter: StatusFilter)
    requires UniqueUsers(RequestsOf(doc))
    requires filter != Unfiltered
    ensures HasRequestedAccess(WithRequest(doc, user, status), user, filter) == Flag(status in Wanted(filter).value)
  {
    var reqs := RequestsOf(doc);
    var e := Request(user, status);
    var after := Upsert(reqs, e);
    UpsertKeepsUnique(reqs, e);
    var k: nat := match IndexOfUser(reqs, user) case Some(i) => i case None => |reqs|;
    assert k < |after| && after[k] == e;
    forall j | 0 <= j < |after| && after[j].id == user ensures j == k { }
  }

  /** Entries of other users read the same after an upsert for `user`. */
  lemma {:induction false} LookupOfOtherAfterSet(doc: Folder, user: UserId, status: Status, v: UserId, filter: StatusFilter)
    requires v != user && doc.access.Some?
    ensures HasRequestedAccess(WithRequest(doc, user, status), v, filter) == HasRequestedAccess(doc, v, filter)
  {
    var reqs := RequestsOf(doc);
    var after := Upsert(reqs, Request(user, status));
    var w := Wanted(filter);
    assert |after| >= |reqs|;
    forall j | 0 <= j < |after| ensures Hit(after[j], v, w) <==> (j < |reqs| && Hit(reqs[j], v, w)) {
      match IndexOfUser(reqs, user)
      case Some(k) =>
        if j != k { assert after[j] == reqs[j]; }
      case None =>
        if j < |reqs| { assert after[j] == reqs[j]; }
    }
    FirstHitOnPrefixOfMisses(reqs, after, v, w);
  }

  /** Extending a list only with entries that miss leaves the first hit unchanged. */
  lemma {:induction false} FirstHitOnPrefixOfMisses(a: seq<Request>, b: seq<Request>, v: UserId, w: Option<seq<Status>>)
    requires |a| <= |b|
    requires forall j :: 0 <= j < |b| ==> (Hit(b[j], v, w) <==> (j < |a| && Hit(a[j], v, w)))
    requires forall j :: 0 <= j < |a| && Hit(a[j], v, w) ==> b[j] == a[j]
    ensures FirstHit(b, v, w) == FirstHit(a, v, w)
  {
    if a == [] {
    } else if Hit(a[0], v, w) {
    } else {
      assert !Hit(b[0], v, w);
      FirstHitOnPrefixOfMisses(a[1..], b[1..], v, w);
    }
  }
}
