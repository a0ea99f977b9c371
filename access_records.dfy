/**
 * The access records of AccessManagement.kt: who may call the access
 * endpoints, which records a caller sees, and lookup by id in the
 * `BackendAccess` collection.  Dates are milliseconds.
 */
module AccessRecords {
  import opened Options

  datatype DateRange = DateRange(from: int, to: int)

  /** A `BackendAccess` document; `allowedEmails` is a list, so it may hold duplicates. */
  datatype Access = Access(
    id: string,
    locationId: string,
    createdBy: string,
    createdDate: int,
    allowedEmails: seq<string>,
    dateRanges: seq<DateRange>,
    note: string,
    reason: string)

  datatype UserType = AccessManager | OtherUserType

  /** The authenticated caller. */
  datatype User = User(id: string, isModerator: bool, userType: UserType)

  /** `isAllowed`: moderators and access managers may use the access endpoints. */
  predicate IsAllowed(user: User)
  {
    user.isModerator || user.userType == AccessManager
  }

  /** `r` is `s` with some documents left out and the rest in their order. */
  predicate IsSubsequence(r: seq<Access>, s: seq<Access>)
    decreases |s|
  {
    if r == [] then true
    else if s == [] then false
    else (r[0] == s[0] && IsSubsequence(r[1..], s[1..])) || IsSubsequence(r, s[1..])
  }

  /** The documents that satisfy `keep`, in collection order, each as often as it occurs. */
  function Filter(docs: seq<Access>, keep: Access -> bool): (r: seq<Access>)
    ensures forall a :: a in r <==> a in docs && keep(a)
    ensures forall a :: multiset(r)[a] == if keep(a) then multiset(docs)[a] else 0
    ensures IsSubsequence(r, docs)
    ensures |r| <= |docs|
  {
    if docs == [] then []
    else
      assert docs == [docs[0]] + docs[1..];
      var rest := Filter(docs[1..], keep);
      if keep(docs[0]) then
        assert ([docs[0]] + rest)[1..] == rest;
        [docs[0]] + rest
      else rest
  }

  /**
   * The query of `listAccess`: a moderator who names a location sees that
   * location's records; everyone else sees the records they created.
   */
  predicate ListVisible(user: User, locationId: Option<string>, a: Access)
  {
    if locationId.Some? && user.isModerator then a.locationId == locationId.value
    else a.createdBy == user.id
  }

  /** Some date range of the record ends after `now`. */
  predicate HasLiveRange(a: Access, now: int)
  {
    exists r :: r in a.dateRanges && r.to > now
  }

  /** The query of `listExportAccess`: the `listAccess` query restricted to records with a live range. */
  predicate ExportVisible(user: User, locationId: Option<string>, now: int, a: Access)
  {
    ListVisible(user, locationId, a) && HasLiveRange(a, now)
  }

  /** `_id` is the collection's primary key. */
  predicate DistinctIds(docs: seq<Access>)
  {
    forall i, j :: 0 <= i < j < |docs| ==> docs[i].id != docs[j].id
  }

  predicate HasId(docs: seq<Access>, id: string)
  {
    exists i :: 0 <= i < |docs| && docs[i].id == id
  }

  /** `findOne(_id equal id)`. */
  function Find(docs: seq<Access>, id: string): (r: Option<Access>)
    ensures r.Some? ==> r.value in docs && r.value.id == id
    ensures r.None? <==> !HasId(docs, id)
  {
    if docs == [] then None
    else if docs[0].id == id then Some(docs[0])
    else
      var r := Find(docs[1..], id);
      assert HasId(docs, id) ==> docs[0].id == id || HasId(docs[1..], id) by {
        if HasId(docs, id) {
          var i :| 0 <= i < |docs| && docs[i].id == id;
          if i > 0 {
            assert docs[1..][i - 1].id == id;
          }
        }
      }
      assert HasId(docs[1..], id) ==> HasId(docs, id) by {
        if HasId(docs[1..], id) {
          var i :| 0 <= i < |docs[1..]| && docs[1..][i].id == id;
          assert docs[i + 1].id == id;
        }
      }
      r
  }
}
