/**
 * The access-management endpoints of AccessManagement.kt over the
 * `BackendAccess` collection: list, export, get, create, delete, duplicate
 * and edit.  Each handler answers with a `Reply`; the exceptions the
 * handlers raise are replies too.  The collection is a sequence of
 * documents in their natural order with unique ids; `randomId()` and
 * `Date()` are parameters, and the location collection is the set of ids
 * that `getLocationsMap` can resolve.
 */
module AccessManagement {
  import opened Options
  import opened AccessRecords
  import opened PermitExport

  /** A handler's answer. */
  datatype Reply<T> =
    | Ok(value: T)
    | Forbidden        // respondForbidden()
    | IllegalArgument  // "Access doesn't exist"
    | NoSuchElement    // Map.getValue on a location the map does not hold
    | DuplicateKey     // insertOne(upsert = false) of an id already present

  /** The `NewAccess` payload of `createAccess`. */
  datatype NewAccess = NewAccess(
    locationId: string,
    allowedEmails: seq<string>,
    dateRanges: seq<DateRange>,
    note: string,
    reason: string)

  /** The `EditAccess` payload: `None` fields are left as they are. */
  datatype EditAccess = EditAccess(
    locationId: Option<string>,
    allowedEmails: Option<seq<string>>,
    dateRanges: Option<seq<DateRange>>,
    note: Option<string>,
    reason: Option<string>)

  /** The caller created the record or is a moderator. */
  predicate MayModify(user: User, a: Access)
  {
    user.id == a.createdBy || user.isModerator
  }

  // ---------------------------------------------------------------------------
  // Read-only handlers

  /**
   * `listAccess`: the visible records in collection order.  The location map
   * is built from the requested location alone when one is named, otherwise
   * from the records' own locations; a record whose location the map lacks
   * makes `getValue` throw.
   */
  function ListAccess(docs: seq<Access>, user: User, locationId: Option<string>,
                      locations: set<string>): (r: Reply<seq<Access>>)
    ensures r.Ok? ==> forall a :: a in r.value <==> a in docs && ListVisible(user, locationId, a)
    ensures r.Ok? ==> IsSubsequence(r.value, docs)
    ensures r.Ok? || r == Forbidden || r == NoSuchElement
    ensures r == Forbidden <==> !IsAllowed(user)
    ensures IsAllowed(user) ==>
      (r.Ok? <==> forall a :: a in docs && ListVisible(user, locationId, a) ==>
                    a.locationId in locations && (locationId.None? || a.locationId == locationId.value))
  {
    if !IsAllowed(user) then Forbidden
    else
      var selected := Filter(docs, a => ListVisible(user, locationId, a));
      if forall a :: a in selected ==> a.locationId in locations && (locationId.None? || a.locationId == locationId.value)
      then Ok(selected)
      else NoSuchElement
  }

  /**
   * An access manager who is not a moderator and names a location sees
   * their own records, so one of them at another location is missing from
   * the location map and the listing fails.
   */
  lemma ListAccessOtherLocationFails(docs: seq<Access>, user: User, location: string,
                                     locations: set<string>, a: Access)
    requires IsAllowed(user) && !user.isModerator
    requires a in docs && a.createdBy == user.id && a.locationId != location
    ensures ListAccess(docs, user, Some(location), locations) == NoSuchElement
  {
  }

  /** When every listed record's location resolves, the listing succeeds; a moderator naming a location gets exactly its records. */
  lemma ListAccessResolves(docs: seq<Access>, user: User, locationId: Option<string>, locations: set<string>)
    requires IsAllowed(user)
    requires forall a :: a in docs ==> a.locationId in locations
    requires locationId.Some? ==> user.isModerator
    ensures ListAccess(docs, user, locationId, locations).Ok?
    ensures locationId.Some? ==>
      forall a :: a in ListAccess(docs, user, locationId, locations).value <==> a in docs && a.locationId == locationId.value
  {
  }

  /** `listExportAccess`: the sorted permits of the visible records that have a live range. */
  function ListExportAccess(docs: seq<Access>, user: User, locationId: Option<string>, now: int): (r: Reply<seq<Permit>>)
    ensures r.Ok? <==> IsAllowed(user)
    ensures !r.Ok? ==> r == Forbidden
    ensures r.Ok? ==> LexSorted(r.value) && forall p :: p in r.value ==> p.dateRange.to > now
  {
    if !IsAllowed(user) then Forbidden
    else
      var accesses := Filter(docs, a => ExportVisible(user, locationId, now, a));
      ExportOrdered(accesses, now);
      ExportedPermitsLive(accesses, now);
      Ok(ExportPermits(accesses, now))
  }

  /**
   * Each permit of a visible record's live range and allowed email is
   * exported, and every exported permit is one of those.
   */
  lemma ListExportAccessMembers(docs: seq<Access>, user: User, locationId: Option<string>, now: int, p: Permit)
    requires IsAllowed(user)
    ensures p in ListExportAccess(docs, user, locationId, now).value <==>
      exists a :: a in docs && ListVisible(user, locationId, a)
        && p.dateRange in a.dateRanges && p.email in a.allowedEmails && p.dateRange.to > now
  {
    var accesses := Filter(docs, a => ExportVisible(user, locationId, now, a));
    ExportMembers(accesses, now, p);
  }

  /** `getAccess`: the record with that id, provided its location resolves. */
  function GetAccess(docs: seq<Access>, user: User, id: string, locations: set<string>): (r: Reply<Access>)
    ensures r == Forbidden <==> !IsAllowed(user)
    ensures r == IllegalArgument <==> IsAllowed(user) && !HasId(docs, id)
    ensures r.Ok? ==> r.value in docs && r.value.id == id && r.value.locationId in locations
    ensures r.Ok? ==> Find(docs, id) == Some(r.value)
    ensures IsAllowed(user) && HasId(docs, id) ==>
      Find(docs, id).Some? && (r.Ok? <==> Find(docs, id).value.locationId in locations)
    ensures r.Ok? || r == Forbidden || r == IllegalArgument || r == NoSuchElement
  {
    if !IsAllowed(user) then Forbidden
    else match Find(docs, id)
      case None => IllegalArgument
      case Some(a) => if a.locationId in locations then Ok(a) else NoSuchElement
  }

  // ---------------------------------------------------------------------------
  // The collection after a write

  /** `deleteOne(_id equal id)`. */
  function DeleteById(docs: seq<Access>, id: string): (r: seq<Access>)
    ensures forall a :: a in r <==> a in docs && a.id != id
    ensures |r| <= |docs|
  {
    if docs == [] then []
    else if docs[0].id == id then DeleteById(docs[1..], id)
    else [docs[0]] + DeleteById(docs[1..], id)
  }

  /** `updateOne(_id equal id)`: the document with that id becomes `a`. */
  function ReplaceById(docs: seq<Access>, id: string, a: Access): (r: seq<Access>)
    ensures |r| == |docs|
    ensures forall i :: 0 <= i < |docs| ==> r[i] == if docs[i].id == id then a else docs[i]
  {
    if docs == [] then []
    else [if docs[0].id == id then a else docs[0]] + ReplaceById(docs[1..], id, a)
  }

  /** The fields `editAccess` sets: exactly the non-null fields of the payload. */
  function ApplyEdit(a: Access, edit: EditAccess): (r: Access)
    ensures r.id == a.id && r.createdBy == a.createdBy && r.createdDate == a.createdDate
    ensures r.locationId == edit.locationId.GetOr(a.locationId)
    ensures r.allowedEmails == edit.allowedEmails.GetOr(a.allowedEmails)
    ensures r.dateRanges == edit.dateRanges.GetOr(a.dateRanges)
    ensures r.note == edit.note.GetOr(a.note)
    ensures r.reason == edit.reason.GetOr(a.reason)
  {
    var a1 := if edit.locationId.Some? then a.(locationId := edit.locationId.value) else a;
    var a2 := if edit.allowedEmails.Some? then a1.(allowedEmails := edit.allowedEmails.value) else a1;
    var a3 := if edit.dateRanges.Some? then a2.(dateRanges := edit.dateRanges.value) else a2;
    var a4 := if edit.note.Some? then a3.(note := edit.note.value) else a3;
    if edit.reason.Some? then a4.(reason := edit.reason.value) else a4
  }

  /** An edit with every field null changes nothing. */
  lemma EmptyEditIdentity(a: Access)
    ensures ApplyEdit(a, EditAccess(None, None, None, None, None)) == a
  {
  }

  /** Deleting keeps ids unique, removes the id and leaves every other lookup alone. */
  lemma {:induction false} FindAfterDelete(docs: seq<Access>, id: string, other: string)
    requires DistinctIds(docs)
    ensures DistinctIds(DeleteById(docs, id))
    ensures Find(DeleteById(docs, id), id) == None
    ensures other != id ==> Find(DeleteById(docs, id), other) == Find(docs, other)
  {
    if docs != [] {
      FindAfterDelete(docs[1..], id, other);
      var rest := DeleteById(docs[1..], id);
      if docs[0].id != id {
        var r := [docs[0]] + rest;
        assert r[1..] == rest;
        forall i, j | 0 <= i < j < |r| ensures r[i].id != r[j].id {
          if i == 0 {
            assert r[j] in rest && r[j] in docs[1..];
            var k :| 0 <= k < |docs[1..]| && docs[1..][k] == r[j];
            assert docs[k + 1] == r[j];
          } else {
            assert r[i] == rest[i - 1] && r[j] == rest[j - 1];
          }
        }
      }
    }
  }

  /** Replacing the record with id `id` by one with the same id keeps ids unique and changes only that lookup. */
  lemma {:induction false} FindAfterReplace(docs: seq<Access>, id: string, a: Access, other: string)
    requires DistinctIds(docs) && a.id == id && HasId(docs, id)
    ensures DistinctIds(ReplaceById(docs, id, a))
    ensures Find(ReplaceById(docs, id, a), id) == Some(a)
    ensures other != id ==> Find(ReplaceById(docs, id, a), other) == Find(docs, other)
  {
    var r := ReplaceById(docs, id, a);
    assert forall i :: 0 <= i < |docs| ==> r[i].id == docs[i].id;
    var k :| 0 <= k < |docs| && docs[k].id == id;
    FindFirst(r, k);
    assert r[k] == a;
    if other != id {
      FindSameIds(docs, r, other);
    }
  }

  /** With unique ids, the lookup of the id at index `k` is the document at `k`. */
  lemma {:induction false} FindFirst(docs: seq<Access>, k: nat)
    requires DistinctIds(docs) && k < |docs|
    ensures Find(docs, docs[k].id) == Some(docs[k])
  {
    if k > 0 {
      assert docs[1..][k - 1] == docs[k];
      FindFirst(docs[1..], k - 1);
    }
  }

  /** Lookups of an id whose documents are the same in two collections with the same ids agree. */
  lemma {:induction false} FindSameIds(docs: seq<Access>, r: seq<Access>, other: string)
    requires |r| == |docs|
    requires forall i :: 0 <= i < |docs| ==> r[i].id == docs[i].id
    requires forall i :: 0 <= i < |docs| && docs[i].id == other ==> r[i] == docs[i]
    ensures Find(r, other) == Find(docs, other)
  {
    if docs != [] {
      FindSameIds(docs[1..], r[1..], other);
    }
  }

  /** Appending a document with a new id keeps ids unique and makes it findable, leaving other lookups alone. */
  lemma {:induction false} FindAfterAppend(docs: seq<Access>, a: Access, other: string)
    requires DistinctIds(docs) && !HasId(docs, a.id)
    ensures DistinctIds(docs + [a])
    ensures Find(docs + [a], a.id) == Some(a)
    ensures other != a.id ==> Find(docs + [a], other) == Find(docs, other)
  {
    var r := docs + [a];
    forall i, j | 0 <= i < j < |r| ensures r[i].id != r[j].id {
      if j == |docs| {
        assert r[i] == docs[i];
      } else {
        assert r[i] == docs[i] && r[j] == docs[j];
      }
    }
    FindFirst(r, |docs|);
    if other != a.id && docs != [] {
      assert r[1..] == docs[1..] + [a];
      FindAfterAppendOther(docs, a, other);
    }
  }

  lemma {:induction false} FindAfterAppendOther(docs: seq<Access>, a: Access, other: string)
    requires other != a.id
    ensures Find(docs + [a], other) == Find(docs, other)
  {
    if docs != [] {
      assert (docs + [a])[1..] == docs[1..] + [a];
      FindAfterAppendOther(docs[1..], a, other);
    } else {
      assert ([] + [a])[1..] == [];
    }
  }

  // ---------------------------------------------------------------------------
  // The collection and its writing handlers

  class AccessStore {
    /** The `BackendAccess` documents in natural order. */
    var docs: seq<Access>

    ghost predicate Valid()
      reads this
    {
      DistinctIds(docs)
    }

    constructor (docs: seq<Access>)
      requires DistinctIds(docs)
      ensures Valid() && this.docs == docs
    {
      this.docs := docs;
    }

    /**
     * `createAccess`: a new record with the generated id, the caller as
     * creator and `now` as creation date, the rest from the payload.
     */
    method CreateAccess(user: User, payload: NewAccess, newId: string, now: int) returns (r: Reply<()>)
      requires Valid()
      modifies this
      ensures Valid()
      ensures !IsAllowed(user) ==> r == Forbidden && docs == old(docs)
      ensures IsAllowed(user) && HasId(old(docs), newId) ==> r == DuplicateKey && docs == old(docs)
      ensures IsAllowed(user) && !HasId(old(docs), newId) ==>
        && r == Ok(())
        && docs == old(docs) + [Access(newId, payload.locationId, user.id, now, payload.allowedEmails,
                                       payload.dateRanges, payload.note, payload.reason)]
    {
      if !IsAllowed(user) {
        return Forbidden;
      }
      var a := Access(newId, payload.locationId, user.id, now, payload.allowedEmails,
                      payload.dateRanges, payload.note, payload.reason);
      r := Insert(a);
    }

    /** `insertOne(doc, upsert = false)`. */
    method Insert(a: Access) returns (r: Reply<()>)
      requires Valid()
      modifies this
      ensures Valid()
      ensures HasId(old(docs), a.id) ==> r == DuplicateKey && docs == old(docs)
      ensures !HasId(old(docs), a.id) ==> r == Ok(()) && docs == old(docs) + [a]
    {
      if Find(docs, a.id).Some? {
        return DuplicateKey;
      }
      FindAfterAppend(docs, a, a.id);
      docs := docs + [a];
      r := Ok(());
    }

    /** `deleteAccess`: the creator or a moderator removes the record. */
    method DeleteAccess(user: User, id: string) returns (r: Reply<()>)
      requires Valid()
      modifies this
      ensures Valid()
      ensures !IsAllowed(user) ==> r == Forbidden && docs == old(docs)
      ensures IsAllowed(user) && !HasId(old(docs), id) ==> r == IllegalArgument && docs == old(docs)
      ensures IsAllowed(user) && HasId(old(docs), id) && !MayModify(user, Find(old(docs), id).value) ==>
        r == Forbidden && docs == old(docs)
      ensures IsAllowed(user) && HasId(old(docs), id) && MayModify(user, Find(old(docs), id).value) ==>
        r == Ok(()) && docs == DeleteById(old(docs), id)
    {
      if !IsAllowed(user) {
        return Forbidden;
      }
      var found := Find(docs, id);
      if found.None? {
        return IllegalArgument;
      }
      if !MayModify(user, found.value) {
        return Forbidden;
      }
      FindAfterDelete(docs, found.value.id, id);
      docs := DeleteById(docs, found.value.id);
      r := Ok(());
    }

    /**
     * `duplicateAccess`: a copy of the record under the generated id; every
     * other field, `createdBy` included, is the original's, and no ownership
     * check is made.
     */
    method DuplicateAccess(user: User, id: string, newId: string) returns (r: Reply<()>)
      requires Valid()
      modifies this
      ensures Valid()
      ensures !IsAllowed(user) ==> r == Forbidden && docs == old(docs)
      ensures IsAllowed(user) && !HasId(old(docs), id) ==> r == IllegalArgument && docs == old(docs)
      ensures IsAllowed(user) && HasId(old(docs), id) && HasId(old(docs), newId) ==>
        r == DuplicateKey && docs == old(docs)
      ensures IsAllowed(user) && HasId(old(docs), id) && !HasId(old(docs), newId) ==>
        r == Ok(()) && docs == old(docs) + [Find(old(docs), id).value.(id := newId)]
    {
      if !IsAllowed(user) {
        return Forbidden;
      }
      var found := Find(docs, id);
      if found.None? {
        return IllegalArgument;
      }
      var copy := found.value.(id := newId);
      r := Insert(copy);
    }

    /** `editAccess`: the creator or a moderator overwrites the non-null fields of the payload. */
    method EditAccess(user: User, id: string, edit: EditAccess) returns (r: Reply<()>)
      requires Valid()
      modifies this
      ensures Valid()
      ensures !IsAllowed(user) ==> r == Forbidden && docs == old(docs)
      ensures IsAllowed(user) && !HasId(old(docs), id) ==> r == IllegalArgument && docs == old(docs)
      ensures IsAllowed(user) && HasId(old(docs), id) && !MayModify(user, Find(old(docs), id).value) ==>
        r == Forbidden && docs == old(docs)
      ensures IsAllowed(user) && HasId(old(docs), id) && MayModify(user, Find(old(docs), id).value) ==>
        r == Ok(()) && docs == ReplaceById(old(docs), id, ApplyEdit(Find(old(docs), id).value, edit))
    {
      if !IsAllowed(user) {
        return Forbidden;
      }
      var found := Find(docs, id);
      if found.None? {
        return IllegalArgument;
      }
      if !MayModify(user, found.value) {
        return Forbidden;
      }
      var edited := ApplyEdit(found.value, edit);
      FindAfterReplace(docs, id, edited, id);
      docs := ReplaceById(docs, id, edited);
      r := Ok(());
    }
  }

  // ---------------------------------------------------------------------------
  // What the writes do to lookups

  /** After a duplication the copy is found under the new id and the original is still found under its own. */
  lemma DuplicateKeepsOriginal(docs: seq<Access>, id: string, newId: string)
    requires DistinctIds(docs) && HasId(docs, id) && !HasId(docs, newId)
    ensures var orig := Find(docs, id).value;
      var after := docs + [orig.(id := newId)];
      && DistinctIds(after)
      && Find(after, id) == Some(orig)
      && Find(after, newId) == Some(orig.(id := newId))
      && Find(after, newId).value.createdBy == orig.createdBy
  {
    var orig := Find(docs, id).value;
    FindAfterAppend(docs, orig.(id := newId), id);
  }

  /** After an edit the record keeps its id, creator and creation date, and no other record changes. */
  lemma EditKeepsIdentity(docs: seq<Access>, id: string, edit: EditAccess, other: string)
    requires DistinctIds(docs) && HasId(docs, id)
    ensures var orig := Find(docs, id).value;
      var after := ReplaceById(docs, id, ApplyEdit(orig, edit));
      && DistinctIds(after)
      && Find(after, id).Some?
      && Find(after, id).value.id == id
      && Find(after, id).value.createdBy == orig.createdBy
      && Find(after, id).value.createdDate == orig.createdDate
      && (other != id ==> Find(after, other) == Find(docs, other))
  {
    var orig := Find(docs, id).value;
    FindAfterReplace(docs, id, ApplyEdit(orig, edit), other);
  }
}
