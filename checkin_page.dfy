/**
 * The visitor check-in page (userFrontend.js) as an object over the
 * browser's local storage: loading the page, the one-second expiry tick,
 * submitting the check-in form, removing the current check-in and the sweep
 * of other locations' stale check-ins.  The DOM updates the callbacks make
 * are recorded as `Effect`s; the state the page changes is the storage and
 * the `justScanned` flag.
 */
module CheckinPage {
  import opened Options
  import opened Strings
  import opened Base64
  import opened Storage
  import opened CheckinRecord

  /** The `XMLHttpRequest` once `readyState` is 4; any status other than 200 counts as a network or server error. */
  datatype XhrResponse = XhrResponse(status: int, responseText: string)

  /** What a submission shows. */
  datatype SubmitOutcome =
    | InvalidEmail              // the input is highlighted and no request is sent
    | CheckedIn(email: string)  // the verification view with this email
    | AccessRestricted          // "forbidden_access_restricted"
    | EmailForbidden            // "forbidden_email"
    | NothingShown              // status 200 with any other body
    | NetworkError              // any status other than 200
    | EncodingFailed            // `btoa` threw after the "email" key was written

  /** The outcome of `onSubmit` for the typed text and the server's answer. */
  function SubmitOutcomeOf(rawEmail: string, response: XhrResponse): SubmitOutcome
  {
    var email := NormalizeEmail(rawEmail);
    if !IsAcceptedEmail(email) then InvalidEmail
    else if response.status == 200 then
      if response.responseText == "ok" then
        if IsLatin1(email) then CheckedIn(email) else EncodingFailed
      else if response.responseText == "forbidden_access_restricted" then AccessRestricted
      else if response.responseText == "forbidden_email" then EmailForbidden
      else NothingShown
    else NetworkError
  }

  /** The `setItem(key, value)` calls of `onSubmit`, in order. */
  function SubmitWrites(rawEmail: string, response: XhrResponse, now: nat, key: string,
                        locationName: string): seq<(string, string)>
  {
    var email := NormalizeEmail(rawEmail);
    if IsAcceptedEmail(email) && response.status == 200 && response.responseText == "ok" then
      [("email", email)]
      + match EncodeCheckin(email, now, locationName)
        case None => []
        case Some(entry) => [(key, entry)]
    else []
  }

  /** The storage contents after a sequence of `setItem` calls. */
  function ApplyWrites(items: map<string, string>, writes: seq<(string, string)>): map<string, string>
    decreases |writes|
  {
    if writes == [] then items else ApplyWrites(items[writes[0].0 := writes[0].1], writes[1..])
  }

  /** The key order after a sequence of `setItem` calls: each new key is appended, a known key stays where it is. */
  function ApplyWriteKeys(keys: seq<string>, items: map<string, string>, writes: seq<(string, string)>): seq<string>
    decreases |writes|
  {
    if writes == [] then keys
    else
      var k := writes[0].0;
      ApplyWriteKeys(if k in items then keys else keys + [k], items[k := writes[0].1], writes[1..])
  }

  /**
   * When the key list and the map hold the same keys, they still do after the
   * writes, and the old key list stays a prefix of the new one.
   */
  lemma {:induction false} WriteKeysMatchItems(keys: seq<string>, items: map<string, string>,
                                               writes: seq<(string, string)>)
    requires forall k :: k in items <==> k in keys
    ensures keys <= ApplyWriteKeys(keys, items, writes)
    ensures forall k :: k in ApplyWrites(items, writes) <==> k in ApplyWriteKeys(keys, items, writes)
    decreases |writes|
  {
    if writes != [] {
      var k := writes[0].0;
      var keys' := if k in items then keys else keys + [k];
      WriteKeysMatchItems(keys', items[k := writes[0].1], writes[1..]);
    }
  }

  /**
   * Storage is written only after the server accepted the check-in: a
   * successful check-in stores the email and a record that reads back as
   * that email and the submission time; a rejected email, an error or any
   * other answer leaves storage alone.
   */
  lemma SubmitWritesFollowOutcome(rawEmail: string, response: XhrResponse, now: nat, key: string, locationName: string)
    ensures var w := SubmitWrites(rawEmail, response, now, key, locationName);
      var o := SubmitOutcomeOf(rawEmail, response);
      && (w != [] <==> o.CheckedIn? || o == EncodingFailed)
      && (o == EncodingFailed ==> w == [("email", NormalizeEmail(rawEmail))])
      && (o.CheckedIn? ==>
            && |w| == 2 && w[0] == ("email", o.email) && w[1].0 == key
            && StoredEmail(w[1].1) == Some(o.email) && StoredMillis(w[1].1) == Some(now))
  {
    var email := NormalizeEmail(rawEmail);
    if IsAcceptedEmail(email) && response.status == 200 && response.responseText == "ok" && IsLatin1(email) {
      CheckinRecordRoundTrip(email, now, locationName);
    }
  }

  /**
   * A check-in made at `now` is shown again, with its email and time, by
   * any later `handleOldCheckin` with the full callback bag that runs before
   * `autoCheckoutMs` has passed.
   */
  lemma SubmittedCheckinShownOnReload(rawEmail: string, response: XhrResponse, now: nat, key: string,
                                      locationName: string, items: map<string, string>, later: int,
                                      autoCheckoutMs: int, justScanned: bool)
    requires SubmitOutcomeOf(rawEmail, response).CheckedIn?
    requires later - now < autoCheckoutMs
    ensures var stored := ApplyWrites(items, SubmitWrites(rawEmail, response, now, key, locationName));
      var email := SubmitOutcomeOf(rawEmail, response).email;
      && key in stored
      && DecideOldCheckin(Some(stored[key]), later, autoCheckoutMs, justScanned, LoadCallbacks)
         == Fired([ShowLastCheckin(now, email)])
  {
    var email := NormalizeEmail(rawEmail);
    assert IsLatin1(email);
    var entry := EncodeCheckin(email, now, locationName).value;
    SubmitStores(rawEmail, response, now, key, locationName, items);
    var stored := items["email" := email][key := entry];
    assert ApplyWrites(items, SubmitWrites(rawEmail, response, now, key, locationName)) == stored;
    assert stored[key] == entry;
    ActiveCheckinShown(email, now, locationName, later, autoCheckoutMs, justScanned, LoadCallbacks);
  }

  /** `onCheckinExpired` ran, and so the current check-in was removed. */
  predicate ExpiryFired(h: Handled)
  {
    h.Fired? && CheckinExpired in h.effects
  }

  /** The one-second tick never shows a check-in or offers the form: it can only expire one. */
  lemma TickOnlyExpires(lastCheckin: Option<string>, now: int, autoCheckoutMs: int, justScanned: bool)
    // The tick passes `onCheckinExpired`, so it only throws when `atob` does.
    requires lastCheckin.Some? && lastCheckin.value != "" ==> StoredEmail(lastCheckin.value).Some?
    ensures var h := DecideOldCheckin(lastCheckin, now, autoCheckoutMs, justScanned, TickCallbacks);
      && h.Fired?
      && (forall i :: 0 <= i < |h.effects| ==> h.effects[i] == CheckinExpired || h.effects[i] == HideForm)
      && (ExpiryFired(h) <==>
            if lastCheckin.Some? && lastCheckin.value != "" then
              !(StoredMillis(lastCheckin.value).Some? && now - StoredMillis(lastCheckin.value).value < autoCheckoutMs)
            else !justScanned)
  {
  }

  /** Two `setItem` calls in a row. */
  lemma ApplyTwoWrites(items: map<string, string>, a: (string, string), b: (string, string))
    ensures ApplyWrites(items, [a, b]) == items[a.0 := a.1][b.0 := b.1]
  {
    assert [a, b][1..] == [b];
    assert [b][1..] == [];
    assert ApplyWrites(items, [a, b]) == ApplyWrites(items[a.0 := a.1], [b]);
    assert ApplyWrites(items[a.0 := a.1], [b]) == ApplyWrites(items[a.0 := a.1][b.0 := b.1], []);
  }

  /** The storage after `onSubmit`, spelled out by cases. */
  lemma SubmitStores(rawEmail: string, response: XhrResponse, now: nat, key: string, locationName: string,
                     items: map<string, string>)
    ensures var email := NormalizeEmail(rawEmail);
      ApplyWrites(items, SubmitWrites(rawEmail, response, now, key, locationName))
      == if IsAcceptedEmail(email) && response.status == 200 && response.responseText == "ok" then
           match EncodeCheckin(email, now, locationName)
           case None => items["email" := email]
           case Some(entry) => items["email" := email][key := entry]
         else items
  {
    var email := NormalizeEmail(rawEmail);
    if IsAcceptedEmail(email) && response.status == 200 && response.responseText == "ok" {
      match EncodeCheckin(email, now, locationName)
      case None =>
        assert [("email", email)][1..] == [];
      case Some(entry) =>
        ApplyTwoWrites(items, ("email", email), (key, entry));
    }
  }

  /** The key order after `onSubmit`, spelled out by cases: "email" first, then the check-in key, each only when new. */
  lemma SubmitKeys(rawEmail: string, response: XhrResponse, now: nat, key: string, locationName: string,
                   keys: seq<string>, items: map<string, string>)
    ensures var email := NormalizeEmail(rawEmail);
      var afterEmail := if "email" in items then keys else keys + ["email"];
      ApplyWriteKeys(keys, items, SubmitWrites(rawEmail, response, now, key, locationName))
      == if IsAcceptedEmail(email) && response.status == 200 && response.responseText == "ok" then
           match EncodeCheckin(email, now, locationName)
           case None => afterEmail
           case Some(entry) => if key in items["email" := email] then afterEmail else afterEmail + [key]
         else keys
  {
    var email := NormalizeEmail(rawEmail);
    if IsAcceptedEmail(email) && response.status == 200 && response.responseText == "ok" {
      match EncodeCheckin(email, now, locationName)
      case None =>
        assert [("email", email)][1..] == [];
      case Some(entry) =>
        var w := [("email", email), (key, entry)];
        assert SubmitWrites(rawEmail, response, now, key, locationName) == w;
        var afterEmail := if "email" in items then keys else keys + ["email"];
        var items1 := items["email" := email];
        assert w[1..] == [(key, entry)];
        assert ApplyWriteKeys(keys, items, w) == ApplyWriteKeys(afterEmail, items1, [(key, entry)]);
        assert [(key, entry)][1..] == [];
        assert ApplyWriteKeys(afterEmail, items1, [(key, entry)])
               == if key in items1 then afterEmail else afterEmail + [key];
    }
  }

  /** The corrected sweep's reference result grows by one key at a time. */
  lemma SweepAllStep(keys0: seq<string>, j: nat, items: map<string, string>, currentKey: string,
                     now: int, parseDate: string -> Option<int>)
    requires j < |keys0|
    ensures SweepAll(keys0[..j + 1], items, currentKey, now, parseDate)
            == if keys0[j] in items && SweepRemoves(keys0[j], items[keys0[j]], currentKey, now, parseDate)
               then SweepAll(keys0[..j], items, currentKey, now, parseDate)
               else SweepAll(keys0[..j], items, currentKey, now, parseDate) + [keys0[j]]
  {
    assert keys0[..j + 1][..j] == keys0[..j];
  }

  /**
   * One step of the corrected sweep on the key order: with a swept prefix
   * `done` followed by the unvisited keys, the cursor `|done|` is at the
   * first unvisited key, and removing it leaves the prefix followed by the
   * remaining unvisited keys.
   */
  lemma CursorStep(done: seq<string>, rest: seq<string>)
    requires |rest| > 0 && DistinctKeys(done + rest)
    ensures (done + rest)[|done|] == rest[0]
    ensures RemoveKey(done + rest, rest[0]) == done + rest[1..]
    ensures done + rest == (done + [rest[0]]) + rest[1..]
  {
    var keys := done + rest;
    RemoveKeyAt(keys, |done|);
    assert keys[..|done|] == done;
    assert keys[|done| + 1..] == rest[1..];
  }

  class Page {
    /** `window.localStorage`. */
    const storage: LocalStorage
    /** The `l` query parameter; `None` when it is missing. */
    const fullLocationId: Option<string>
    /** The `auto-checkout-ms` meta tag, as the number the comparison converts it to. */
    const autoCheckoutMs: int
    /** The `location-name` meta tag. */
    const locationName: string
    /** The page was opened from the QR code (the query had "s=1"). */
    var justScanned: bool
    /** `onLoad` reached `setInterval`, so `Tick` runs every second. */
    var ticking: bool

    ghost predicate Valid()
      reads this, storage
    {
      storage.Valid()
    }

    constructor (storage: LocalStorage, fullLocationId: Option<string>, autoCheckoutMs: int, locationName: string)
      requires storage.Valid()
      ensures Valid()
      ensures this.storage == storage && this.fullLocationId == fullLocationId
      ensures this.autoCheckoutMs == autoCheckoutMs && this.locationName == locationName
      ensures !justScanned && !ticking
    {
      this.storage := storage;
      this.fullLocationId := fullLocationId;
      this.autoCheckoutMs := autoCheckoutMs;
      this.locationName := locationName;
      justScanned := false;
      ticking := false;
    }

    /** The storage key of this location's check-in. */
    function CurrentKey(): string
    {
      CheckinKey(fullLocationId)
    }

    /** `removeCurrentCheckin`: drops this location's check-in and nothing else. */
    method RemoveCurrentCheckin()
      requires Valid()
      modifies storage
      ensures Valid()
      ensures storage.items == old(storage.items) - {CurrentKey()}
      ensures storage.keys == RemoveKey(old(storage.keys), CurrentKey())
    {
      storage.RemoveItem(CurrentKey());
    }

    /**
     * `handleOldCheckin(cb)`: decides on the stored check-in and carries out
     * the callbacks; `onCheckinExpired` is `removeCurrentCheckin`, the other
     * callbacks only touch the page.
     */
    method HandleOldCheckin(now: int, cb: Callbacks) returns (h: Handled)
      requires Valid()
      modifies storage
      ensures Valid()
      ensures h == DecideOldCheckin(old(storage.GetItem(CurrentKey())), now, autoCheckoutMs, justScanned, cb)
      ensures storage.items == if ExpiryFired(h) then old(storage.items) - {CurrentKey()} else old(storage.items)
      ensures storage.keys == if ExpiryFired(h) then RemoveKey(old(storage.keys), CurrentKey()) else old(storage.keys)
    {
      h := DecideOldCheckin(storage.GetItem(CurrentKey()), now, autoCheckoutMs, justScanned, cb);
      if ExpiryFired(h) {
        RemoveCurrentCheckin();
      }
    }

    /** The interval's `handleOldCheckin({onCheckinExpired: removeCurrentCheckin})`. */
    method Tick(now: int) returns (h: Handled)
      requires Valid()
      modifies storage
      ensures Valid()
      ensures h == DecideOldCheckin(old(storage.GetItem(CurrentKey())), now, autoCheckoutMs, justScanned, TickCallbacks)
      ensures h.Fired? ==> forall e :: e in h.effects ==> e == CheckinExpired || e == HideForm
      ensures storage.items == if ExpiryFired(h) then old(storage.items) - {CurrentKey()} else old(storage.items)
      ensures storage.keys == if ExpiryFired(h) then RemoveKey(old(storage.keys), CurrentKey()) else old(storage.keys)
    {
      h := HandleOldCheckin(now, TickCallbacks);
    }

    /**
     * `deleteExpiredCheckins` as written: an index loop over `key(i)` that
     * removes stale check-ins of other locations while advancing `i` past
     * the key that moved into the removed one's place.
     */
    method DeleteExpiredCheckins(now: int, parseDate: string -> Option<int>)
      requires Valid()
      modifies storage
      ensures Valid()
      ensures storage.keys == SweepFrom(old(storage.keys), 0, old(storage.items), CurrentKey(), now, parseDate)
      ensures forall k :: k in storage.items ==> k in old(storage.items) && storage.items[k] == old(storage.items)[k]
    {
      ghost var keys0 := storage.keys;
      ghost var items0 := storage.items;
      var i := 0;
      while i < storage.Length()
        invariant storage.Valid()
        invariant i <= |storage.keys| + 1
        invariant SweepFrom(storage.keys, i, items0, CurrentKey(), now, parseDate)
                  == SweepFrom(keys0, 0, items0, CurrentKey(), now, parseDate)
        invariant forall k :: k in storage.items ==> k in items0 && storage.items[k] == items0[k]
        decreases |storage.keys| + 1 - i
      {
        var key := storage.keys[i];
        var value := storage.GetItem(key).value;
        if SweepRemoves(key, value, CurrentKey(), now, parseDate) {
          RemoveKeyAt(storage.keys, i);
          storage.RemoveItem(key);
        }
        i := i + 1;
      }
    }

    /**
     * The sweep as evidently intended: the index advances only past a key
     * that stays, so every key is examined once and every stale check-in of
     * another location is removed.
     */
    method DeleteExpiredCheckinsIntended(now: int, parseDate: string -> Option<int>)
      requires Valid()
      modifies storage
      ensures Valid()
      ensures storage.keys == SweepAll(old(storage.keys), old(storage.items), CurrentKey(), now, parseDate)
      ensures forall k :: k in storage.items ==> k in old(storage.items) && storage.items[k] == old(storage.items)[k]
    {
      ghost var keys0 := storage.keys;
      ghost var items0 := storage.items;
      ghost var j := 0;
      ghost var done: seq<string> := [];
      assert keys0[..0] == [] && keys0[0..] == keys0;
      var i := 0;
      while i < storage.Length()
        invariant storage.Valid()
        invariant 0 <= j <= |keys0|
        invariant done == SweepAll(keys0[..j], items0, CurrentKey(), now, parseDate)
        invariant storage.keys == done + keys0[j..]
        invariant i == |done|
        invariant forall k :: k in storage.items ==> k in items0 && storage.items[k] == items0[k]
        decreases |storage.keys| - i
      {
        ghost var rest := keys0[j..];
        assert rest[1..] == keys0[j + 1..];
        SweepAllStep(keys0, j, items0, CurrentKey(), now, parseDate);
        CursorStep(done, rest);
        var key := storage.keys[i];
        var value := storage.GetItem(key).value;
        if SweepRemoves(key, value, CurrentKey(), now, parseDate) {
          storage.RemoveItem(key);
        } else {
          i := i + 1;
          done := done + [key];
        }
        j := j + 1;
      }
      assert |keys0[j..]| == 0;
      assert keys0[..j] == keys0;
    }

    /**
     * `onLoad`: a query containing "s=1" marks a fresh scan; then the stored
     * check-in is handled with the full callback bag; unless that threw, the
     * tick is started and the sweep runs.
     */
    method OnLoad(search: string, now: int, parseDate: string -> Option<int>) returns (h: Handled)
      requires Valid()
      modifies this, storage
      ensures Valid()
      ensures justScanned == (old(justScanned) || Contains(search, "s=1"))
      ensures h == DecideOldCheckin(old(storage.GetItem(CurrentKey())), now, autoCheckoutMs, justScanned, LoadCallbacks)
      ensures ticking == (old(ticking) || h.Fired?)
      ensures h == Threw ==> storage.keys == old(storage.keys) && storage.items == old(storage.items)
      ensures h.Fired? ==>
        var keys1 := if ExpiryFired(h) then RemoveKey(old(storage.keys), CurrentKey()) else old(storage.keys);
        var items1 := if ExpiryFired(h) then old(storage.items) - {CurrentKey()} else old(storage.items);
        && storage.keys == SweepFrom(keys1, 0, items1, CurrentKey(), now, parseDate)
        && forall k :: k in storage.items ==> k in items1 && storage.items[k] == items1[k]
    {
      if Contains(search, "s=1") {
        justScanned := true;
      }
      h := HandleOldCheckin(now, LoadCallbacks);
      if h == Threw {
        return;
      }
      ticking := true;
      DeleteExpiredCheckins(now, parseDate);
    }

    /**
     * `onSubmit` with the server's answer: an accepted check-in stores the
     * email and the record `btoa(email)::now::name`, where a multi-seat
     * location id adds the seat to the name.  The form only exists when the
     * location id is present (formSetup), so the id is required here.
     */
    method Submit(rawEmail: string, response: XhrResponse, now: nat) returns (outcome: SubmitOutcome)
      requires Valid()
      requires fullLocationId.Some? && fullLocationId.value != ""
      modifies storage
      ensures Valid()
      ensures outcome == SubmitOutcomeOf(rawEmail, response)
      ensures storage.items == ApplyWrites(old(storage.items),
        SubmitWrites(rawEmail, response, now, CurrentKey(), CheckinLocationName(locationName, fullLocationId.value)))
      ensures storage.keys == ApplyWriteKeys(old(storage.keys), old(storage.items),
        SubmitWrites(rawEmail, response, now, CurrentKey(), CheckinLocationName(locationName, fullLocationId.value)))
      ensures old(storage.keys) <= storage.keys
    {
      var email := NormalizeEmail(rawEmail);
      SubmitStores(rawEmail, response, now, CurrentKey(), CheckinLocationName(locationName, fullLocationId.value), storage.items);
      SubmitKeys(rawEmail, response, now, CurrentKey(), CheckinLocationName(locationName, fullLocationId.value),
                 storage.keys, storage.items);
      if !IsAcceptedEmail(email) {
        return InvalidEmail;
      }
      if response.status == 200 {
        if response.responseText == "ok" {
          var name := CheckinLocationName(locationName, fullLocationId.value);
          SubmitStores(rawEmail, response, now, CurrentKey(), name, storage.items);
          SubmitKeys(rawEmail, response, now, CurrentKey(), name, storage.keys, storage.items);
          storage.SetItem("email", email);
          var entry := EncodeCheckin(email, now, name);
          if entry.None? {
            return EncodingFailed;
          }
          storage.SetItem(CurrentKey(), entry.value);
          outcome := CheckedIn(email);
        } else if response.responseText == "forbidden_access_restricted" {
          outcome := AccessRestricted;
        } else if response.responseText == "forbidden_email" {
          outcome := EmailForbidden;
        } else {
          outcome := NothingShown;
        }
      } else {
        outcome := NetworkError;
      }
    }
  }
}
