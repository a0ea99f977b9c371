# Campus QR check-in and access management, modelled in Dafny

This project models three pieces of the Campus QR location check-in application.

- **The visitor check-in page** (`userFrontend.js`). A visitor scans a location's QR code and submits an email. On success the page stores the check-in in the browser's local storage as `btoa(email)::millis::locationName` under the key `checkin-<location id>`. On every load, and then once a second, the page decides whether the stored check-in is still active (shown), expired (removed, and the form offered again) or missing. On load it also sweeps out check-ins of other locations that are older than a day. The language switch rewrites the URL so that it ends in `&s=1`.
- **Access management** (`AccessManagement.kt`). These are the server endpoints that list, export, get, create, delete, duplicate and edit access records. An access record is a set of allowed emails with a list of date ranges for one location. The endpoints check the caller's role and, for edit and delete, the ownership of the record. The export flattens records into (date range, email) permits. It keeps only the ranges that end after `now` and sorts the permits by `from`, then `to`.
- **Initial database setup** (`InitialSetup.kt`). At start-up the server inserts configuration defaults, but never overwrites an existing value. It creates a root user on an empty user collection under the built-in authentication. `getConfigs` is the language-specific view of the string-valued configuration.

Modules and files:

- `options.dfy` holds `Options`, the optional value. It stands for JavaScript's `null`/`undefined`/`NaN` and Kotlin's nullable types.
- `strings.dfy` holds `Strings`, the runtime string operations the code calls. These are `indexOf`/`includes`, `replace` with a string pattern (first occurrence only), `split`, `startsWith`, Kotlin's `substringBefore`, `String(n)` and `parseInt`.
- `base64.dfy` holds `Base64`: `btoa` and the forgiving `atob` decoder, with base64 as in section 4 of RFC 4648, and their round trip.
- `local_storage.dfy` holds `Storage`, the class `LocalStorage`: a string map plus the key order that `key(i)` enumerates.
- `checkin_record.dfy` holds `CheckinRecord`, the pure logic of the page: `pad`, the email pre-check, the record format, the `handleOldCheckin` decision, the sweep's specification and the URL rewrite.
- `checkin_page.dfy` holds `CheckinPage`, the class `Page` with the page's handlers over a `LocalStorage`.
- `access_records.dfy` holds `AccessRecords`: records, callers, roles, visibility and lookup by id.
- `permit_export.dfy` holds `PermitExport`, the permit pipeline and its stable sorts.
- `access_management.dfy` holds `AccessManagement`: the read-only endpoints as functions, and the class `AccessStore` whose methods are the writing endpoints.
- `initial_setup.dfy` holds `InitialSetup`: the defaults table, insert-if-absent, the root user and `getConfigs`.

Several inputs come from outside the code and are parameters of the model:

- the clock (`Date.now()`, `new Date()`, `Date()`);
- the server's answer to a check-in;
- the browser's date parser (`new Date(string)`, an engine-defined function `string -> Option<int>`);
- `randomId()`, passed as the new id;
- the set of location ids that resolve;
- the start-up secrets and the root password hash.

Four behaviours of the code the model keeps as written:

- `allowedEmails` is a list, so duplicate emails give duplicate permits.
- A `btoa` failure after an accepted check-in leaves the `email` key written.
- An empty stored record counts as no record (`if (lastCheckin)`).
- A missing `l` parameter gives the storage key `checkin-null`.

## Model

| member | source | states |
|---|---|---|
| CheckinRecord.Pad | server/src/main/resources/userFrontend/userFrontend.js:1-3 | `pad` yields a tail of "000" + num, never more than those characters |
| CheckinRecord.PadLength | server/src/main/resources/userFrontend/userFrontend.js:1-3 | for 1 ≤ size ≤ 3 + the number's length, `pad` yields exactly `size` characters, the tail of "000" + num |
| CheckinRecord.PadKeepsValue | server/src/main/resources/userFrontend/userFrontend.js:1-3 | padding a non-negative number to at least its own width gives only digits, denoting the same number |
| CheckinRecord.NormalizeRemovesFirstSpace | server/src/main/resources/userFrontend/userFrontend.js:47 | the normalised email is the input with its first space removed and nothing else; without a space it is the input |
| CheckinRecord.EmailSecondSpaceKept | server/src/main/resources/userFrontend/userFrontend.js:47 | "a b@c.d e" normalises to "ab@c.d e": a second space stays |
| CheckinRecord.AcceptedEmailIff | server/src/main/resources/userFrontend/userFrontend.js:48 | the pre-check accepts exactly the strings of at least 5 UTF-16 code units (JavaScript `length`) that contain '@' and '.' |
| CheckinRecord.AstralEmailAccepted | server/src/main/resources/userFrontend/userFrontend.js:48 | an address of four characters, one of them above U+FFFF, is five code units long and passes the pre-check |
| CheckinRecord.SpacelessEmailAccepted | server/src/main/resources/userFrontend/userFrontend.js:47-48 | a space-free address of at least 5 characters with '@' and '.' passes the pre-check unchanged |
| Strings.Utf16LengthBmp | server/src/main/resources/userFrontend/userFrontend.js:48 | without characters above U+FFFF, `length` is the number of characters |
| CheckinRecord.EmailExamples | server/src/main/resources/userFrontend/userFrontend.js:48-50 | "a@b" is refused and "ab@cd.ef" accepted |
| Base64.Btoa | server/src/main/resources/userFrontend/userFrontend.js:76 | `btoa` succeeds exactly on strings whose characters are all at most U+00FF |
| Base64.EncodeUnpadded | server/src/main/resources/userFrontend/userFrontend.js:76 | the encoding uses only the base64 alphabet and has a length `atob` can decode (never 1 more than a multiple of 4) |
| Base64.EncodeUnpaddedLength | server/src/main/resources/userFrontend/userFrontend.js:76 | the encoding's last group holds 0, 2 or 3 characters for 0, 1 or 2 leftover bytes |
| Base64.DecodeEncodeUnpadded | server/src/main/resources/userFrontend/userFrontend.js:163 | decoding the unpadded alphabet characters of a Latin-1 string gives the string back |
| Base64.BtoaAlphabet | server/src/main/resources/userFrontend/userFrontend.js:76 | `btoa` output holds only alphabet characters and '=', so never ':' |
| Base64.BtoaLength | server/src/main/resources/userFrontend/userFrontend.js:76 | `btoa` output length is a multiple of 4 |
| Base64.Atob | server/src/main/resources/userFrontend/userFrontend.js:163 | whatever `atob` decodes is a byte string |
| Base64.AtobBtoa | server/src/main/resources/userFrontend/userFrontend.js:163 | `atob(btoa(s)) == s` for every Latin-1 string |
| Strings.ParseIntOfDecimal | server/src/main/resources/userFrontend/userFrontend.js:164 | `parseInt` reads back the decimal digits of every non-negative integer, which is `String(n)` for every safe integer and so for every `Date.now()` value; above 2^53 JavaScript's double result rounds, which the model does not |
| Strings.DecimalRoundTrip | server/src/main/resources/userFrontend/userFrontend.js:76 | the digits `toString()` writes denote the number |
| CheckinRecord.EncodeCheckin | server/src/main/resources/userFrontend/userFrontend.js:76 | a record can be written exactly when the email is Latin-1 |
| CheckinRecord.CheckinRecordRoundTrip | server/src/main/resources/userFrontend/userFrontend.js:163-164 | reading a written record back with split/atob/parseInt gives the email and the millis it was written with |
| CheckinRecord.DecideOldCheckin | server/src/main/resources/userFrontend/userFrontend.js:154-182 | `handleOldCheckin` throws exactly when a non-empty record has an undecodable email, or when there is no record, no fresh scan and no expiry callback; a callback that was not passed never fires |
| CheckinRecord.ActiveCheckinShown | server/src/main/resources/userFrontend/userFrontend.js:162-167 | a record younger than autoCheckoutMs fires only the show-last callback, with the stored time and email |
| CheckinRecord.ExpiredCheckinDropped | server/src/main/resources/userFrontend/userFrontend.js:168-172 | when elapsed time ≥ autoCheckoutMs (equality included) the expiry callback fires, then the new-check-in callback, each when passed |
| CheckinRecord.NoStoredCheckin | server/src/main/resources/userFrontend/userFrontend.js:173-181 | without a record: after a scan only the new-check-in callback fires; otherwise expiry then hide-form, or an exception when no expiry callback was passed |
| CheckinRecord.ShownIffFresh | server/src/main/resources/userFrontend/userFrontend.js:161-172 | on load, a decodable record is shown iff its time parses and is younger than autoCheckoutMs, and it expires iff it is not shown |
| CheckinRecord.SweepFrom | server/src/main/resources/userFrontend/userFrontend.js:191-203 | the sweep loop as written from index `i`: it never lengthens the key list and never touches the keys before index `i` |
| CheckinRecord.SweepOnlyRemovesStale | server/src/main/resources/userFrontend/userFrontend.js:191-203 | the sweep as written only removes keys: each removed key starts with "checkin-", is not the current key, and has a parsed time more than a day old |
| CheckinRecord.SweepAll | server/src/main/resources/userFrontend/userFrontend.js:190-203 | the intended sweep keeps exactly the keys that are not stale check-ins of other locations |
| CheckinRecord.SweepSkipsKeyAfterRemoval | server/src/main/resources/userFrontend/userFrontend.js:192-200 | two adjacent stale check-ins: the loop as written removes the first and keeps the second |
| CheckinRecord.ChangeLanguageUrl | server/src/main/resources/userFrontend/userFrontend.js:209 | the rewritten URL ends in "&s=1" |
| CheckinRecord.ChangeLanguageUrlEnds | server/src/main/resources/userFrontend/userFrontend.js:209 | the rewritten URL always ends in "&s=1"; a URL without the marker just gets it appended |
| CheckinRecord.ChangeLanguageUrlIdempotent | server/src/main/resources/userFrontend/userFrontend.js:209 | rewriting twice equals rewriting once when removing the first marker leaves no marker |
| CheckinRecord.ChangeLanguageUrlSingleMarkerCounterexample | server/src/main/resources/userFrontend/userFrontend.js:209 | "&s&s=1=1z" has one marker, yet a second rewrite changes the URL |
| Storage.LocalStorage.SetItem | server/src/main/resources/userFrontend/userFrontend.js:75-76 | `setItem` maps the key to the value, changes no other key, and appends a new key to the order |
| Storage.LocalStorage.RemoveItem | server/src/main/resources/userFrontend/userFrontend.js:185 | `removeItem` drops exactly that key and keeps the order of the others |
| Storage.RemoveKeyAt | server/src/main/resources/userFrontend/userFrontend.js:199 | removing the key at index i shifts every later key down by one |
| CheckinPage.SubmitWritesFollowOutcome | server/src/main/resources/userFrontend/userFrontend.js:67-88 | storage is written only for status 200 with "ok"; a check-in writes "email" and a record that reads back as the email and `now`; every other answer writes nothing |
| CheckinPage.SubmittedCheckinShownOnReload | server/src/main/resources/userFrontend/userFrontend.js:74-76 | after a successful submission, a load within autoCheckoutMs shows exactly that check-in |
| CheckinPage.TickOnlyExpires | server/src/main/resources/userFrontend/userFrontend.js:33 | the interval tick never shows a check-in or the form; it expires the check-in iff the record is stale, or is missing and the page was not just scanned |
| CheckinPage.Page.RemoveCurrentCheckin | server/src/main/resources/userFrontend/userFrontend.js:184-188 | removes the key "checkin-" + fullLocationId and no other key |
| CheckinPage.Page.HandleOldCheckin | server/src/main/resources/userFrontend/userFrontend.js:154-182 | the callbacks fired are the decision on the stored record; the current key is removed iff the expiry callback fired, otherwise storage is unchanged |
| CheckinPage.Page.Tick | server/src/main/resources/userFrontend/userFrontend.js:33 | the interval's handling with only the expiry callback; it only expires or hides |
| CheckinPage.Page.DeleteExpiredCheckins | server/src/main/resources/userFrontend/userFrontend.js:191-203 | the index loop as written leaves exactly the keys of the skipping sweep, and surviving values unchanged |
| CheckinPage.Page.DeleteExpiredCheckinsIntended | server/src/main/resources/userFrontend/userFrontend.js:191-203 | the corrected loop leaves exactly the keys of the intended sweep, in order, with values unchanged |
| CheckinPage.Page.OnLoad | server/src/main/resources/userFrontend/userFrontend.js:12-36 | "s=1" in the query sets justScanned; the stored check-in is handled with all callbacks; unless that throws, the tick starts and the sweep runs on the resulting storage |
| CheckinPage.Page.Submit | server/src/main/resources/userFrontend/userFrontend.js:38-95 | the outcome is the pre-check and then the answer; storage becomes the writes of that outcome; the key list becomes the old keys followed by "email" and then the check-in key, each appended only when it was not stored before (`ApplyWriteKeys`) |
| CheckinPage.WriteKeysMatchItems | server/src/main/resources/userFrontend/userFrontend.js:75-76 | replaying writes on the key list keeps the old keys as a prefix and keeps the key list and the stored items naming the same keys |
| CheckinPage.SubmitKeys | server/src/main/resources/userFrontend/userFrontend.js:75-76 | the keys a submission appends are "email" if new, then the check-in key if new, in that order; nothing is appended when the answer writes nothing |
| AccessRecords.Filter | src/serverMain/kotlin/com/studo/campusqr/endpoints/AccessManagement.kt:45-55 | a collection query keeps exactly the matching documents, each as often as stored, in collection order (a subsequence of the collection) |
| AccessRecords.Find | src/serverMain/kotlin/com/studo/campusqr/endpoints/AccessManagement.kt:16-18 | the lookup returns a document with that id, and none exactly when no document has it |
| AccessManagement.ListAccess | src/serverMain/kotlin/com/studo/campusqr/endpoints/AccessManagement.kt:38-67 | forbidden iff the caller is neither moderator nor access manager; for an allowed caller the listing succeeds iff every visible record's location resolves (and, for a non-moderator naming a location, is that location), and then holds exactly the visible records in collection order |
| AccessManagement.ListAccessOtherLocationFails | src/serverMain/kotlin/com/studo/campusqr/endpoints/AccessManagement.kt:58-59 | a non-moderator naming a location, who owns a record at another location, makes the listing fail at `getValue` |
| AccessManagement.ListAccessResolves | src/serverMain/kotlin/com/studo/campusqr/endpoints/AccessManagement.kt:47-59 | with all locations resolvable the listing succeeds; a moderator naming a location gets exactly that location's records |
| AccessManagement.ListExportAccess | src/serverMain/kotlin/com/studo/campusqr/endpoints/AccessManagement.kt:69-117 | forbidden iff not allowed; otherwise the permits are ordered by from, then to, and none has ended |
| AccessManagement.ListExportAccessMembers | src/serverMain/kotlin/com/studo/campusqr/endpoints/AccessManagement.kt:77-107 | a permit is exported iff a visible record has its range, ending after now, and its email |
| AccessManagement.GetAccess | src/serverMain/kotlin/com/studo/campusqr/endpoints/AccessManagement.kt:119-130 | forbidden iff not allowed; IllegalArgument iff the id is unknown; otherwise Ok with the record `find` returns exactly when its location resolves, and NoSuchElement when it does not |
| AccessManagement.ApplyEdit | src/serverMain/kotlin/com/studo/campusqr/endpoints/AccessManagement.kt:209-226 | each field becomes the payload's value when non-null and stays otherwise; id, creator and creation date never change |
| AccessManagement.EmptyEditIdentity | src/serverMain/kotlin/com/studo/campusqr/endpoints/AccessManagement.kt:209-226 | an all-null edit changes nothing |
| AccessManagement.FindAfterDelete | src/serverMain/kotlin/com/studo/campusqr/endpoints/AccessManagement.kt:171 | after `deleteOne` the id is gone, other lookups are unchanged and ids stay unique |
| AccessManagement.FindAfterReplace | src/serverMain/kotlin/com/studo/campusqr/endpoints/AccessManagement.kt:209 | after `updateOne` the id finds the new document, other lookups are unchanged and ids stay unique |
| AccessManagement.FindAfterAppend | src/serverMain/kotlin/com/studo/campusqr/endpoints/AccessManagement.kt:151 | after inserting a new id it is found, other lookups are unchanged and ids stay unique |
| AccessManagement.AccessStore.Insert | src/serverMain/kotlin/com/studo/campusqr/endpoints/AccessManagement.kt:151 | `insertOne(upsert = false)` appends a document with a new id and fails with a duplicate key otherwise, changing nothing |
| AccessManagement.AccessStore.CreateAccess | src/serverMain/kotlin/com/studo/campusqr/endpoints/AccessManagement.kt:132-155 | forbidden and no change unless allowed; otherwise a record with the new id, the caller as creator, now and the payload's fields is appended |
| AccessManagement.AccessStore.DeleteAccess | src/serverMain/kotlin/com/studo/campusqr/endpoints/AccessManagement.kt:157-175 | forbidden, unknown id, or a caller who is neither creator nor moderator change nothing; otherwise exactly that record is removed |
| AccessManagement.AccessStore.DuplicateAccess | src/serverMain/kotlin/com/studo/campusqr/endpoints/AccessManagement.kt:177-192 | with no ownership check, a copy with the new id and every other field (creator included) of the original is appended |
| AccessManagement.AccessStore.EditAccess | src/serverMain/kotlin/com/studo/campusqr/endpoints/AccessManagement.kt:194-231 | forbidden, unknown id, or a non-owner non-moderator change nothing; otherwise that record becomes the edited one and no other changes |
| AccessManagement.DuplicateKeepsOriginal | src/serverMain/kotlin/com/studo/campusqr/endpoints/AccessManagement.kt:184-189 | after a duplication the original is still found under its id and the copy under the new id with the same creator |
| AccessManagement.EditKeepsIdentity | src/serverMain/kotlin/com/studo/campusqr/endpoints/AccessManagement.kt:208-227 | after an edit the record keeps id, creator and creation date, and every other lookup is unchanged |
| PermitExport.LiveRanges | src/serverMain/kotlin/com/studo/campusqr/endpoints/AccessManagement.kt:101 | a range is kept iff it ends after `now`, and each kept range as often as it occurs |
| PermitExport.SortBy | src/serverMain/kotlin/com/studo/campusqr/endpoints/AccessManagement.kt:108-109 | the result is a sorted permutation, and elements with equal keys keep their input order (stability) |
| PermitExport.RangePermitsLength | src/serverMain/kotlin/com/studo/campusqr/endpoints/AccessManagement.kt:100-106 | a record yields ranges × emails permits |
| PermitExport.ExportPermits | src/serverMain/kotlin/com/studo/campusqr/endpoints/AccessManagement.kt:98-109 | the export is a permutation of the flattened permits, sorted by `from` |
| PermitExport.ExportPermitCount | src/serverMain/kotlin/com/studo/campusqr/endpoints/AccessManagement.kt:98-109 | the export has one permit per live range and listed email of each record, duplicates included, and is a permutation of the flattened list |
| PermitExport.FlattenMembers | src/serverMain/kotlin/com/studo/campusqr/endpoints/AccessManagement.kt:98-107 | a permit is flattened iff some record has its range, ending after now, and its email |
| PermitExport.ExportMembers | src/serverMain/kotlin/com/studo/campusqr/endpoints/AccessManagement.kt:98-109 | the same membership holds after sorting |
| PermitExport.ExportedPermitsLive | src/serverMain/kotlin/com/studo/campusqr/endpoints/AccessManagement.kt:101 | no exported permit comes from a range with `to ≤ now` |
| PermitExport.SortByFromLex | src/serverMain/kotlin/com/studo/campusqr/endpoints/AccessManagement.kt:109 | a stable sort by `from` of a list sorted by `to` is ordered by `from`, then `to` |
| PermitExport.ExportOrdered | src/serverMain/kotlin/com/studo/campusqr/endpoints/AccessManagement.kt:108-109 | the export is ordered by `from` ascending and by `to` ascending among equal `from` |
| PermitExport.LiveRangeQueryRedundant | src/serverMain/kotlin/com/studo/campusqr/endpoints/AccessManagement.kt:80-91 | the query's "some range ends after now" condition does not change the permits |
| PermitExport.ExportExample | src/serverMain/kotlin/com/studo/campusqr/endpoints/AccessManagement.kt:98-109 | ranges {1,5},{10,20}, emails a,b, now 8: exactly the two permits of {10,20} |
| PermitExport.ExportOrderExample | src/serverMain/kotlin/com/studo/campusqr/endpoints/AccessManagement.kt:108-109 | the {2,30} permit comes before the {5,9} permit |
| InitialSetup.InsertIfAbsent | server/src/main/kotlin/com/studo/campusqr/database/InitialSetup.kt:18-28 | an insert adds the document only when its id is not taken, and otherwise changes nothing |
| InitialSetup.ApplyDefaultsKeepsExisting | server/src/main/kotlin/com/studo/campusqr/database/InitialSetup.kt:30-99 | the setup only appends: the old documents stay in place, ids stay unique, and every default id is present afterwards |
| InitialSetup.ExistingValueKept | server/src/main/kotlin/com/studo/campusqr/database/InitialSetup.kt:18-28 | an existing configuration is never overwritten: the only document under its id is the one that was there |
| InitialSetup.ConfigurationCollection.Insert | server/src/main/kotlin/com/studo/campusqr/database/InitialSetup.kt:18-28 | `insertOne` with the duplicate-key failure ignored: the collection becomes the insert-if-absent of the document |
| InitialSetup.ConfigurationCollection.InsertAll | server/src/main/kotlin/com/studo/campusqr/database/InitialSetup.kt:30-99 | the calls in order give the collection with every default inserted if absent |
| InitialSetup.InitialDatabaseSetup | server/src/main/kotlin/com/studo/campusqr/database/InitialSetup.kt:15-119 | the defaults table is applied; the root user is inserted iff the user collection is empty and authentication is built in |
| InitialSetup.UserCollection.CreateRootIfEmpty | server/src/main/kotlin/com/studo/campusqr/database/InitialSetup.kt:102-117 | the root user becomes the only user when there was none and authentication is built in; otherwise the users are unchanged |
| InitialSetup.ConfigKey | server/src/main/kotlin/com/studo/campusqr/database/InitialSetup.kt:126 | a configuration key is always a prefix of its id |
| InitialSetup.ConfigKeyExamples | server/src/main/kotlin/com/studo/campusqr/database/InitialSetup.kt:126 | "userTosText_en" gives the key "userTosText" for "en", and "userFooterAdditionalInfoUrl" keeps its id |
| InitialSetup.ConfigKeyUnlocalized | server/src/main/kotlin/com/studo/campusqr/database/InitialSetup.kt:126 | an id without "_" + language is its own key |
| InitialSetup.ConfigKeyLocalized | server/src/main/kotlin/com/studo/campusqr/database/InitialSetup.kt:126 | otherwise the key is the id cut before the first occurrence |
| Strings.SubstringBeforeFirst | server/src/main/kotlin/com/studo/campusqr/database/InitialSetup.kt:126 | `substringBefore(d)` of `pre + d + post` is `pre` when `pre` lacks the first character of `d` |
| InitialSetup.GetConfigs | server/src/main/kotlin/com/studo/campusqr/database/InitialSetup.kt:121-129 | a key is present iff some string-valued entry has it as its key |
| InitialSetup.GetConfigsLastWins | server/src/main/kotlin/com/studo/campusqr/database/InitialSetup.kt:125-127 | the value under a key is the string value of the last entry with that key |
| InitialSetup.IntConfigsOmitted | server/src/main/kotlin/com/studo/campusqr/database/InitialSetup.kt:124 | an integer-valued entry contributes no key |

## Left out

- The DOM is not modelled: class-name toggling, `showCheckin`, `hideVerification`, `hideForm`, the overlay of `formSetup` and `setDatetimeElement` (time-zone-dependent formatting). Callbacks that only touch the page are recorded as `Effect` values.
- `regenerateCheckoutView` is defined in a file that is not part of this model.
- `XMLHttpRequest`, the 700 ms `setTimeout` and the one-second `setInterval` are not modelled. The response is a parameter of `CheckinPage.Page.Submit`, the interval is the explicit call `CheckinPage.Page.Tick`, and `ticking` records that `onLoad` reached `setInterval`. The request URL and body are not modelled.
- `history.replaceState` in `onLoad` (userFrontend.js:17-18) is left out, and so are the cookie and the navigation of `changeLanguageTo`. Only the URL string rewrite is modelled.
- CheckinPage.Page.Submit reads `Date.now()` once, while the source reads it twice (userFrontend.js:74 and :76). The displayed time is not modelled.
- CheckinPage.Page.Submit requires a present, non-empty location id. The form is wired to `onSubmit` only in that case (userFrontend.js:98-113).
- `autoCheckoutMs` is the content of a meta tag, which the comparison converts to a number. It is modelled as an integer.
- `new Date(string)` in the sweep is engine-defined, so it is the `parseDate` parameter. `None` is an invalid date, and then the entry survives. Whether an engine accepts the stored decimal millisecond string is not modelled. The sweep's properties hold for every parser, and the counterexample uses one that reads the field as an integer (`CheckinRecord.IntegerDate`).
- The order in which `localStorage.key(i)` enumerates keys is left to the browser. The model fixes it as insertion order, and removal keeps the order of the remaining keys.
- CheckinPage.TickOnlyExpires requires a stored record to be decodable. For an undecodable record the tick throws, as `HandleOldCheckin` states.
- On the server, the database driver (`runOnDb`, katerbase queries) is not modelled. Collections are sequences in natural order with unique ids, and queries are predicates.
- `randomId()` and `Date()` are parameters. `getLocationsMap` is the set of resolvable location ids. `toClientClass`, `clientLocation`, the location lookup of the export (AccessManagement.kt:96) and localisation are not modelled.
- `parameters["id"]!!` is modelled as a given id. The null case cannot reach these routes.
- `user.isModerator` is computed outside these files. It is a field of `User`.
- PermitExport.ExportOrdered states the order by `from`, then `to`. The relative order of permits with identical ranges is not stated for the export as a whole; each of its two sorts states its own stability (`PermitExport.SortBy`).
- The root user's password hash and the two start-up secrets are foreign cryptography, so they are parameters. The root user's permission set is not modelled.
- `UserPermission.EDIT_OWN_ACCESS.toString()` is taken to be "EDIT_OWN_ACCESS".
- The ~40 `insert` calls of `initialDatabaseSetup` are modelled as a loop over the table `DefaultConfigs`, in source order.
- Index.kt is not part of this model.
- Strings.NatToDecimal, Strings.ParseInt: JavaScript numbers are doubles; `parseInt` returns one and rounds any value above 2^53. For integers above 2^53 - 1, `String(n)` is not exact, and from 10^21 it switches to exponent notation. The model renders every non-negative integer exactly. The stored times are `Date.now()` values, far below that bound.
- CheckinRecord.IsAcceptedEmail: a JavaScript string may hold a lone surrogate, which a Dafny `char` cannot. Such strings are not modelled. Characters above U+FFFF count as two code units, as in JavaScript.

Two more behaviours of the source are modelled as written:

- `pad(n, 0)` returns the whole string, because `substr(-0)` starts at 0.
- The URL rewrite is idempotent only when removing the first marker leaves no marker behind (`ChangeLanguageUrlIdempotent`). One marker in the input is not enough (`ChangeLanguageUrlSingleMarkerCounterexample`).

## Findings

| source | as written | input that shows it | evidently intended | confidence | as-written member | corrected member |
|---|---|---|---|---|---|---|
| server/src/main/resources/userFrontend/userFrontend.js:192-200 | the index loop removes `key(i)` in place and still advances `i`, so the key that shifts into index `i` is never examined | keys "checkin-a", "checkin-b", both with time field 0, two days later, current location "c": "checkin-b" survives | every check-in of another location older than a day is removed | high; not executed | CheckinRecord.SweepSkipsKeyAfterRemoval | CheckinPage.Page.DeleteExpiredCheckinsIntended |

The as-written loop is `CheckinPage.Page.DeleteExpiredCheckins`, proved against `CheckinRecord.SweepFrom`. The corrected loop advances the index only past a key that stays. It is proved against `CheckinRecord.SweepAll`, which keeps exactly the keys that are not stale check-ins of other locations. `CheckinPage.Page.OnLoad` keeps the sweep as the page runs it. Every key the skipping sweep leaves behind is examined again on the next load.
