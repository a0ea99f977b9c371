/**
 * The pure logic of the visitor check-in page script: zero padding, the email
 * pre-check, the stored check-in record (`base64(email)::millis::locationName`
 * under the key `checkin-<fullLocationId>`), the decision that
 * `handleOldCheckin` takes for a stored record, which keys the stale-entry
 * sweep removes, and the `&s=1` URL rewrite of the language switch.
 */
module CheckinRecord {
  import opened Options
  import opened Strings
  import opened Base64

  // ---------------------------------------------------------------------------
  // pad

  /** JavaScript `s.substr(start)` with no length: a negative start counts back from the end, clamped at 0. */
  function SubstrFrom(s: string, start: int): (r: string)
    ensures |r| <= |s| && r == s[|s| - |r|..]
  {
    var b := if start < 0 then (if |s| + start < 0 then 0 else |s| + start)
             else (if start > |s| then |s| else start);
    s[b..]
  }

  /** `pad(num, size)`: the last `size` characters of `"000" + num`. */
  function Pad(num: int, size: int): (r: string)
    ensures |r| <= 3 + |IntToDecimal(num)|
    ensures r == ("000" + IntToDecimal(num))[3 + |IntToDecimal(num)| - |r|..]
  {
    SubstrFrom("000" + IntToDecimal(num), -size)
  }

  /**
   * For a size between 1 and 3 more than the number of characters of `num`,
   * `pad` yields exactly `size` characters, the tail of `"000" + num`.
   * (A size of 0 yields the whole string, since `substr(-0)` starts at 0.)
   */
  lemma PadLength(num: int, size: int)
    requires 1 <= size <= 3 + |IntToDecimal(num)|
    ensures |Pad(num, size)| == size
    ensures Pad(num, size) == ("000" + IntToDecimal(num))[3 + |IntToDecimal(num)| - size..]
  {
  }

  /** Padding a non-negative number to at least its own width keeps the number it denotes. */
  lemma PadKeepsValue(num: nat, size: int)
    requires |NatToDecimal(num)| <= size <= 3 + |NatToDecimal(num)|
    ensures AllDigits(Pad(num, size)) && DigitsValue(Pad(num, size)) == num
  {
    var d := NatToDecimal(num);
    var z := size - |d|;
    PadLength(num, size);
    assert IntToDecimal(num) == d;
    PadTail(z, d);
    LeadingZerosValue(z, d);
    DecimalRoundTrip(num);
  }

  /** A string of `z` zeros. */
  function Zeros(z: nat): string
  {
    if z == 0 then "" else "0" + Zeros(z - 1)
  }

  /** The last `z + |d|` characters of `"000" + d` are `z` zeros followed by `d`. */
  lemma PadTail(z: nat, d: string)
    requires z <= 3
    ensures ("000" + d)[3 - z..] == Zeros(z) + d
  {
    assert "000" == Zeros(3);
    ZerosSplit(3 - z, z);
    assert "000" + d == Zeros(3 - z) + (Zeros(z) + d);
  }

  /** `a + b` zeros are `a` zeros followed by `b` zeros. */
  lemma {:induction false} ZerosSplit(a: nat, b: nat)
    ensures Zeros(a + b) == Zeros(a) + Zeros(b)
  {
    if a > 0 {
      ZerosSplit(a - 1, b);
      assert Zeros(a + b) == "0" + Zeros(a - 1 + b);
    }
  }

  /** Leading zeros do not change the value of a digit string. */
  lemma {:induction false} LeadingZerosValue(z: nat, d: string)
    requires AllDigits(d)
    ensures AllDigits(Zeros(z) + d) && DigitsValue(Zeros(z) + d) == DigitsValue(d)
  {
    if z > 0 {
      LeadingZerosValue(z - 1, d);
      assert Zeros(z) + d == "0" + (Zeros(z - 1) + d);
      LeadingZeroValue(Zeros(z - 1) + d);
    } else {
      assert Zeros(z) + d == d;
    }
  }

  // ---------------------------------------------------------------------------
  // Email pre-check

  /** `value.replace(" ", "")`: removes the first space only. */
  function NormalizeEmail(raw: string): string
  {
    ReplaceFirst(raw, " ", "")
  }

  /** The address the page is willing to send: at least 5 UTF-16 code units, an "@" and a ".". */
  predicate IsAcceptedEmail(email: string)
  {
    !(Utf16Length(email) < 5 || !Contains(email, "@") || !Contains(email, "."))
  }

  /** The normalised address is the input with its first space, and only that one, removed. */
  lemma NormalizeRemovesFirstSpace(raw: string)
    ensures ' ' !in raw ==> NormalizeEmail(raw) == raw
    ensures ' ' in raw ==> exists i :: 0 <= i < |raw| && raw[i] == ' ' && (forall j :: 0 <= j < i ==> raw[j] != ' ')
                                       && NormalizeEmail(raw) == raw[..i] + raw[i + 1..]
  {
    ContainsChar(raw, ' ');
    if ' ' in raw {
      var i := IndexOf(raw, " ").value;
      assert raw[i..i + 1] == " ";
      assert raw[i] == ' ';
      forall j | 0 <= j < i ensures raw[j] != ' ' {
        assert !OccursAt(raw, " ", j);
        assert raw[j..j + 1] == [raw[j]];
      }
    }
  }

  /** The pre-check accepts exactly the addresses of length at least 5 that contain '@' and '.'. */
  lemma AcceptedEmailIff(email: string)
    ensures IsAcceptedEmail(email) <==> Utf16Length(email) >= 5 && '@' in email && '.' in email
  {
    ContainsChar(email, '@');
    ContainsChar(email, '.');
  }

  /** "a@b" is refused for its length and "ab@cd.ef" passes. */
  lemma EmailExamples()
    ensures !IsAcceptedEmail(NormalizeEmail("a@b"))
    ensures IsAcceptedEmail(NormalizeEmail("ab@cd.ef"))
  {
    ShortEmailRefused();
    var e := "ab@cd.ef";
    assert e[2] == '@' && e[5] == '.';
    assert ' ' !in e;
    SpacelessEmailAccepted(e);
  }

  /** A space-free address of at least 5 characters with an '@' and a '.' passes the pre-check. */
  lemma SpacelessEmailAccepted(e: string)
    requires ' ' !in e && |e| >= 5 && '@' in e && '.' in e
    ensures IsAcceptedEmail(NormalizeEmail(e))
  {
    NormalizeRemovesFirstSpace(e);
    AcceptedEmailIff(e);
  }

  /** "a@b" is three code units, too short. */
  lemma ShortEmailRefused()
    ensures !IsAcceptedEmail(NormalizeEmail("a@b"))
  {
    NormalizeRemovesFirstSpace("a@b");
    Utf16LengthBmp("a@b");
  }

  /** Four characters, one of them above U+FFFF, are five code units: long enough. */
  lemma AstralEmailAccepted()
    ensures |"\U{1F600}@a."| == 4
    ensures IsAcceptedEmail(NormalizeEmail("\U{1F600}@a."))
  {
    var e := "\U{1F600}@a.";
    NormalizeRemovesFirstSpace(e);
    assert Utf16Length(e) == 2 + Utf16Length(e[1..]);
    assert e[1] == '@' && e[3] == '.';
    AcceptedEmailIff(e);
  }

  /** Of two spaces only the first is removed. */
  lemma EmailSecondSpaceKept()
    ensures NormalizeEmail("a b@c.d e") == "ab@c.d e"
  {
    var raw := "a b@c.d e";
    assert raw[0..1] == "a";
    assert raw[1..2] == " ";
    IndexOfIs(raw, " ", 1);
    assert raw[..1] + raw[2..] == "ab@c.d e";
  }

  // ---------------------------------------------------------------------------
  // The stored record

  const Separator: string := "::"
  const CheckinKeyPrefix: string := "checkin-"

  /** `"checkin-" + fullLocationId`; a missing `l` parameter concatenates as "null". */
  function CheckinKey(fullLocationId: Option<string>): string
  {
    CheckinKeyPrefix + fullLocationId.GetOr("null")
  }

  /** The location name stored with a check-in: a multi-seat id "loc-seat" adds " #seat". */
  function CheckinLocationName(locationName: string, fullLocationId: string): string
  {
    if Contains(fullLocationId, "-") then
      SplitHasTwoFields(fullLocationId, "-");
      locationName + " #" + Split(fullLocationId, "-")[1]
    else locationName
  }

  lemma SplitHasTwoFields(s: string, sep: string)
    requires |sep| > 0 && Contains(s, sep)
    ensures |Split(s, sep)| >= 2
  {
  }

  /** The stored value `btoa(email)::millis::locationName`; `None` when `btoa` throws. */
  function EncodeCheckin(email: string, millis: nat, locationName: string): (r: Option<string>)
    ensures r.Some? <==> IsLatin1(email)
  {
    match Btoa(email)
    case None => None
    case Some(b) => Some(b + Separator + NatToDecimal(millis) + Separator + locationName)
  }

  /** `atob(lastCheckin.split("::")[0])`: `None` when `atob` throws. */
  function StoredEmail(entry: string): Option<string>
  {
    Atob(Split(entry, Separator)[0])
  }

  /** `parseInt(lastCheckin.split("::")[1])`: `None` is NaN (also for a missing field). */
  function StoredMillis(entry: string): Option<int>
  {
    match SplitField(entry, Separator, 1)
    case None => None
    case Some(f) => ParseInt(f)
  }

  /** A prefix without ':' is exactly the first field when "::" follows it. */
  lemma SplitAfterColonFree(a: string, rest: string)
    requires ':' !in a
    ensures Split(a + Separator + rest, Separator) == [a] + Split(rest, Separator)
  {
    var s := a + Separator + rest;
    assert OccursAt(s, Separator, |a|) by {
      assert s[|a|..|a| + 2] == Separator;
    }
    forall j | 0 <= j < |a| ensures !OccursAt(s, Separator, j) {
      assert s[j..j + 2][0] == a[j] && a[j] != ':';
    }
    IndexOfIs(s, Separator, |a|);
    assert s[..|a|] == a;
    assert s[|a| + 2..] == rest;
  }

  /** Reading back a written record gives the email and the time it was written with. */
  lemma CheckinRecordRoundTrip(email: string, millis: nat, locationName: string)
    requires IsLatin1(email)
    ensures EncodeCheckin(email, millis, locationName).Some?
    ensures StoredEmail(EncodeCheckin(email, millis, locationName).value) == Some(email)
    ensures StoredMillis(EncodeCheckin(email, millis, locationName).value) == Some(millis)
  {
    var b := Btoa(email).value;
    var d := NatToDecimal(millis);
    assert EncodeCheckin(email, millis, locationName).value == b + Separator + d + Separator + locationName;
    BtoaColonFree(email);
    assert ':' !in d;
    SplitRecord(b, d, locationName);
    AtobBtoa(email);
    ParseIntOfDecimal(millis);
  }

  lemma BtoaColonFree(email: string)
    requires IsLatin1(email)
    ensures ':' !in Btoa(email).value
  {
    BtoaAlphabet(email);
  }

  /** A record whose first two fields hold no ':' splits into those two fields and the split of the rest. */
  lemma SplitRecord(b: string, d: string, rest: string)
    requires ':' !in b && ':' !in d
    ensures Split(b + Separator + d + Separator + rest, Separator) == [b, d] + Split(rest, Separator)
  {
    SplitAfterColonFree(d, rest);
    assert b + Separator + d + Separator + rest == b + Separator + (d + Separator + rest);
    SplitAfterColonFree(b, d + Separator + rest);
  }

  // ---------------------------------------------------------------------------
  // handleOldCheckin

  /** Which callbacks the caller passed in the callback bag. */
  datatype Callbacks = Callbacks(onShowNewCheckin: bool, onShowLastCheckin: bool, onCheckinExpired: bool)

  /** The bag `onLoad` passes: all three callbacks. */
  const LoadCallbacks: Callbacks := Callbacks(true, true, true)

  /** The bag the one-second interval passes: only `onCheckinExpired`. */
  const TickCallbacks: Callbacks := Callbacks(false, false, true)

  /** A callback call, in the order the calls happen. */
  datatype Effect =
    | ShowLastCheckin(lastDateLong: int, email: string)
    | CheckinExpired
    | ShowNewCheckin
    | HideForm

  /** The callbacks that fired, or an exception (`atob` failing, or calling a missing `onCheckinExpired`). */
  datatype Handled = Fired(effects: seq<Effect>) | Threw

  /**
   * `handleOldCheckin`: an entry younger than `autoCheckoutMs` is shown; an
   * older one (or one whose time is NaN) expires and the form is offered
   * again; with no entry (or an empty one) a fresh scan offers the form and
   * anything else expires and hides the form.
   */
  function DecideOldCheckin(lastCheckin: Option<string>, now: int, autoCheckoutMs: int,
                            justScanned: bool, cb: Callbacks): (r: Handled)
    ensures r.Threw? <==>
      if lastCheckin.Some? && lastCheckin.value != "" then StoredEmail(lastCheckin.value).None?
      else !justScanned && !cb.onCheckinExpired
    ensures r.Fired? && CheckinExpired in r.effects ==> cb.onCheckinExpired
    ensures r.Fired? && ShowNewCheckin in r.effects ==> cb.onShowNewCheckin
    ensures r.Fired? ==> forall e :: e in r.effects && e.ShowLastCheckin? ==> cb.onShowLastCheckin
  {
    if lastCheckin.Some? && lastCheckin.value != "" then
      match StoredEmail(lastCheckin.value)
      case None => Threw
      case Some(email) =>
        var lastDateLong := StoredMillis(lastCheckin.value);
        if lastDateLong.Some? && now - lastDateLong.value < autoCheckoutMs then
          Fired(if cb.onShowLastCheckin then [ShowLastCheckin(lastDateLong.value, email)] else [])
        else
          Fired((if cb.onCheckinExpired then [CheckinExpired] else [])
                + (if cb.onShowNewCheckin then [ShowNewCheckin] else []))
    else if justScanned then
      Fired(if cb.onShowNewCheckin then [ShowNewCheckin] else [])
    else if cb.onCheckinExpired then
      Fired([CheckinExpired, HideForm])
    else
      Threw
  }

  /** A record written at `t` and read before `autoCheckoutMs` has passed is shown with its own email and time, and nothing else fires. */
  lemma ActiveCheckinShown(email: string, t: nat, name: string, now: int, autoCheckoutMs: int, justScanned: bool, cb: Callbacks)
    requires IsLatin1(email) && now - t < autoCheckoutMs
    ensures EncodeCheckin(email, t, name).Some?
    ensures DecideOldCheckin(EncodeCheckin(email, t, name), now, autoCheckoutMs, justScanned, cb)
            == Fired(if cb.onShowLastCheckin then [ShowLastCheckin(t, email)] else [])
  {
    CheckinRecordRoundTrip(email, t, name);
  }

  /** Once `autoCheckoutMs` has passed (equality included), the record expires, and then the form is offered if that callback was passed. */
  lemma ExpiredCheckinDropped(email: string, t: nat, name: string, now: int, autoCheckoutMs: int, justScanned: bool, cb: Callbacks)
    requires IsLatin1(email) && now - t >= autoCheckoutMs
    ensures EncodeCheckin(email, t, name).Some?
    ensures DecideOldCheckin(EncodeCheckin(email, t, name), now, autoCheckoutMs, justScanned, cb)
            == Fired((if cb.onCheckinExpired then [CheckinExpired] else [])
                     + (if cb.onShowNewCheckin then [ShowNewCheckin] else []))
  {
    CheckinRecordRoundTrip(email, t, name);
  }

  /** Without a stored record only a fresh scan offers the form; otherwise the form is hidden after the expiry callback. */
  lemma NoStoredCheckin(lastCheckin: Option<string>, now: int, autoCheckoutMs: int, justScanned: bool, cb: Callbacks)
    requires lastCheckin == None || lastCheckin == Some("")
    ensures var h := DecideOldCheckin(lastCheckin, now, autoCheckoutMs, justScanned, cb);
      && (justScanned ==> h == Fired(if cb.onShowNewCheckin then [ShowNewCheckin] else []))
      && (!justScanned && cb.onCheckinExpired ==> h == Fired([CheckinExpired, HideForm]))
      && (!justScanned && !cb.onCheckinExpired ==> h == Threw)
  {
  }

  /** Whatever is stored, the last check-in is shown exactly when its time parses and is younger than `autoCheckoutMs`, and then nothing expires. */
  lemma ShownIffFresh(entry: string, now: int, autoCheckoutMs: int, justScanned: bool, email: string)
    requires entry != "" && StoredEmail(entry) == Some(email)
    ensures var h := DecideOldCheckin(Some(entry), now, autoCheckoutMs, justScanned, LoadCallbacks);
      && h.Fired?
      && ((exists t :: ShowLastCheckin(t, email) in h.effects)
          <==> StoredMillis(entry).Some? && now - StoredMillis(entry).value < autoCheckoutMs)
      && (CheckinExpired in h.effects <==> !(exists t :: ShowLastCheckin(t, email) in h.effects))
  {
    var h := DecideOldCheckin(Some(entry), now, autoCheckoutMs, justScanned, LoadCallbacks);
    if StoredMillis(entry).Some? && now - StoredMillis(entry).value < autoCheckoutMs {
      assert ShowLastCheckin(StoredMillis(entry).value, email) in h.effects;
    } else {
      assert h.effects == [CheckinExpired, ShowNewCheckin];
    }
  }

  // ---------------------------------------------------------------------------
  // deleteExpiredCheckins

  /** One day in milliseconds. */
  const DayMillis: int := 1000 * 60 * 60 * 24

  /**
   * Whether the sweep removes key `k` holding `v`: a check-in key of another
   * location whose time field, parsed by `new Date(field)` (the engine's
   * `parseDate`, `None` for an Invalid Date), lies more than a day before `now`.
   * A missing time field is `new Date(undefined)`, an Invalid Date.
   */
  predicate SweepRemoves(k: string, v: string, currentKey: string, now: int, parseDate: string -> Option<int>)
  {
    && StartsWith(k, CheckinKeyPrefix)
    && k != currentKey
    && match SplitField(v, Separator, 1)
       case None => false
       case Some(field) =>
         match parseDate(field)
         case None => false
         case Some(t) => now - t > DayMillis
  }

  /**
   * The keys left by the sweep loop as written: it visits index `i`, and when
   * it removes that key the later keys shift down by one while `i` still
   * advances, so the key right after a removed one is never visited.
   */
  function SweepFrom(keys: seq<string>, i: nat, items: map<string, string>, currentKey: string,
                     now: int, parseDate: string -> Option<int>): (r: seq<string>)
    ensures |r| <= |keys|
    ensures i <= |keys| ==> i <= |r| && r[..i] == keys[..i]
    decreases |keys| - i
  {
    if i >= |keys| then keys
    else if keys[i] in items && SweepRemoves(keys[i], items[keys[i]], currentKey, now, parseDate) then
      assert (keys[..i] + keys[i + 1..])[..i] == keys[..i];
      SweepFrom(keys[..i] + keys[i + 1..], i + 1, items, currentKey, now, parseDate)
    else
      var r := SweepFrom(keys, i + 1, items, currentKey, now, parseDate);
      assert r[..i] == r[..i + 1][..i];
      r
  }

  /**
   * The sweep keeps every key it does not remove for cause: what is left is a
   * subset of what was there, and every key that disappeared is a stale
   * check-in of another location.  In particular the current location's key,
   * non-check-in keys, entries at most a day old and entries whose time does
   * not parse all survive.
   */
  lemma {:induction false} SweepOnlyRemovesStale(keys: seq<string>, i: nat, items: map<string, string>,
                                                  currentKey: string, now: int, parseDate: string -> Option<int>)
    ensures forall k :: k in SweepFrom(keys, i, items, currentKey, now, parseDate) ==> k in keys
    ensures forall k :: k in keys && k !in SweepFrom(keys, i, items, currentKey, now, parseDate) ==>
              k in items && SweepRemoves(k, items[k], currentKey, now, parseDate)
    decreases |keys| - i
  {
    if i < |keys| {
      if keys[i] in items && SweepRemoves(keys[i], items[keys[i]], currentKey, now, parseDate) {
        var rest := keys[..i] + keys[i + 1..];
        SweepOnlyRemovesStale(rest, i + 1, items, currentKey, now, parseDate);
        forall k | k in keys && k != keys[i] ensures k in rest {
          var j :| 0 <= j < |keys| && keys[j] == k;
          if j < i {
            assert rest[j] == k;
          } else {
            assert rest[j - 1] == k;
          }
        }
        forall k | k in rest ensures k in keys {
          var j :| 0 <= j < |rest| && rest[j] == k;
          if j < i {
            assert keys[j] == k;
          } else {
            assert keys[j + 1] == k;
          }
        }
      } else {
        SweepOnlyRemovesStale(keys, i + 1, items, currentKey, now, parseDate);
      }
    }
  }

  /**
   * The keys the sweep is evidently meant to leave: every stale check-in of
   * another location removed, everything else kept in order.
   */
  function SweepAll(keys: seq<string>, items: map<string, string>, currentKey: string,
                    now: int, parseDate: string -> Option<int>): (r: seq<string>)
    ensures forall k :: k in r <==> k in keys && !(k in items && SweepRemoves(k, items[k], currentKey, now, parseDate))
  {
    if keys == [] then []
    else
      var last := keys[|keys| - 1];
      var front := SweepAll(keys[..|keys| - 1], items, currentKey, now, parseDate);
      assert keys == keys[..|keys| - 1] + [last];
      if last in items && SweepRemoves(last, items[last], currentKey, now, parseDate) then front
      else front + [last]
  }

  /** The time field of "eA==::0::" followed by a location name is "0". */
  lemma ZeroTimeField(name: string)
    requires Contains(name, Separator) == false
    ensures SplitField("eA==::0::" + name, Separator, 1) == Some("0")
  {
    var rest := "0::" + name;
    var full := "eA==::0::" + name;
    assert rest == "0" + Separator + name;
    SplitAfterColonFree("0", name);
    assert Split(rest, Separator) == ["0"] + Split(name, Separator);
    assert full == "eA==" + Separator + rest;
    SplitAfterColonFree("eA==", rest);
    var parts := Split(full, Separator);
    assert parts == ["eA=="] + (["0"] + Split(name, Separator));
    assert parts[1] == "0";
  }

  /** A date parser reading the time field as a decimal count of milliseconds; the example below needs only that it reads "0" as 0. */
  function IntegerDate(field: string): Option<int>
  {
    ParseInt(field)
  }

  /** A check-in of another location stamped at time 0 is stale two days later. */
  lemma StaleZeroRecord(k: string, name: char)
    requires StartsWith(k, CheckinKeyPrefix) && k != "checkin-c" && name != ':'
    ensures SweepRemoves(k, "eA==::0::" + [name], "checkin-c", 2 * DayMillis, IntegerDate)
  {
    assert !Contains([name], Separator) by {
      forall j: nat ensures !OccursAt([name], Separator, j) { }
    }
    ZeroTimeField([name]);
    ParseIntOfDecimal(0);
    assert NatToDecimal(0) == "0";
  }

  /**
   * Two adjacent stale check-ins of other locations: the loop as written
   * removes the first, the second shifts into the visited index, and it
   * survives although it is just as stale.
   */
  lemma SweepSkipsKeyAfterRemoval()
    ensures var keys := ["checkin-a", "checkin-b"];
      var items := map["checkin-a" := "eA==::0::A", "checkin-b" := "eA==::0::B"];
      && SweepRemoves("checkin-a", items["checkin-a"], "checkin-c", 2 * DayMillis, IntegerDate)
      && SweepRemoves("checkin-b", items["checkin-b"], "checkin-c", 2 * DayMillis, IntegerDate)
      && SweepFrom(keys, 0, items, "checkin-c", 2 * DayMillis, IntegerDate) == ["checkin-b"]
  {
    var keys := ["checkin-a", "checkin-b"];
    var items := map["checkin-a" := "eA==::0::A", "checkin-b" := "eA==::0::B"];
    assert items["checkin-a"] == "eA==::0::" + ['A'];
    assert items["checkin-b"] == "eA==::0::" + ['B'];
    assert StartsWith("checkin-a", CheckinKeyPrefix) && StartsWith("checkin-b", CheckinKeyPrefix);
    StaleZeroRecord("checkin-a", 'A');
    StaleZeroRecord("checkin-b", 'B');
    assert keys[..0] + keys[1..] == ["checkin-b"];
  }

  // ---------------------------------------------------------------------------
  // changeLanguageTo

  const ScanMarker: string := "&s=1"

  /** `href.replace("&s=1", "") + "&s=1"`: drop the first marker, append one. */
  function ChangeLanguageUrl(href: string): (r: string)
    ensures |r| >= |ScanMarker| && r[|r| - |ScanMarker|..] == ScanMarker
  {
    ReplaceFirst(href, ScanMarker, "") + ScanMarker
  }

  /** In `v + "&s=1"` with no marker in `v`, the first marker is the appended one: no occurrence can straddle the join. */
  lemma MarkerFirstAtEnd(v: string)
    requires !Contains(v, ScanMarker)
    ensures IndexOf(v + ScanMarker, ScanMarker) == Some(|v|)
  {
    var s := v + ScanMarker;
    assert OccursAt(s, ScanMarker, |v|) by {
      assert s[|v|..|v| + 4] == ScanMarker;
    }
    forall j | 0 <= j < |v| ensures !OccursAt(s, ScanMarker, j) {
      if j + 4 <= |v| {
        assert s[j..j + 4] == v[j..j + 4];
        assert !OccursAt(v, ScanMarker, j);
      } else {
        assert s[j..j + 4][|v| - j] == s[|v|] == '&';
        assert ScanMarker[|v| - j] != '&';
      }
    }
    IndexOfIs(s, ScanMarker, |v|);
  }

  /** The rewritten URL always ends in "&s=1", and a URL without the marker just gets it appended. */
  lemma ChangeLanguageUrlEnds(href: string)
    ensures var r := ChangeLanguageUrl(href); |r| >= 4 && r[|r| - 4..] == ScanMarker
    ensures !Contains(href, ScanMarker) ==> ChangeLanguageUrl(href) == href + ScanMarker
  {
  }

  /**
   * Rewriting twice is rewriting once whenever removing the first marker
   * leaves no marker behind (in particular for every URL without a marker
   * and every URL with a single marker whose removal does not join a new one).
   */
  lemma ChangeLanguageUrlIdempotent(href: string)
    requires !Contains(ReplaceFirst(href, ScanMarker, ""), ScanMarker)
    ensures ChangeLanguageUrl(ChangeLanguageUrl(href)) == ChangeLanguageUrl(href)
  {
    var v := ReplaceFirst(href, ScanMarker, "");
    MarkerFirstAtEnd(v);
    var s := v + ScanMarker;
    assert s[..|v|] == v && s[|v| + 4..] == [];
  }

  /**
   * A URL with a single marker can still change on a second rewrite: removing
   * the marker from "&s&s=1=1z" joins "&s" and "=1" into a new one.
   */
  lemma ChangeLanguageUrlSingleMarkerCounterexample()
    ensures var u := "&s&s=1=1z";
      OccursAt(u, ScanMarker, 2) && (forall j :: j != 2 ==> !OccursAt(u, ScanMarker, j))
      && ChangeLanguageUrl(ChangeLanguageUrl(u)) != ChangeLanguageUrl(u)
  {
    CounterexampleMarker();
    CounterexampleFirstRewrite();
    CounterexampleSecondRewrite();
    assert "&s=1z&s=1"[0] != "z&s=1&s=1"[0];
  }

  /** "&s&s=1=1z" holds the marker at index 2 and nowhere else. */
  lemma CounterexampleMarker()
    ensures var u := "&s&s=1=1z";
      OccursAt(u, ScanMarker, 2) && (forall j :: j != 2 ==> !OccursAt(u, ScanMarker, j))
  {
    var u := "&s&s=1=1z";
    assert u[2..6] == ScanMarker;
    forall j: nat | j != 2 ensures !OccursAt(u, ScanMarker, j) {
      if j == 0 {
        assert u[0..4][2] == '&';
      } else if j == 1 {
        assert u[1..5][0] == 's';
      } else if j == 3 {
        assert u[3..7][0] == 's';
      } else if j == 4 {
        assert u[4..8][0] == '=';
      } else if j == 5 {
        assert u[5..9][0] == '1';
      }
    }
  }

  lemma CounterexampleFirstRewrite()
    ensures ChangeLanguageUrl("&s&s=1=1z") == "&s=1z&s=1"
  {
    var u := "&s&s=1=1z";
    CounterexampleMarker();
    IndexOfIs(u, ScanMarker, 2);
    assert ReplaceFirst(u, ScanMarker, "") == "&s=1z";
  }

  lemma CounterexampleSecondRewrite()
    ensures ChangeLanguageUrl("&s=1z&s=1") == "z&s=1&s=1"
  {
    var once := "&s=1z&s=1";
    assert once[0..4] == ScanMarker;
    IndexOfIs(once, ScanMarker, 0);
    assert ReplaceFirst(once, ScanMarker, "") == "z&s=1";
  }
}
