/**
 * InitialSetup.kt: the configuration defaults inserted when the server
 * starts (an existing value is never overwritten), the root user created on
 * an empty user collection under the built-in authentication, and
 * `getConfigs`, the language-specific view of the string-valued
 * configuration entries.
 */
module InitialSetup {
  import opened Options
  import opened Strings

  /** A `Configuration` document: a string or an integer value under an id. */
  datatype Configuration = Configuration(id: string, stringValue: Option<string>, intValue: Option<int>)

  function StringConfig(id: string, value: string): Configuration
  {
    Configuration(id, Some(value), None)
  }

  function IntConfig(id: string, value: int): Configuration
  {
    Configuration(id, None, Some(value))
  }

  /** The printed hints under the QR codes, in German and English. */
  const ScanSubtext1: string :=
    "Bitte scannen Sie diesen QR Code beim Betreten des Raumes mit der Kamera-App Ihres Smartphones "
    + "oder einer QR Code App. Folgen Sie dann den Anweisungen auf der gescannten Website."

  const ScanSubtext2: string :=
    "Please scan this QR Code when entering the room with the camera app of your smartphone or a QR Code app. "
    + "Follow then the instructions on the scanned website."

  const ScanCheckoutSubtext1: string :=
    "Bitte scannen Sie diesen QR Code beim Verlassen des Raumes mit der Kamera-App Ihres Smartphones "
    + "oder einer QR Code App. W\U{E4}hlen Sie dann \"Auschecken\" auf der gescannten Website."

  const ScanCheckoutSubtext2: string :=
    "Please scan this QR Code when leaving the room with the camera app of your smartphone or a QR Code app. "
    + "Then select \"Check out\" on the scanned website."

  /**
   * The defaults in the order they are inserted.  The two secrets are
   * random hashes computed at start-up; they are parameters here.
   */
  function DefaultConfigs(csrfHashSecret: string, sessionHmacSecret: string): seq<Configuration>
  {
    [ StringConfig("userTosText_en", ""),
      StringConfig("userTosText_de", ""),
      StringConfig("userTosUrl_en", ""),
      StringConfig("userTosUrl_de", ""),
      StringConfig("logoUrl_en", "/static/userFrontend/universityIcon.svg"),
      StringConfig("logoUrl_de", "/static/userFrontend/universityIcon.svg"),
      StringConfig("userAppName_en", "Kraftraum QR Tracking"),
      StringConfig("userAppName_de", "Kraftraum QR Tracking"),
      StringConfig("userFooterAdditionalInfoUrl", ""),
      StringConfig("userFooterAdditionalInfoText_en", ""),
      StringConfig("userFooterAdditionalInfoText_de", ""),
      StringConfig("emailPlaceholder_en", "Your email address"),
      StringConfig("emailPlaceholder_de", "Deine eMail Adresse"),
      StringConfig("emailAccessRegex", ""),
      StringConfig("scanSubtext1", ScanSubtext1),
      StringConfig("scanSubtext2", ScanSubtext2),
      StringConfig("scanCheckoutSubtext1", ScanCheckoutSubtext1),
      StringConfig("scanCheckoutSubtext2", ScanCheckoutSubtext2),
      IntConfig("showVerificationAnimation", 1),
      StringConfig("baseUrl", "http://127.0.0.1"),
      StringConfig("qrCodeBaseUrl", "http://127.0.0.1"),
      StringConfig("appName", "Kraftraum QR Tracking"),
      IntConfig("deleteCheckInDataAfterDays", 150 * 7),
      IntConfig("autoCheckOutMinutes", 3 * 60),
      IntConfig("transitThresholdSeconds", 2 * 60),
      StringConfig("csrfHashSecret", csrfHashSecret),
      StringConfig("sessionHmacSecret", sessionHmacSecret),
      StringConfig("ldapUrl", ""),
      StringConfig("ldapSearchFilter", "(uid=%s,dc=example,dc=com)"),
      StringConfig("ldapApplicationUserPrincipal", "cn=read-only-admin,dc=example,dc=com"),
      StringConfig("ldapApplicationUserCredentials", "password"),
      StringConfig("ldapGroupAttributeName", "memberOf"),
      StringConfig("ldapGroupFilter", "(objectclass=user)"),
      StringConfig("ldapGroupRegex", "CN=CampusQR,"),
      IntConfig("ldapPrintDebugLogs", 0),
      IntConfig("ldapTimeoutMs", 10000),
      IntConfig("ldapUserDisablingIntervalMinutes", 24 * 60),
      StringConfig("ldapDefaultUserPermissions", "EDIT_OWN_ACCESS"),
      IntConfig("storeCheckInUserAgent", 0),
      StringConfig("checkInIpAddressHeader", ""),
      StringConfig("authSharedSecret", ""),
      IntConfig("multiSeatLocationsUseSmallCheckinPages", 0),
      IntConfig("liveCheckInsViewEnabled", 1) ]
  }

  // ---------------------------------------------------------------------------
  // Insert-if-absent

  predicate HasConfigId(docs: seq<Configuration>, id: string)
  {
    exists i :: 0 <= i < |docs| && docs[i].id == id
  }

  predicate DistinctConfigIds(docs: seq<Configuration>)
  {
    forall i, j :: 0 <= i < j < |docs| ==> docs[i].id != docs[j].id
  }

  /** `insertOne(c, onDuplicateKey = { })`: the document is added unless its id is taken. */
  function InsertIfAbsent(docs: seq<Configuration>, c: Configuration): (r: seq<Configuration>)
    ensures HasConfigId(docs, c.id) ==> r == docs
    ensures !HasConfigId(docs, c.id) ==> r == docs + [c]
  {
    if HasConfigId(docs, c.id) then docs else docs + [c]
  }

  /** The collection after inserting each default in turn. */
  function ApplyDefaults(docs: seq<Configuration>, defaults: seq<Configuration>): seq<Configuration>
    decreases |defaults|
  {
    if defaults == [] then docs else ApplyDefaults(InsertIfAbsent(docs, defaults[0]), defaults[1..])
  }

  /**
   * Setting up the defaults only appends: every document that was there
   * stays where it was with its value, ids stay unique, and every default
   * id is present afterwards.
   */
  lemma {:induction false} ApplyDefaultsKeepsExisting(docs: seq<Configuration>, defaults: seq<Configuration>)
    requires DistinctConfigIds(docs)
    ensures var r := ApplyDefaults(docs, defaults);
      && |docs| <= |r| && r[..|docs|] == docs
      && DistinctConfigIds(r)
      && forall d :: d in defaults ==> HasConfigId(r, d.id)
    decreases |defaults|
  {
    if defaults != [] {
      var next := InsertIfAbsent(docs, defaults[0]);
      assert DistinctConfigIds(next) by {
        if !HasConfigId(docs, defaults[0].id) {
          forall i, j | 0 <= i < j < |next| ensures next[i].id != next[j].id {
            if j == |docs| {
              assert next[i] == docs[i];
            } else {
              assert next[i] == docs[i] && next[j] == docs[j];
            }
          }
        }
      }
      ApplyDefaultsKeepsExisting(next, defaults[1..]);
      var r := ApplyDefaults(next, defaults[1..]);
      assert next[..|docs|] == docs;
      assert r[..|docs|] == r[..|next|][..|docs|];
      assert HasConfigId(next, defaults[0].id) by {
        if !HasConfigId(docs, defaults[0].id) {
          assert next[|docs|] == defaults[0];
        }
      }
      HasIdInPrefix(next, r, defaults[0].id);
      assert forall d :: d in defaults ==> d == defaults[0] || d in defaults[1..] by {
        assert defaults == [defaults[0]] + defaults[1..];
      }
    }
  }

  /** An id found in a prefix is found in the whole. */
  lemma HasIdInPrefix(p: seq<Configuration>, r: seq<Configuration>, id: string)
    requires |p| <= |r| && r[..|p|] == p && HasConfigId(p, id)
    ensures HasConfigId(r, id)
  {
    var i :| 0 <= i < |p| && p[i].id == id;
    assert r[i] == p[i];
  }

  /** A configuration that exists keeps its value: the document under that id is the one that was there. */
  lemma ExistingValueKept(docs: seq<Configuration>, defaults: seq<Configuration>, i: nat)
    requires DistinctConfigIds(docs) && i < |docs|
    ensures var r := ApplyDefaults(docs, defaults);
      && i < |r| && r[i] == docs[i]
      && forall j :: 0 <= j < |r| && r[j].id == docs[i].id ==> r[j] == docs[i]
  {
    ApplyDefaultsKeepsExisting(docs, defaults);
  }

  // ---------------------------------------------------------------------------
  // getConfigs

  /** `id.substringBefore("_$language")`. */
  function ConfigKey(id: string, language: string): (r: string)
    ensures |r| <= |id| && r == id[..|r|]
  {
    SubstringBefore(id, "_" + language)
  }

  /** A localized id loses its suffix; an id without "_" + language keeps its full id. */
  lemma ConfigKeyExamples()
    ensures ConfigKey("userTosText_en", "en") == "userTosText"
    ensures ConfigKey("userFooterAdditionalInfoUrl", "en") == "userFooterAdditionalInfoUrl"
  {
    SubstringBeforeFirst("userTosText", "_" + "en", "");
    assert "userTosText" + ("_" + "en") + "" == "userTosText_en";
    var b := "userFooterAdditionalInfoUrl";
    assert '_' !in b;
    AbsentFirstChar(b, "_en");
    ConfigKeyUnlocalized(b, "en");
  }

  /** An id that does not contain "_" + language is its own key. */
  lemma ConfigKeyUnlocalized(id: string, language: string)
    requires !Contains(id, "_" + language)
    ensures ConfigKey(id, language) == id
  {
  }

  /** The key of an id that contains "_" + language is the part before its first occurrence. */
  lemma ConfigKeyLocalized(id: string, language: string, k: nat)
    requires OccursAt(id, "_" + language, k)
    requires forall j :: 0 <= j < k ==> !OccursAt(id, "_" + language, j)
    ensures ConfigKey(id, language) == id[..k]
  {
    IndexOfIs(id, "_" + language, k);
  }

  /**
   * `getConfigs(language)`: the string-valued entries, keyed by their id
   * with the language suffix cut off; `associateBy` lets a later entry
   * overwrite an earlier one with the same key.
   */
  function GetConfigs(docs: seq<Configuration>, language: string): (r: map<string, string>)
    ensures forall k :: k in r <==>
      exists i :: 0 <= i < |docs| && docs[i].stringValue.Some? && ConfigKey(docs[i].id, language) == k
  {
    if docs == [] then map[]
    else
      var front := docs[..|docs| - 1];
      var last := docs[|docs| - 1];
      var r := GetConfigs(front, language);
      assert forall i :: 0 <= i < |front| ==> front[i] == docs[i];
      if last.stringValue.Some? then r[ConfigKey(last.id, language) := last.stringValue.value] else r
  }

  /** The value under a key is the string value of the last entry with that key. */
  lemma {:induction false} GetConfigsLastWins(docs: seq<Configuration>, language: string, i: nat)
    requires i < |docs| && docs[i].stringValue.Some?
    requires forall j :: i < j < |docs| && docs[j].stringValue.Some?
               ==> ConfigKey(docs[j].id, language) != ConfigKey(docs[i].id, language)
    ensures GetConfigs(docs, language)[ConfigKey(docs[i].id, language)] == docs[i].stringValue.value
  {
    if i < |docs| - 1 {
      var front := docs[..|docs| - 1];
      assert front[i] == docs[i];
      forall j | i < j < |front| && front[j].stringValue.Some?
        ensures ConfigKey(front[j].id, language) != ConfigKey(front[i].id, language)
      {
        assert front[j] == docs[j];
      }
      GetConfigsLastWins(front, language, i);
    }
  }

  /** Integer-valued configurations give no key of their own: getConfigs only holds keys of string-valued entries. */
  lemma IntConfigsOmitted(docs: seq<Configuration>, language: string, id: string, n: int)
    requires IntConfig(id, n) in docs
    requires forall c :: c in docs && c.stringValue.Some? ==> ConfigKey(c.id, language) != ConfigKey(id, language)
    ensures ConfigKey(id, language) !in GetConfigs(docs, language)
  {
  }

  // ---------------------------------------------------------------------------
  // The collections and the setup

  /** A `BackendUser`; its permission set is left out. */
  datatype BackendUser = BackendUser(
    id: string,
    email: string,
    passwordHash: string,
    name: string,
    createdDate: int,
    createdBy: string)

  /** The root user; `passwordHash` is the hash of "admin", computed outside the model. */
  function RootUser(passwordHash: string, now: int): BackendUser
  {
    BackendUser("rootUser", "admin@example.org", passwordHash, "Root User", now, "rootUser")
  }

  class ConfigurationCollection {
    var docs: seq<Configuration>

    ghost predicate Valid()
      reads this
    {
      DistinctConfigIds(docs)
    }

    constructor (docs: seq<Configuration>)
      requires DistinctConfigIds(docs)
      ensures Valid() && this.docs == docs
    {
      this.docs := docs;
    }

    /** `insert(id, value)`: `insertOne` whose duplicate-key failure is ignored. */
    method Insert(c: Configuration)
      requires Valid()
      modifies this
      ensures Valid()
      ensures docs == InsertIfAbsent(old(docs), c)
    {
      var taken := false;
      var i := 0;
      while i < |docs|
        invariant 0 <= i <= |docs|
        invariant taken <==> exists j :: 0 <= j < i && docs[j].id == c.id
      {
        if docs[i].id == c.id {
          taken := true;
        }
        i := i + 1;
      }
      if !taken {
        docs := docs + [c];
        forall i, j | 0 <= i < j < |docs| ensures docs[i].id != docs[j].id {
          if j == |docs| - 1 {
            assert docs[i] == old(docs)[i];
          } else {
            assert docs[i] == old(docs)[i] && docs[j] == old(docs)[j];
          }
        }
      }
    }

    /** The `insert` calls of the setup, one per default, in order. */
    method InsertAll(defaults: seq<Configuration>)
      requires Valid()
      modifies this
      ensures Valid()
      ensures docs == ApplyDefaults(old(docs), defaults)
    {
      var i := 0;
      while i < |defaults|
        invariant 0 <= i <= |defaults|
        invariant Valid()
        invariant ApplyDefaults(docs, defaults[i..]) == ApplyDefaults(old(docs), defaults)
      {
        assert defaults[i..][1..] == defaults[i + 1..];
        Insert(defaults[i]);
        i := i + 1;
      }
    }
  }

  class UserCollection {
    var users: seq<BackendUser>

    constructor (users: seq<BackendUser>)
      ensures this.users == users
    {
      this.users := users;
    }

    /** The root user is inserted when there is no user yet and authentication is built in. */
    method CreateRootIfEmpty(builtInAuth: bool, rootPasswordHash: string, now: int)
      modifies this
      ensures users == if |old(users)| == 0 && builtInAuth then [RootUser(rootPasswordHash, now)]
                       else old(users)
    {
      if |users| == 0 && builtInAuth {
        users := users + [RootUser(rootPasswordHash, now)];
      }
    }
  }

  /**
   * `initialDatabaseSetup`: every default is inserted unless its id is
   * taken, then the root user is created when there is no user at all and
   * authentication is the built-in username/password one.
   */
  method InitialDatabaseSetup(configs: ConfigurationCollection, users: UserCollection,
                              csrfHashSecret: string, sessionHmacSecret: string,
                              builtInAuth: bool, rootPasswordHash: string, now: int)
    requires configs.Valid()
    modifies configs, users
    ensures configs.Valid()
    ensures configs.docs == ApplyDefaults(old(configs.docs), DefaultConfigs(csrfHashSecret, sessionHmacSecret))
    ensures users.users == if |old(users.users)| == 0 && builtInAuth then [RootUser(rootPasswordHash, now)]
                           else old(users.users)
  {
    configs.InsertAll(DefaultConfigs(csrfHashSecret, sessionHmacSecret));
    users.CreateRootIfEmpty(builtInAuth, rootPasswordHash, now);
  }
}
