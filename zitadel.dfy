/**
 * The older import path (`src/zitadel.rs`): directory entries become
 * text-only users, enabled users are imported one after another, and each
 * import is a create call, a metadata call and a grant call to Zitadel.
 * The Zitadel client is a `Client` object that records every call it is
 * sent and answers through a `Server` function of the calls so far.
 */
module Zitadel {
  import opened Wrappers
  import opened Errors
  import opened Common
  import opened Directory
  import opened LegacyConfig
  import opened ZitadelClient

  /** The project role every imported user is granted. */
  const FAMEDLY_USER_ROLE: string := "User"

  /** The metadata key the preferred username is stored under. */
  const PREFERRED_USERNAME_KEY: string := "preferred_username"

  /** A user of the older import: every attribute is text. */
  datatype User = User(
    firstName: string,
    lastName: string,
    preferredUsername: string,
    email: string,
    ldapId: string,
    phone: string,
    enabled: bool,
    needsEmailVerification: bool,
    needsPhoneVerification: bool,
    idps: seq<Idp>)

  /**
   * The text-only `read_entry`: an attribute the entry does not have and
   * an attribute without values are two different errors; otherwise its
   * first value.
   */
  function ReadEntry(entry: SearchEntry, attribute: string): (r: Result<string, Error>)
    ensures attribute !in entry.attrs ==> r == Err(MissingAttribute(attribute, entry.dn))
    ensures attribute in entry.attrs && entry.attrs[attribute] == [] ==> r == Err(MissingValues(attribute, entry.dn))
    ensures r.Ok? ==> attribute in entry.attrs && |entry.attrs[attribute]| > 0 && r.value == entry.attrs[attribute][0]
  {
    if attribute !in entry.attrs then Err(MissingAttribute(attribute, entry.dn))
    else if entry.attrs[attribute] == [] then Err(MissingValues(attribute, entry.dn))
    else Ok(entry.attrs[attribute][0])
  }

  /** The reader succeeds exactly when `attr_first` finds a value, and then returns that value. */
  lemma ReadEntryAgreesWithAttrFirst(entry: SearchEntry, attribute: string)
    ensures ReadEntry(entry, attribute).Ok? <==> AttrFirst(entry, attribute).Some?
    ensures ReadEntry(entry, attribute).Ok? ==> ReadEntry(entry, attribute).value == AttrFirst(entry, attribute).value
  {
  }

  /** "last, first". */
  function DisplayName(firstName: string, lastName: string): (r: string)
    ensures |r| == |lastName| + 2 + |firstName|
    ensures r[..|lastName|] == lastName && r[|lastName|..|lastName| + 2] == ", " && r[|lastName| + 2..] == firstName
  {
    lastName + ", " + firstName
  }

  /**
   * `User::try_from_search_entry`: the status and the six attributes are
   * read in order and the first failure is the error; the user is enabled
   * when the status differs from the disable value, and is linked to the
   * configured IdP exactly when single sign-on is on.
   */
  function TryFromSearchEntry(entry: SearchEntry, config: Config): Result<User, Error> {
    var attrs := config.attributes;
    var status :- ReadEntry(entry, attrs.status);
    var firstName :- ReadEntry(entry, attrs.firstName);
    var lastName :- ReadEntry(entry, attrs.lastName);
    var preferredUsername :- ReadEntry(entry, attrs.preferredUsername);
    var email :- ReadEntry(entry, attrs.email);
    var userId :- ReadEntry(entry, attrs.userId);
    var phone :- ReadEntry(entry, attrs.phone);
    var idps :=
      if SsoLogin in config.featureFlags
      then [Idp(config.famedly.idpId, userId, DisplayName(firstName, lastName))]
      else [];
    Ok(User(
      firstName, lastName, preferredUsername, email, userId, phone,
      status != attrs.disableValue,
      VerifyEmail in config.featureFlags, VerifyPhone in config.featureFlags,
      idps))
  }

  /** The attributes the import reads, in the order it reads them; the phone is among them. */
  function Required(attrs: LdapAttributesMapping): seq<string> {
    [attrs.status, attrs.firstName, attrs.lastName, attrs.preferredUsername, attrs.email, attrs.userId, attrs.phone]
  }

  /**
   * Parsing succeeds exactly when all seven attributes have a value, the
   * phone included; the fields are those values, `enabled` compares the
   * status with the disable value, and there is one IdP link, to the
   * user's id under "last, first", exactly when single sign-on is on.
   */
  lemma TryFromSearchEntryFields(entry: SearchEntry, config: Config)
    ensures var r := TryFromSearchEntry(entry, config);
      && (r.Ok? <==> forall a :: a in Required(config.attributes) ==> ReadEntry(entry, a).Ok?)
      && (r.Ok? ==>
        var attrs := config.attributes;
        && r.value.firstName == ReadEntry(entry, attrs.firstName).value
        && r.value.lastName == ReadEntry(entry, attrs.lastName).value
        && r.value.preferredUsername == ReadEntry(entry, attrs.preferredUsername).value
        && r.value.email == ReadEntry(entry, attrs.email).value
        && r.value.ldapId == ReadEntry(entry, attrs.userId).value
        && r.value.phone == ReadEntry(entry, attrs.phone).value
        && (r.value.enabled <==> ReadEntry(entry, attrs.status).value != attrs.disableValue)
        && r.value.needsEmailVerification == (VerifyEmail in config.featureFlags)
        && r.value.needsPhoneVerification == (VerifyPhone in config.featureFlags)
        && (|r.value.idps| == 1 <==> SsoLogin in config.featureFlags)
        && (|r.value.idps| == 0 <==> SsoLogin !in config.featureFlags)
        && (SsoLogin in config.featureFlags ==>
              r.value.idps[0] == Idp(config.famedly.idpId, r.value.ldapId, DisplayName(r.value.firstName, r.value.lastName))))
  {
    var req := Required(config.attributes);
    if TryFromSearchEntry(entry, config).Ok? {
      forall a | a in req
        ensures ReadEntry(entry, a).Ok?
      {
        var k :| 0 <= k < |req| && req[k] == a;
      }
    } else {
      var attrs := config.attributes;
      if ReadEntry(entry, attrs.status).Err? {
        assert ReadEntry(entry, req[0]).Err?;
      } else if ReadEntry(entry, attrs.firstName).Err? {
        assert ReadEntry(entry, req[1]).Err?;
      } else if ReadEntry(entry, attrs.lastName).Err? {
        assert ReadEntry(entry, req[2]).Err?;
      } else if ReadEntry(entry, attrs.preferredUsername).Err? {
        assert ReadEntry(entry, req[3]).Err?;
      } else if ReadEntry(entry, attrs.email).Err? {
        assert ReadEntry(entry, req[4]).Err?;
      } else if ReadEntry(entry, attrs.userId).Err? {
        assert ReadEntry(entry, req[5]).Err?;
      } else {
        assert ReadEntry(entry, req[6]).Err?;
      }
    }
  }

  /** Unlike the newer sources, a missing phone fails the parse, with the phone's error. */
  lemma MissingPhoneFails(entry: SearchEntry, config: Config)
    requires forall a :: a in Required(config.attributes)[..6] ==> ReadEntry(entry, a).Ok?
    requires ReadEntry(entry, config.attributes.phone).Err?
    ensures TryFromSearchEntry(entry, config) == Err(ReadEntry(entry, config.attributes.phone).error)
  {
    var req := Required(config.attributes);
    assert req[0] in req[..6] && req[1] in req[..6] && req[2] in req[..6];
    assert req[3] in req[..6] && req[4] in req[..6] && req[5] in req[..6];
  }

  /**
   * The create-user request: the email is the user name, the profile has
   * the user's names and an empty nick name and language, the request
   * always carries the phone, the email and phone are verified unless the
   * user needs to verify them, and no password is set: the user registers
   * without one.
   */
  function ToImportRequest(u: User): (r: ImportHumanUserRequest)
    ensures r.userName == u.email
    ensures r.profile.Some? && r.profile.value.nickName == "" && r.profile.value.gender == GENDER_UNSPECIFIED
    ensures r.profile.value.displayName == DisplayName(u.firstName, u.lastName)
    ensures r.profile.value.firstName == u.firstName && r.profile.value.lastName == u.lastName
    ensures r.profile.value.preferredLanguage == ""
    ensures r.password == "" && r.hashedPassword.None? && !r.passwordChangeRequired
    ensures r.requestPasswordlessRegistration && r.otpCode == ""
    ensures r.email == Some(Email(u.email, !u.needsEmailVerification))
    ensures r.phone == Some(Phone(u.phone, !u.needsPhoneVerification))
    ensures r.idps == u.idps
  {
    ImportHumanUserRequest(
      u.email,
      Some(Profile(u.firstName, u.lastName, DisplayName(u.firstName, u.lastName), GENDER_UNSPECIFIED, "", "")),
      Some(Email(u.email, !u.needsEmailVerification)),
      Some(Phone(u.phone, !u.needsPhoneVerification)),
      "", None, false, true, "", u.idps)
  }

  /**
   * From an entry to a request: the request's verified flags are off
   * exactly when the configuration asks for verification, and it has an
   * IdP link exactly when single sign-on is on.
   */
  lemma RequestFromEntry(entry: SearchEntry, config: Config)
    requires TryFromSearchEntry(entry, config).Ok?
    ensures var r := ToImportRequest(TryFromSearchEntry(entry, config).value);
      && r.email.value.email == ReadEntry(entry, config.attributes.email).value
      && r.email.value.isEmailVerified == (VerifyEmail !in config.featureFlags)
      && r.phone.value.phone == ReadEntry(entry, config.attributes.phone).value
      && r.phone.value.isPhoneVerified == (VerifyPhone !in config.featureFlags)
      && (|r.idps| == 1 <==> SsoLogin in config.featureFlags)
  {
    TryFromSearchEntryFields(entry, config);
  }

  /**
   * What one entry contributes to the import: a user to import when it
   * parses and is enabled, an error when it does not parse, and nothing
   * when it parses but is disabled.
   */
  function Classify(entry: SearchEntry, config: Config): (r: Option<Result<User, Error>>)
    ensures r.None? <==> TryFromSearchEntry(entry, config).Ok? && !TryFromSearchEntry(entry, config).value.enabled
    ensures r.Some? ==> r.value == TryFromSearchEntry(entry, config)
  {
    match TryFromSearchEntry(entry, config)
    case Err(e) => Some(Err(e))
    case Ok(u) => if u.enabled then Some(Ok(u)) else None
  }

  /** The `filter_map` and `partition_result` in `import_new_users`: the users to import and the parse errors, in order. */
  function Partition(entries: seq<SearchEntry>, config: Config): (r: (seq<User>, seq<Error>))
    ensures forall i :: 0 <= i < |r.0| ==> r.0[i].enabled
    ensures |r.0| + |r.1| <= |entries|
    decreases |entries|
  {
    if entries == [] then ([], [])
    else
      var init := Partition(entries[..|entries| - 1], config);
      match Classify(entries[|entries| - 1], config)
      case None => init
      case Some(Ok(u)) => (init.0 + [u], init.1)
      case Some(Err(e)) => (init.0, init.1 + [e])
  }

  /** Entries are classified independently: partitioning two runs of entries is partitioning each. */
  lemma {:induction false} PartitionConcat(a: seq<SearchEntry>, b: seq<SearchEntry>, config: Config)
    ensures Partition(a + b, config).0 == Partition(a, config).0 + Partition(b, config).0
    ensures Partition(a + b, config).1 == Partition(a, config).1 + Partition(b, config).1
    decreases |b|
  {
    if b == [] {
      assert a + b == a;
    } else {
      DropLast(a, b);
      PartitionConcat(a, b[..|b| - 1], config);
    }
  }

  /**
   * One entry: a parse failure is reported and not imported, a disabled
   * user is neither reported nor imported, an enabled user is imported.
   */
  lemma PartitionOne(entry: SearchEntry, config: Config)
    ensures var p, r := Partition([entry], config), TryFromSearchEntry(entry, config);
      && (r.Err? ==> p == ([], [r.error]))
      && (r.Ok? && !r.value.enabled ==> p == ([], []))
      && (r.Ok? && r.value.enabled ==> p == ([r.value], []))
  {
    assert [entry][..0] == [];
    assert Partition([entry][..0], config) == ([], []);
    match TryFromSearchEntry(entry, config)
    case Err(e) =>
      assert Classify(entry, config) == Some(Err(e));
      assert Partition([entry], config) == ([], [] + [e]);
      assert [] + [e] == [e];
    case Ok(u) =>
      if u.enabled {
        assert Classify(entry, config) == Some(Ok(u));
        assert Partition([entry], config) == ([] + [u], []);
        assert [] + [u] == [u];
      }
  }

  /** Every entry that parses into an enabled user is imported, in order, and no error is reported when all parse. */
  lemma {:induction false} PartitionAllEnabled(entries: seq<SearchEntry>, config: Config)
    requires forall i :: 0 <= i < |entries| ==>
      TryFromSearchEntry(entries[i], config).Ok? && TryFromSearchEntry(entries[i], config).value.enabled
    ensures |Partition(entries, config).0| == |entries|
    ensures forall i :: 0 <= i < |entries| ==> Partition(entries, config).0[i] == TryFromSearchEntry(entries[i], config).value
    ensures Partition(entries, config).1 == []
    decreases |entries|
  {
    if entries != [] {
      PartitionAllEnabled(entries[..|entries| - 1], config);
    }
  }

  /** Each call the import sends to Zitadel. */
  datatype Call =
    | CreateHumanUser(organizationId: string, request: ImportHumanUserRequest)
    | SetUserMetadata(organizationId: string, userId: string, key: string, value: string)
    | AddUserGrant(organizationId: string, userId: string, projectId: string, roles: seq<string>)

  /**
   * How Zitadel answers a call, given the calls before it: the new user's
   * id for a create call, any value for the other two, or an error.
   */
  type Server = (seq<Call>, Call) -> Result<string, Error>

  /** The Zitadel client: every call is logged and answered by the server. */
  class Client {
    var log: seq<Call>
    const server: Server

    constructor(server: Server)
      ensures this.server == server && log == []
    {
      this.server := server;
      log := [];
    }

    /** Send one call: it is appended to the log and answered given the calls before it. */
    method Send(call: Call) returns (r: Result<string, Error>)
      modifies this
      ensures log == old(log) + [call]
      ensures r == server(old(log), call)
    {
      r := server(log, call);
      log := log + [call];
    }
  }

  /**
   * What `import_user` sends after the calls `log`, and how it ends: the
   * create call; then, if it succeeded, the metadata call for the new
   * id; then, if that succeeded, the grant call; the first failure ends
   * the import with its error.
   */
  function ImportSteps(server: Server, log: seq<Call>, famedly: FamedlyConfig, u: User): (seq<Call>, Result<(), Error>) {
    var create := CreateHumanUser(famedly.organizationId, ToImportRequest(u));
    var id := server(log, create);
    if id.Err? then ([create], Err(id.error))
    else
      var meta := SetUserMetadata(famedly.organizationId, id.value, PREFERRED_USERNAME_KEY, u.preferredUsername);
      var stored := server(log + [create], meta);
      if stored.Err? then ([create, meta], Err(stored.error))
      else
        var grant := AddUserGrant(famedly.organizationId, id.value, famedly.projectId, [FAMEDLY_USER_ROLE]);
        var granted := server(log + [create, meta], grant);
        ([create, meta, grant], if granted.Err? then Err(granted.error) else Ok(()))
  }

  /**
   * The calls of one import follow the order create, metadata, grant and
   * stop at the first failure: the import succeeds exactly when all three
   * were sent and the last one succeeded, and a failed create is the
   * only call.
   */
  lemma ImportStepsOrder(server: Server, log: seq<Call>, famedly: FamedlyConfig, u: User)
    ensures var (calls, r) := ImportSteps(server, log, famedly, u);
      && 1 <= |calls| <= 3
      && calls[0] == CreateHumanUser(famedly.organizationId, ToImportRequest(u))
      && (server(log, calls[0]).Err? <==> |calls| == 1)
      && (server(log, calls[0]).Err? ==> r == Err(server(log, calls[0]).error))
      && (|calls| >= 2 ==>
            calls[1] == SetUserMetadata(famedly.organizationId, server(log, calls[0]).value, PREFERRED_USERNAME_KEY, u.preferredUsername))
      && (|calls| == 3 ==>
            && server(log + [calls[0]], calls[1]).Ok?
            && calls[2] == AddUserGrant(famedly.organizationId, server(log, calls[0]).value, famedly.projectId, ["User"]))
      && (r.Ok? <==> |calls| == 3 && server(log + calls[..2], calls[2]).Ok?)
  {
    var (calls, r) := ImportSteps(server, log, famedly, u);
    if |calls| == 3 {
      assert calls[..2] == [calls[0], calls[1]];
    }
  }

  /** Only the create calls, in order. */
  function Creates(calls: seq<Call>): (r: seq<ImportHumanUserRequest>)
    ensures |r| <= |calls|
    decreases |calls|
  {
    if calls == [] then []
    else
      var last := calls[|calls| - 1];
      Creates(calls[..|calls| - 1]) + (if last.CreateHumanUser? then [last.request] else [])
  }

  lemma {:induction false} CreatesConcat(a: seq<Call>, b: seq<Call>)
    ensures Creates(a + b) == Creates(a) + Creates(b)
    decreases |b|
  {
    if b == [] {
      assert a + b == a;
    } else {
      DropLast(a, b);
      CreatesConcat(a, b[..|b| - 1]);
    }
  }

  /** One import sends exactly one create call, for the user's request. */
  lemma CreatesOfImport(server: Server, log: seq<Call>, famedly: FamedlyConfig, u: User)
    ensures Creates(ImportSteps(server, log, famedly, u).0) == [ToImportRequest(u)]
  {
    var calls := ImportSteps(server, log, famedly, u).0;
    var create := calls[0];
    assert Creates([create]) == [create.request] by {
      assert [create][..0] == [];
    }
    if |calls| >= 2 {
      assert Creates([create, calls[1]]) == [create.request] by {
        assert [create, calls[1]][..1] == [create];
      }
    }
    if |calls| == 3 {
      assert calls[..2] == [create, calls[1]];
    }
  }

  /** The calls importing `users` one after another sends after `log`, whatever each import returns. */
  function ImportAll(server: Server, log: seq<Call>, famedly: FamedlyConfig, users: seq<User>): seq<Call>
    decreases |users|
  {
    if users == [] then []
    else
      var before := ImportAll(server, log, famedly, users[..|users| - 1]);
      before + ImportSteps(server, log + before, famedly, users[|users| - 1]).0
  }

  lemma ImportAllSnoc(server: Server, log: seq<Call>, famedly: FamedlyConfig, users: seq<User>, i: nat)
    requires i < |users|
    ensures var before := ImportAll(server, log, famedly, users[..i]);
      ImportAll(server, log, famedly, users[..i + 1]) == before + ImportSteps(server, log + before, famedly, users[i]).0
  {
    assert users[..i + 1][..i] == users[..i];
  }

  /** Every user is attempted, in order: the create calls are exactly the users' requests. */
  lemma {:induction false} ImportAllAttemptsEveryone(server: Server, log: seq<Call>, famedly: FamedlyConfig, users: seq<User>)
    ensures |Creates(ImportAll(server, log, famedly, users))| == |users|
    ensures forall i :: 0 <= i < |users| ==> Creates(ImportAll(server, log, famedly, users))[i] == ToImportRequest(users[i])
    decreases |users|
  {
    if users != [] {
      var init := users[..|users| - 1];
      var before := ImportAll(server, log, famedly, init);
      ImportAllAttemptsEveryone(server, log, famedly, init);
      CreatesConcat(before, ImportSteps(server, log + before, famedly, users[|users| - 1]).0);
      CreatesOfImport(server, log + before, famedly, users[|users| - 1]);
    }
  }

  /** The high-level client: the Zitadel client and the configuration. */
  class Importer {
    const client: Client
    const config: Config

    constructor(client: Client, config: Config)
      ensures this.client == client && this.config == config
    {
      this.client := client;
      this.config := config;
    }

    /** `import_user`: create, store the preferred username, grant the role; stop at the first failure. */
    method ImportUser(u: User) returns (r: Result<(), Error>)
      modifies client
      ensures client.log == old(client.log) + ImportSteps(client.server, old(client.log), config.famedly, u).0
      ensures r == ImportSteps(client.server, old(client.log), config.famedly, u).1
    {
      ghost var log0 := client.log;
      var org := config.famedly.organizationId;
      var create := CreateHumanUser(org, ToImportRequest(u));
      var id := client.Send(create);
      if id.Err? {
        return Err(id.error);
      }
      var meta := SetUserMetadata(org, id.value, PREFERRED_USERNAME_KEY, u.preferredUsername);
      var stored := client.Send(meta);
      if stored.Err? {
        assert client.log == log0 + [create, meta];
        return Err(stored.error);
      }
      assert client.log == log0 + [create, meta];
      var grant := AddUserGrant(org, id.value, config.famedly.projectId, [FAMEDLY_USER_ROLE]);
      var granted := client.Send(grant);
      assert client.log == log0 + [create, meta, grant];
      if granted.Err? {
        return Err(granted.error);
      }
      return Ok(());
    }

    /** The `for` loop of `import_new_users`: each user is imported in turn, whatever the earlier imports returned. */
    method ImportEach(users: seq<User>)
      modifies client
      ensures client.log == old(client.log) + ImportAll(client.server, old(client.log), config.famedly, users)
    {
      ghost var log0 := client.log;
      var i := 0;
      while i < |users|
        invariant 0 <= i <= |users|
        invariant client.log == log0 + ImportAll(client.server, log0, config.famedly, users[..i])
        decreases |users| - i
      {
        ghost var before := ImportAll(client.server, log0, config.famedly, users[..i]);
        ImportAllSnoc(client.server, log0, config.famedly, users, i);
        var _ := ImportUser(users[i]);
        Associative(log0, before, ImportSteps(client.server, log0 + before, config.famedly, users[i]).0);
        i := i + 1;
      }
      assert users[..i] == users;
    }

    /**
     * `import_new_users`: the enabled users that parse are imported one
     * after another, a failed import does not stop the others, and the
     * result is success.
     */
    method ImportNewUsers(entries: seq<SearchEntry>) returns (r: Result<(), Error>)
      modifies client
      ensures r == Ok(())
      ensures client.log == old(client.log) + ImportAll(client.server, old(client.log), config.famedly, Partition(entries, config).0)
    {
      var (users, _) := Partition(entries, config);
      ImportEach(users);
      return Ok(());
    }
  }
}
