/**
 * The crate's user record and how it is read from a directory entry and
 * turned into a Zitadel create-user request.
 */
module Users {
  import opened Bytes
  import opened Wrappers
  import opened Errors
  import opened Int32
  import Utf8
  import Base64
  import opened Directory
  import opened Config
  import opened ZitadelClient

  /** An attribute value: text, or bytes that need not be valid UTF-8. */
  datatype StringOrBytes = String(text: string) | Bytes(bytes: seq<uint8>)

  /** The octets a value stands for: a string's UTF-8 encoding, or the bytes themselves. */
  function AsBytes(v: StringOrBytes): seq<uint8> {
    match v
    case String(s) => Utf8.Encode(s)
    case Bytes(b) => b
  }

  /** Equality of values, comparing a string with bytes through its UTF-8 encoding. */
  predicate Eq(a: StringOrBytes, b: StringOrBytes) {
    match (a, b)
    case (String(s), String(o)) => s == o
    case (String(s), Bytes(o)) => Utf8.Encode(s) == o
    case (Bytes(s), String(o)) => s == Utf8.Encode(o)
    case (Bytes(s), Bytes(o)) => s == o
  }

  /** Two values are equal exactly when they stand for the same octets, whatever their tags. */
  lemma EqIffSameBytes(a: StringOrBytes, b: StringOrBytes)
    ensures Eq(a, b) <==> AsBytes(a) == AsBytes(b)
  {
    if a.String? && b.String? && AsBytes(a) == AsBytes(b) {
      Utf8.EncodeInjective(a.text, b.text);
    }
  }

  /** The equality is reflexive, symmetric and transitive. */
  lemma EqIsEquivalence(a: StringOrBytes, b: StringOrBytes, c: StringOrBytes)
    ensures Eq(a, a)
    ensures Eq(a, b) ==> Eq(b, a)
    ensures Eq(a, b) && Eq(b, c) ==> Eq(a, c)
  {
    EqIffSameBytes(a, a);
    EqIffSameBytes(a, b);
    EqIffSameBytes(b, a);
    EqIffSameBytes(b, c);
    EqIffSameBytes(a, c);
  }

  /** A string equals the bytes of its UTF-8 encoding. */
  lemma StringEqItsBytes(s: string)
    ensures Eq(String(s), Bytes(Utf8.Encode(s)))
    ensures Eq(Bytes(Utf8.Encode(s)), String(s))
  {
  }

  /** How a value is shown: a string as it is, bytes in standard padded base64. */
  function ToString(v: StringOrBytes): string {
    match v
    case String(s) => s
    case Bytes(b) => Base64.Encode(b)
  }

  /** What is shown can be read back: the string itself, or base64 that decodes to the bytes. */
  lemma ToStringRecoverable(v: StringOrBytes)
    ensures v.String? ==> ToString(v) == v.text
    ensures v.Bytes? ==> Base64.Decode(ToString(v)) == Some(v.bytes)
  {
    if v.Bytes? {
      Base64.DecodeEncode(v.bytes);
    }
  }

  /** Values that compare equal need not be shown alike: the tag decides the form. */
  lemma EqualValuesShownDifferently()
    ensures Eq(String("A"), Bytes([0x41]))
    ensures ToString(String("A")) == "A" && ToString(Bytes([0x41])) == "QQ=="
  {
    assert Utf8.Encode("A") == [0x41];
  }

  /** An attribute read failure: the mapping's name and the entry's DN. */
  function Missing(entry: SearchEntry, m: AttributeMapping): Error {
    MissingValues(Config.Display(m), entry.dn)
  }

  /**
   * One attribute of an entry. A binary mapping takes the first binary
   * value and otherwise the first text value's bytes; any other mapping
   * takes the first text value as a string.
   */
  function ReadEntry(entry: SearchEntry, m: AttributeMapping): (r: Result<StringOrBytes, Error>)
    ensures r.Err? ==> r.error == Missing(entry, m)
    ensures r.Ok? && !IsBinary(m) ==> r.value.String?
    ensures r.Ok? && IsBinary(m) ==> r.value.Bytes?
  {
    if IsBinary(m) then
      match BinAttrFirst(entry, m.name)
      case Some(b) => Ok(Bytes(b))
      case None =>
        match AttrFirst(entry, m.name)
        case Some(s) => Ok(Bytes(Utf8.Encode(s)))
        case None => Err(Missing(entry, m))
    else
      match AttrFirst(entry, m.name)
      case Some(s) => Ok(String(s))
      case None => Err(Missing(entry, m))
  }

  /** A text mapping reads the first text value, fails without one, and never looks at binary values. */
  lemma ReadEntryText(entry: SearchEntry, m: AttributeMapping, binAttrs: map<string, seq<seq<uint8>>>)
    requires !IsBinary(m)
    ensures ReadEntry(entry, m).Ok? <==> m.name in entry.attrs && |entry.attrs[m.name]| > 0
    ensures ReadEntry(entry, m).Ok? ==> ReadEntry(entry, m).value == String(entry.attrs[m.name][0])
    ensures ReadEntry(entry.(binAttrs := binAttrs), m) == ReadEntry(entry, m)
  {
  }

  /** A binary mapping prefers the first binary value, falls back to the first text value's bytes, and fails without either. */
  lemma ReadEntryBinary(entry: SearchEntry, m: AttributeMapping)
    requires IsBinary(m)
    ensures var hasBin := m.name in entry.binAttrs && |entry.binAttrs[m.name]| > 0;
      var hasText := m.name in entry.attrs && |entry.attrs[m.name]| > 0;
      && (ReadEntry(entry, m).Ok? <==> hasBin || hasText)
      && (hasBin ==> ReadEntry(entry, m).value == Bytes(entry.binAttrs[m.name][0]))
      && (!hasBin && hasText ==> ReadEntry(entry, m).value == Bytes(Utf8.Encode(entry.attrs[m.name][0])))
  {
  }

  /** Without binary values, a binary mapping reads a value equal to what the text mapping of the same name reads. */
  lemma ReadEntryFallbackEq(entry: SearchEntry, name: string)
    requires name !in entry.binAttrs
    ensures var bin := ReadEntry(entry, OptionalBinary(name, true));
      var text := ReadEntry(entry, NoBinaryOption(name));
      bin.Ok? == text.Ok? && (bin.Ok? ==> Eq(bin.value, text.value))
  {
  }

  /** The status as an `i32`: decimal text, or exactly four octets, most significant first. */
  function DecodeStatus(v: StringOrBytes): (r: Result<int32, Error>)
    ensures v.Bytes? ==> (r.Ok? <==> |v.bytes| == 4)
  {
    match v
    case String(s) =>
      (match ParseI32(s)
       case Ok(n) => Ok(n)
       case Err(kind) => Err(ParseInt(kind)))
    case Bytes(b) =>
      if |b| == 4 then Ok(FromBeBytes(b)) else Err(StatusLength(|b|))
  }

  /** Every status survives both of the forms the directory may hold it in. */
  lemma DecodeStatusRoundTrip(n: int32)
    ensures DecodeStatus(String(FormatI32(n))) == Ok(n)
    ensures DecodeStatus(Bytes(ToBeBytes(n))) == Ok(n)
  {
    ParseFormat(n);
    FromToBeBytes(n);
  }

  /** A decoded status was a decimal numeral and is its value, or four octets that are its big-endian form. */
  lemma DecodeStatusAccepts(v: StringOrBytes)
    requires DecodeStatus(v).Ok?
    ensures v.String? ==> IsDecimal(v.text) && DecodeStatus(v).value == SignedDecimalValue(v.text)
    ensures v.Bytes? ==> ToBeBytes(DecodeStatus(v).value) == v.bytes
  {
    if v.String? {
      ParseDecimal(v.text);
    } else {
      ToFromBeBytes(v.bytes);
    }
  }

  /**
   * A text status decodes exactly when it is an optionally signed numeral
   * whose value fits in an `i32`; a numeral outside the range is reported
   * as the overflow on its side, and anything else as a parse error.
   */
  lemma DecodeStatusText(s: string)
    ensures DecodeStatus(String(s)).Ok? <==> IsDecimal(s) && MIN <= SignedDecimalValue(s) <= MAX
    ensures DecodeStatus(String(s)).Ok? ==> DecodeStatus(String(s)).value == SignedDecimalValue(s)
    ensures IsDecimal(s) && SignedDecimalValue(s) > MAX ==> DecodeStatus(String(s)) == Err(ParseInt(PosOverflow))
    ensures IsDecimal(s) && SignedDecimalValue(s) < MIN ==> DecodeStatus(String(s)) == Err(ParseInt(NegOverflow))
    ensures DecodeStatus(String(s)).Err? ==> DecodeStatus(String(s)).error.ParseInt?
  {
    ParseDecimal(s);
  }

  /** Some mask has a bit in common with the status. */
  function AnyIntersects(status: int32, masks: seq<int32>): (r: bool)
    ensures r <==> exists i :: 0 <= i < |masks| && And(status, masks[i]) != 0
  {
    if masks == [] then false
    else if And(status, masks[0]) != 0 then true
    else
      var rest := AnyIntersects(status, masks[1..]);
      assert forall i :: 1 <= i < |masks| ==> masks[i] == masks[1..][i - 1];
      rest
  }

  /** A user is enabled when no disable mask shares a bit with the status. */
  predicate StatusEnabled(status: int32, masks: seq<int32>) {
    !AnyIntersects(status, masks)
  }

  /** Enabled exactly when every mask is bitwise disjoint from the status; with no masks, always. */
  lemma StatusEnabledIff(status: int32, masks: seq<int32>)
    ensures StatusEnabled(status, masks) <==> forall i :: 0 <= i < |masks| ==> Disjoint(Unsigned(status), Unsigned(masks[i]), 32)
    ensures masks == [] ==> StatusEnabled(status, masks)
  {
    forall i | 0 <= i < |masks| {
      AndZero(status, masks[i]);
    }
  }

  /** With the ACCOUNTDISABLE bit (2) as the only mask, 512 is enabled and 514 is not. */
  lemma AccountDisableMask()
    ensures StatusEnabled(512, [2])
    ensures !StatusEnabled(514, [2])
  {
    assert And(512, 2) == 0;
    assert And(514, 2) != 0;
  }

  /** The crate's user. */
  datatype User = User(
    firstName: StringOrBytes,
    lastName: StringOrBytes,
    preferredUsername: StringOrBytes,
    email: StringOrBytes,
    ldapId: StringOrBytes,
    phone: Option<StringOrBytes>,
    enabled: bool,
    needsEmailVerification: bool,
    needsPhoneVerification: bool,
    idpId: Option<string>)

  /** The status attribute read and decoded. */
  function ReadStatus(entry: SearchEntry, attrs: LdapAttributesMapping): Result<int32, Error> {
    var v :- ReadEntry(entry, attrs.status);
    DecodeStatus(v)
  }

  /** The attributes a user cannot lack, in the order they are read: all but the phone. */
  function Required(attrs: LdapAttributesMapping): seq<AttributeMapping> {
    [attrs.firstName, attrs.lastName, attrs.preferredUsername, attrs.email, attrs.userId]
  }

  /** The `k`th required attribute is the first one that cannot be read. */
  predicate FirstMissing(entry: SearchEntry, attrs: LdapAttributesMapping, k: nat)
    requires k < 5
  {
    && ReadEntry(entry, Required(attrs)[k]).Err?
    && forall j :: 0 <= j < k ==> ReadEntry(entry, Required(attrs)[j]).Ok?
  }

  /**
   * A user from the outcomes of reading its attributes: the status first,
   * then the five required attributes; the first failure is the result.
   * A phone that could not be read is absent, not an error.
   */
  function Assemble(
    status: Result<int32, Error>,
    firstName: Result<StringOrBytes, Error>, lastName: Result<StringOrBytes, Error>,
    preferredUsername: Result<StringOrBytes, Error>, email: Result<StringOrBytes, Error>,
    userId: Result<StringOrBytes, Error>, phone: Result<StringOrBytes, Error>,
    masks: seq<int32>, needsEmailVerification: bool, needsPhoneVerification: bool, idpId: Option<string>): Result<User, Error>
  {
    var s :- status;
    var f :- firstName;
    var l :- lastName;
    var p :- preferredUsername;
    var e :- email;
    var u :- userId;
    Ok(User(
      f, l, p, e, u,
      if phone.Ok? then Some(phone.value) else None,
      StatusEnabled(s, masks),
      needsEmailVerification, needsPhoneVerification, idpId))
  }

  /** Outcome `k` is the first that failed. */
  predicate FirstFailure<T>(outcomes: seq<Result<T, Error>>, k: int) {
    && 0 <= k < |outcomes|
    && outcomes[k].Err?
    && forall j :: 0 <= j < k ==> outcomes[j].Ok?
  }

  /** The first failed outcome, in the order of the arguments, is the error. */
  lemma AssembleFirstError(
    status: Result<int32, Error>,
    firstName: Result<StringOrBytes, Error>, lastName: Result<StringOrBytes, Error>,
    preferredUsername: Result<StringOrBytes, Error>, email: Result<StringOrBytes, Error>,
    userId: Result<StringOrBytes, Error>, phone: Result<StringOrBytes, Error>,
    masks: seq<int32>, needsEmailVerification: bool, needsPhoneVerification: bool, idpId: Option<string>)
    requires Assemble(
      status, firstName, lastName, preferredUsername, email, userId, phone,
      masks, needsEmailVerification, needsPhoneVerification, idpId).Err?
    ensures var e := Assemble(
      status, firstName, lastName, preferredUsername, email, userId, phone,
      masks, needsEmailVerification, needsPhoneVerification, idpId).error;
      var required := [firstName, lastName, preferredUsername, email, userId];
      || (status.Err? && e == status.error)
      || (status.Ok? && exists k :: FirstFailure(required, k) && e == required[k].error)
  {
    var required := [firstName, lastName, preferredUsername, email, userId];
    if status.Ok? {
      if firstName.Err? {
        assert required[0].Err?;
      } else if lastName.Err? {
        assert required[1].Err?;
      } else if preferredUsername.Err? {
        assert required[2].Err?;
      } else if email.Err? {
        assert required[3].Err?;
      } else {
        assert required[4].Err?;
      }
    }
  }

  /** A user from a directory entry, each field read through its mapping. */
  function FromSearchEntry(
    entry: SearchEntry, attrs: LdapAttributesMapping,
    needsEmailVerification: bool, needsPhoneVerification: bool, idpId: Option<string>): Result<User, Error>
  {
    Assemble(
      ReadStatus(entry, attrs),
      ReadEntry(entry, attrs.firstName), ReadEntry(entry, attrs.lastName),
      ReadEntry(entry, attrs.preferredUsername), ReadEntry(entry, attrs.email),
      ReadEntry(entry, attrs.userId), ReadEntry(entry, attrs.phone),
      attrs.disableBitmasks, needsEmailVerification, needsPhoneVerification, idpId)
  }

  /**
   * The parse succeeds exactly when the status and all five required
   * attributes can be read; each field is then the value read for it, and
   * the phone is present exactly when it can be read.
   */
  lemma FromSearchEntryFields(
    entry: SearchEntry, attrs: LdapAttributesMapping,
    needsEmailVerification: bool, needsPhoneVerification: bool, idpId: Option<string>)
    ensures var r := FromSearchEntry(entry, attrs, needsEmailVerification, needsPhoneVerification, idpId);
      && (r.Ok? <==> ReadStatus(entry, attrs).Ok? && forall m :: m in Required(attrs) ==> ReadEntry(entry, m).Ok?)
      && (r.Ok? ==>
        && r.value.enabled == StatusEnabled(ReadStatus(entry, attrs).value, attrs.disableBitmasks)
        && r.value.firstName == ReadEntry(entry, attrs.firstName).value
        && r.value.lastName == ReadEntry(entry, attrs.lastName).value
        && r.value.preferredUsername == ReadEntry(entry, attrs.preferredUsername).value
        && r.value.email == ReadEntry(entry, attrs.email).value
        && r.value.ldapId == ReadEntry(entry, attrs.userId).value
        && (r.value.phone.Some? <==> ReadEntry(entry, attrs.phone).Ok?)
        && (r.value.phone.Some? ==> r.value.phone.value == ReadEntry(entry, attrs.phone).value)
        && r.value.needsEmailVerification == needsEmailVerification
        && r.value.needsPhoneVerification == needsPhoneVerification
        && r.value.idpId == idpId)
  {
    var req := Required(attrs);
    assert forall m :: m in req ==> m == req[0] || m == req[1] || m == req[2] || m == req[3] || m == req[4];
  }

  /** `User::try_from_search_entry`: verification flags and the identity provider come from the configuration. */
  function TryFromSearchEntry(entry: SearchEntry, config: SyncConfig): Result<User, Error>
  {
    FromSearchEntry(
      entry, config.attributes,
      IsEnabled(config.featureFlags, VerifyEmail), IsEnabled(config.featureFlags, VerifyPhone),
      if IsEnabled(config.featureFlags, SsoLogin) then Some(config.idpId) else None)
  }

  /** The configuration decides the verification flags and whether the user is linked to the configured IdP. */
  lemma TryFromSearchEntryFlags(entry: SearchEntry, config: SyncConfig)
    ensures var r := TryFromSearchEntry(entry, config);
      && (r.Ok? <==> ReadStatus(entry, config.attributes).Ok? && forall m :: m in Required(config.attributes) ==> ReadEntry(entry, m).Ok?)
      && (r.Ok? ==>
        && r.value.needsEmailVerification == (VerifyEmail in config.featureFlags)
        && r.value.needsPhoneVerification == (VerifyPhone in config.featureFlags)
        && (r.value.idpId.Some? <==> SsoLogin in config.featureFlags)
        && (r.value.idpId.Some? ==> r.value.idpId.value == config.idpId))
  {
    FromSearchEntryFields(
      entry, config.attributes,
      IsEnabled(config.featureFlags, VerifyEmail), IsEnabled(config.featureFlags, VerifyPhone),
      if IsEnabled(config.featureFlags, SsoLogin) then Some(config.idpId) else None);
  }

  /** A failed parse reports the status error, or else the first required attribute that is missing. */
  lemma FirstErrorReported(
    entry: SearchEntry, attrs: LdapAttributesMapping,
    needsEmailVerification: bool, needsPhoneVerification: bool, idpId: Option<string>)
    requires FromSearchEntry(entry, attrs, needsEmailVerification, needsPhoneVerification, idpId).Err?
    ensures var e := FromSearchEntry(entry, attrs, needsEmailVerification, needsPhoneVerification, idpId).error;
      || (ReadStatus(entry, attrs).Err? && e == ReadStatus(entry, attrs).error)
      || (ReadStatus(entry, attrs).Ok? && exists k :: 0 <= k < 5 && FirstMissing(entry, attrs, k) && e == Missing(entry, Required(attrs)[k]))
  {
    var req := Required(attrs);
    var outcomes := [
      ReadEntry(entry, attrs.firstName), ReadEntry(entry, attrs.lastName), ReadEntry(entry, attrs.preferredUsername),
      ReadEntry(entry, attrs.email), ReadEntry(entry, attrs.userId)];
    AssembleFirstError(
      ReadStatus(entry, attrs), outcomes[0], outcomes[1], outcomes[2], outcomes[3], outcomes[4],
      ReadEntry(entry, attrs.phone), attrs.disableBitmasks, needsEmailVerification, needsPhoneVerification, idpId);
    assert forall k :: 0 <= k < 5 ==> outcomes[k] == ReadEntry(entry, req[k]);
  }

  /** A missing phone leaves the user otherwise as it would be: it only makes the phone absent. */
  lemma PhoneIsOptional(
    entry: SearchEntry, attrs: LdapAttributesMapping,
    needsEmailVerification: bool, needsPhoneVerification: bool, idpId: Option<string>)
    requires attrs.phone.name !in entry.attrs && attrs.phone.name !in entry.binAttrs
    requires ReadStatus(entry, attrs).Ok?
    requires forall m :: m in Required(attrs) ==> ReadEntry(entry, m).Ok?
    ensures var r := FromSearchEntry(entry, attrs, needsEmailVerification, needsPhoneVerification, idpId);
      r.Ok? && r.value.phone == None
  {
    FromSearchEntryFields(entry, attrs, needsEmailVerification, needsPhoneVerification, idpId);
  }

  /** "last, first", each part shown by `ToString`. */
  function GetDisplayName(u: User): (r: string)
    ensures var last, first := ToString(u.lastName), ToString(u.firstName);
      |r| == |last| + 2 + |first| && r[..|last|] == last && r[|last|..|last| + 2] == ", " && r[|last| + 2..] == first
  {
    ToString(u.lastName) + ", " + ToString(u.firstName)
  }

  /** The name logs use for a user, also how a user is displayed: `email=` and the shown email. */
  function LogName(u: User): (r: string)
    ensures |r| == 6 + |ToString(u.email)| && r[..6] == "email=" && r[6..] == ToString(u.email)
  {
    "email=" + ToString(u.email)
  }

  /** No identity-provider link without an IdP id; otherwise exactly one, for the user's id and display name. */
  function GetIdps(u: User): (r: seq<Idp>)
    ensures |r| == 0 <==> u.idpId.None?
    ensures u.idpId.Some? ==> r == [Idp(u.idpId.value, ToString(u.ldapId), GetDisplayName(u))]
  {
    match u.idpId
    case Some(id) => [Idp(id, ToString(u.ldapId), GetDisplayName(u))]
    case None => []
  }

  /** The create-user request for a user. */
  function ToImportRequest(u: User): (r: ImportHumanUserRequest)
    ensures r.userName == ToString(u.email)
    ensures r.profile == Some(Profile(
      ToString(u.firstName), ToString(u.lastName), GetDisplayName(u), GENDER_UNSPECIFIED, ToString(u.ldapId), ""))
    ensures r.email == Some(Email(ToString(u.email), !u.needsEmailVerification))
    ensures r.phone.None? <==> u.phone.None?
    ensures u.phone.Some? ==> r.phone == Some(Phone(ToString(u.phone.value), !u.needsPhoneVerification))
    ensures r.password == "" && r.hashedPassword == None && !r.passwordChangeRequired
    ensures r.requestPasswordlessRegistration && r.otpCode == ""
    ensures r.idps == GetIdps(u)
  {
    ImportHumanUserRequest(
      ToString(u.email),
      Some(Profile(ToString(u.firstName), ToString(u.lastName), GetDisplayName(u), GENDER_UNSPECIFIED, ToString(u.ldapId), "")),
      Some(Email(ToString(u.email), !u.needsEmailVerification)),
      match u.phone
      case Some(p) => Some(Phone(ToString(p), !u.needsPhoneVerification))
      case None => None,
      "", None, false, true, "", GetIdps(u))
  }

  /**
   * From an entry to a request: the email is verified unless the
   * configuration asks for verification, the request has a phone exactly
   * when the entry's phone could be read, and an IdP link exactly when
   * single sign-on is enabled.
   */
  lemma RequestFromEntry(entry: SearchEntry, config: SyncConfig)
    requires TryFromSearchEntry(entry, config).Ok?
    ensures var r := ToImportRequest(TryFromSearchEntry(entry, config).value);
      && r.email.value.isEmailVerified == (VerifyEmail !in config.featureFlags)
      && (r.phone.Some? <==> ReadEntry(entry, config.attributes.phone).Ok?)
      && (r.phone.Some? ==> r.phone.value.isPhoneVerified == (VerifyPhone !in config.featureFlags))
      && (|r.idps| == 1 <==> SsoLogin in config.featureFlags)
      && (|r.idps| == 0 <==> SsoLogin !in config.featureFlags)
  {
    TryFromSearchEntryFlags(entry, config);
    FromSearchEntryFields(
      entry, config.attributes,
      IsEnabled(config.featureFlags, VerifyEmail), IsEnabled(config.featureFlags, VerifyPhone),
      if IsEnabled(config.featureFlags, SsoLogin) then Some(config.idpId) else None);
  }

  /** Text names "Bob" and "Tables" give the display name "Tables, Bob". */
  lemma DisplayNameOfTextNames(u: User)
    requires u.firstName == String("Bob") && u.lastName == String("Tables")
    ensures GetDisplayName(u) == "Tables, Bob"
  {
  }

  /**
   * A binary attribute holding octets that are not UTF-8 (`A0 A1`) is
   * read as those bytes, shown as `oKE=`, and that decodes back to them.
   */
  lemma BinaryAttributeRoundTrip(entry: SearchEntry, name: string)
    requires name in entry.binAttrs && entry.binAttrs[name] == [[0xA0, 0xA1]]
    ensures ReadEntry(entry, OptionalBinary(name, true)) == Ok(Bytes([0xA0, 0xA1]))
    ensures ToString(Bytes([0xA0, 0xA1])) == "oKE="
    ensures Base64.Decode("oKE=") == Some([0xA0, 0xA1])
  {
    assert Base64.Sextets(0xA0, 0xA1, 0) == (40, 10, 4, 0);
    assert Base64.Alphabet(40) == 'o' && Base64.Alphabet(10) == 'K' && Base64.Alphabet(4) == 'E';
    assert Base64.Encode([0xA0, 0xA1]) == "oKE=";
    ToStringRecoverable(Bytes([0xA0, 0xA1]));
  }

  /**
   * A binary mapping whose value is valid UTF-8 (so the directory
   * reports it as text) still yields bytes, and those survive being shown.
   */
  lemma TextValueUnderBinaryMapping(entry: SearchEntry, name: string)
    requires name !in entry.binAttrs && name in entry.attrs && entry.attrs[name] == ["validutf8"]
    ensures ReadEntry(entry, OptionalBinary(name, true)) == Ok(Bytes(Utf8.Encode("validutf8")))
    ensures Base64.Decode(ToString(Bytes(Utf8.Encode("validutf8")))) == Some(Utf8.Encode("validutf8"))
  {
    ToStringRecoverable(Bytes(Utf8.Encode("validutf8")));
  }
}
