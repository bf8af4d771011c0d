# ldap-sync core, modelled in Dafny

`ldap-sync` copies users from an LDAP directory (or a CSV file) into a
Zitadel instance. This project models the part of it that does the real
work: directory entries become canonical users, and the poller's stream of
change events is sorted into added, changed and removed users. It also
models the request each user is turned into, the CSV source, and the
older import, which creates each user, stores its metadata and grants its
role. The model proves properties of all of these.

Modules, from the bottom up:

- `Wrappers`, `Bytes`, `Errors`. `Option`, a `Result` that supports `:-`
  (Rust's `?`), octets, and one error datatype. The error type stands in for
  `anyhow::Error` and has one constructor per way the modelled code builds
  an error.
- `Utf8`, `Base64`, `Int32`. The library behaviour the core relies on:
  - `str::as_bytes` and `String::from_utf8` (RFC 3629, section 3);
  - the `base64` crate's standard engine (RFC 4648, section 4: standard
    alphabet, with `=` padding, which the decoder requires);
  - `str::parse::<i32>`, `i32::from_be_bytes`, and two's-complement `&` on
    `i32`.

  The UTF-8 codec, the base64 codec and the big-endian octet conversion are
  each proved against their inverses, in both directions. `parse::<i32>` is
  proved against an independent definition of a numeral's value: it accepts
  exactly the optionally signed runs of digits whose value fits in an `i32`,
  returns that value, and reports the overflow on the side the value leaves
  the range. `&` has no inverse. It is proved against a bit-by-bit
  definition of disjointness.
- `Directory`. The poller's values: a search entry with text and binary
  attribute maps, `attr_first`/`bin_attr_first`, the `New`/`Changed`/`Removed`
  events, and the events of each kind, in order.
- `Config`, `LegacyConfig`, `ZitadelClient`. Configuration records of the
  two configuration generations, and the create-user request.
- `Users` (`src/user.rs`). `StringOrBytes` equality and display, mapping
  resolution, status decoding, the disable-mask test, the user parse, and
  the request.
- `SourcesLdap` (`src/sources/ldap.rs`). `parse_user`, the
  `get_user_changes` fold as a loop proved against a fold function, and
  `get_all_changes`.
- `SourceLdap` (`src/source_ldap.rs`). `get_all_changes`, which returns the
  tuple, and `get_removed_user_emails`.
- `Csv` (`src/sources/csv.rs`). `to_user`, row filtering in `read_csv`, and
  `get_diff`.
- `Zitadel` (`src/zitadel.rs`). The text-only parse and request, the
  partition of entries in `import_new_users`, and a `Client` object that
  logs every call it is sent. `ImportUser` and `ImportNewUsers` are methods
  proved against the call log.
- `Lib` (`src/lib.rs`). The first, total version of the event sort.

Some code appears more than once in the repository, and each copy is
modelled once:

- `read_entry` in `src/user.rs` and `read_search_entry` in
  `src/sources/ldap.rs` and `src/source_ldap.rs` are the same text. All
  three are `Users.ReadEntry`.
- The status decoding and the mask test are shared the same way.
- `parse_user` is the same in both source files, except that
  `src/sources/ldap.rs` asks `feature_flags.is_enabled` for the verification
  flags and `src/source_ldap.rs` asks `require_email_verification` and
  `require_phone_verification`. Both lookups are modelled as "the flag is in
  the configured list", so the two are `SourcesLdap.ParseUser`, a call of
  `Users.FromSearchEntry` with the feature-flag values.
- `get_user_changes` is identical in both source files and is modelled
  once, in `SourcesLdap`.

Each source file keeps its own record types: `Users.User`, `Csv.User` and
`Zitadel.User`, because the files come from different revisions.

Things the model takes as parameters instead of performing:

- Reading the cache and the outcome of the poller's sync task are
  arguments of `GetAllChanges`.
- Opening the CSV file, and the outcome of deserialising each record, are
  arguments of `ReadCsv`.
- Zitadel's answers come from a `Server` function of the calls made so far.

## Model

| member | source | states |
|---|---|---|
| Users.EqIffSameBytes | src/user.rs:167-176 | two values are equal exactly when their UTF-8 or raw bytes are the same, in all four tag combinations |
| Users.EqIsEquivalence | src/user.rs:167-176 | the cross-tag equality is reflexive, symmetric and transitive |
| Users.StringEqItsBytes | src/user.rs:170-171 | `String(s)` equals `Bytes(utf8(s))`, in both argument orders |
| Users.ToStringRecoverable | src/user.rs:178-185 | a string is shown as itself; bytes are shown as base64 that decodes back to exactly those bytes |
| Users.EqualValuesShownDifferently | src/user.rs:167-185 | `String("A")` and `Bytes([0x41])` are equal but are shown as `A` and `QQ==` |
| Users.ReadEntry | src/user.rs:51-73 | a failed read is the "missing values" error for the mapping's name and the entry's DN; a text mapping yields a string, a binary mapping yields bytes |
| Users.ReadEntryText | src/sources/ldap.rs:152-159 | a non-binary mapping succeeds iff the attribute has a text value, returns the first one, and does not depend on the binary values |
| Users.ReadEntryBinary | src/sources/ldap.rs:160-173 | a binary mapping succeeds iff there is a binary or a text value; binary comes first, then the first text value's UTF-8 bytes |
| Users.ReadEntryFallbackEq | src/source_ldap.rs:144-166 | without binary values, a binary mapping reads a value equal to what the text mapping reads |
| Users.DecodeStatus | src/user.rs:75-80 | a byte status decodes iff it is exactly four bytes long |
| Users.DecodeStatusRoundTrip | src/sources/ldap.rs:115-120 | every `i32` status decodes back from its decimal text and from its four big-endian bytes |
| Users.DecodeStatusAccepts | src/source_ldap.rs:107-112 | a text status that decodes is an optionally signed decimal numeral and the status is that numeral's value; decoded bytes are the value's big-endian form |
| Users.DecodeStatusText | src/user.rs:76 | a text status decodes iff it is an optionally signed numeral whose value fits in an `i32`, and then to that value; a numeral that does not fit is the positive or negative overflow error on its side; every other failure is a parse error |
| Users.AnyIntersects | src/user.rs:81-82 | true iff some mask ANDs with the status to non-zero |
| Users.StatusEnabledIff | src/sources/ldap.rs:121-126 | enabled iff every mask is bitwise disjoint from the status; an empty mask list is always enabled |
| Users.AccountDisableMask | src/sources/ldap.rs:310-313 | with mask 2 (ACCOUNTDISABLE), status 512 is enabled and 514 is disabled |
| Users.AssembleFirstError | src/user.rs:75-89 | a failed parse reports the status error, or else the first failed required attribute |
| Users.FromSearchEntryFields | src/user.rs:75-105 | the parse succeeds iff the status and the five required attributes can be read; every field is the value read; phone is present iff it can be read; `enabled` follows the masks |
| Users.TryFromSearchEntryFlags | src/user.rs:99-104 | verification flags follow the feature flags; `idp_id` is set, to the configured id, iff SSO login is on |
| Users.FirstErrorReported | src/user.rs:75-88 | a failed parse from an entry reports the status error, or the missing-values error of the first required attribute that is missing |
| Users.PhoneIsOptional | src/user.rs:89 | when everything but the phone can be read, the parse succeeds with no phone |
| Users.Eq | src/user.rs:167-176 | two values are equal when their bytes are, a string counting as its UTF-8 encoding; the meaning is proved in `Users.EqIffSameBytes` and `Users.EqIsEquivalence` |
| Users.ToString | src/user.rs:178-185 | a string is shown as itself, bytes as their standard base64; the recovery is proved in `Users.ToStringRecoverable` |
| Users.ReadStatus | src/user.rs:75-80 | the status mapping is read, and then decoded as text or as four octets; its cases are proved in `Users.DecodeStatusText` and `Users.DecodeStatusAccepts` |
| Users.StatusEnabled | src/user.rs:81-82 | enabled when no mask shares a bit with the status; proved against bit disjointness in `Users.StatusEnabledIff` |
| Users.Assemble | src/user.rs:75-105 | the `?` chain over status, first name, last name, preferred name, email and id, with an optional phone; its error order is proved in `Users.AssembleFirstError` |
| Users.FromSearchEntry | src/user.rs:75-105 | each field read through its mapping; the fields are proved in `Users.FromSearchEntryFields` |
| Users.TryFromSearchEntry | src/user.rs:49-106 | the verification flags and the IdP id taken from the configuration; proved in `Users.TryFromSearchEntryFlags` |
| Users.GetDisplayName | src/user.rs:39-41 | the result is the shown last name, then `, `, then the shown first name |
| Users.LogName | src/user.rs:44-46 | the result is `email=` followed by the shown email |
| Users.GetIdps | src/user.rs:109-119 | empty iff there is no IdP id; otherwise one link carrying the shown LDAP id and the display name |
| Users.ToImportRequest | src/user.rs:122-149 | user name and email are the shown email; nick name is the shown LDAP id; verified flags are the negated needs-verification flags; phone is present iff the user has one; idps are `get_idps` |
| Users.RequestFromEntry | src/user.rs:99-149 | from an entry: the email is verified iff verification is not required; the request has a phone iff the phone attribute can be read; it has one IdP link iff SSO login is on |
| Users.DisplayNameOfTextNames | tests/e2e.rs:64 | first name Bob and last name Tables give `Tables, Bob` |
| Users.BinaryAttributeRoundTrip | tests/e2e.rs:537-541 | binary `A0 A1` is read as those bytes, shown as `oKE=`, and decodes back |
| Users.TextValueUnderBinaryMapping | tests/e2e.rs:598-602 | a UTF-8 value under a binary mapping is read as its bytes and survives display |
| Config.GetName | src/sources/ldap.rs:340-345 | both variants give their inner name |
| Config.Display | src/sources/ldap.rs:348-352 | display equals `get_name` |
| Directory.AttrFirst | src/sources/ldap.rs:156 | a value iff the attribute is present with a non-empty text list, and that value is the list's first element |
| Directory.BinAttrFirst | src/sources/ldap.rs:161 | the same for the binary list |
| Utf8.Encode | src/user.rs:170-171 | `str::as_bytes`: at least one octet per character; proved against `Utf8.Decode` in `Utf8.DecodeEncode` |
| Utf8.Decode | src/sources/ldap.rs:105 | `String::from_utf8`; proved against `Utf8.Encode` in `Utf8.EncodeDecode` |
| Utf8.DecodeEncode | src/user.rs:170-171 | decoding the UTF-8 encoding of a string gives the string back |
| Utf8.EncodeDecode | src/sources/ldap.rs:105 | whatever `from_utf8` accepts is the encoding of its result |
| Utf8.EncodeInjective | src/user.rs:170-171 | distinct strings have distinct encodings |
| Base64.Encode | src/user.rs:182 | four characters for every three octets or part of them; proved against `Base64.Decode` in `Base64.DecodeEncode` |
| Base64.Decode | tests/e2e.rs:539 | the standard engine's decoder; proved against `Base64.Encode` in `Base64.EncodeDecode` |
| Base64.DecodeEncode | src/user.rs:182 | decoding the standard padded base64 of any bytes gives them back |
| Base64.EncodeDecode | src/user.rs:182 | whatever the canonical decoder accepts is the encoding of its result |
| Int32.ParseI32 | src/user.rs:76 | `str::parse::<i32>`; proved against the numeral's value in `Int32.ParseDecimal` and against `to_string` in `Int32.ParseFormat` |
| Int32.FromBeBytes | src/user.rs:77-79 | `i32::from_be_bytes`; proved against `to_be_bytes` in `Int32.FromToBeBytes` and `Int32.ToFromBeBytes` |
| Int32.And | src/user.rs:82 | two's-complement `&`; proved against bit disjointness in `Int32.AndZero` |
| Int32.ParseFormat | src/user.rs:76 | `parse::<i32>` of `to_string(n)` is `n`, for every `i32` |
| Int32.ParseOnlyDecimal | src/user.rs:76 | only an optional sign followed by one or more digits parses |
| Int32.ParseDecimal | src/user.rs:76 | on any string: a non-numeral is an error; a numeral parses to its sign times its digits' value (leading zeros, `+` and `-0` included) when that fits in an `i32`, and is `PosOverflow` or `NegOverflow` on the side it leaves the range |
| Int32.AccumulateDigits | src/user.rs:76 | digit by digit from zero, the accumulation reaches the digits' value (negated for a negative number) or the overflow on the side where the value leaves the range |
| Int32.SignedDecimalValue | src/user.rs:76 | a numeral with a `-` sign has a value of at most zero, any other numeral a value of at least zero |
| Int32.FromToBeBytes | src/user.rs:77-79 | `from_be_bytes(to_be_bytes(n)) == n` |
| Int32.ToFromBeBytes | src/user.rs:77-79 | `to_be_bytes(from_be_bytes(b)) == b` for four bytes |
| Int32.AndZero | src/user.rs:82 | `a & b == 0` iff no bit of the 32 is set in both |
| SourcesLdap.ParseUser | src/sources/ldap.rs:114-148 | `Users.FromSearchEntry` with the feature-flag values and the given IdP id; its success condition and every field are proved in `SourcesLdap.ParseUserFields` |
| SourcesLdap.Route | src/sources/ldap.rs:93-108 | one step of the fold: push the parsed entry, the parsed pair or the decoded id onto its list; proved in `SourcesLdap.RouteOk` |
| SourcesLdap.Fold | src/sources/ldap.rs:87-111 | the fold over the events from three empty lists, passing an error on; its results are proved in `SourcesLdap.FoldOkIff`, `SourcesLdap.FoldFirstError` and `SourcesLdap.FoldAdded` to `SourcesLdap.FoldRemoved` |
| SourcesLdap.ParseUserFields | src/sources/ldap.rs:114-148 | parse succeeds iff the status and the five required attributes can be read; names, preferred username, email and LDAP id are the values read; verification flags come from the feature flags; `idp_id` is the argument; `enabled` follows the masks; the phone is present iff it can be read, and is then the value read |
| SourcesLdap.RouteOk | src/sources/ldap.rs:93-108 | one event routes iff its entries parse or its id is UTF-8; its error does not depend on the lists so far |
| SourcesLdap.FoldErrorSticks | src/sources/ldap.rs:92-93 | once a prefix of the events fails, the whole fold fails with that error |
| SourcesLdap.GetUserChanges | src/sources/ldap.rs:87-111 | the loop over the events computes exactly the fold; once a step fails the result is that first error, which every later step passes on |
| SourcesLdap.FoldOkIff | src/sources/ldap.rs:92-108 | the fold succeeds iff every event can be routed |
| SourcesLdap.FoldFirstError | src/sources/ldap.rs:92-108 | a failed fold carries the error of the first event that cannot be routed |
| SourcesLdap.FoldAdded | src/sources/ldap.rs:95-98 | on success, `added` is the parsed `New` entries, in order, one per event |
| SourcesLdap.FoldChanged | src/sources/ldap.rs:99-102 | on success, `changed` is the parsed (old, new) pairs of the `Changed` events, in order |
| SourcesLdap.FoldRemoved | src/sources/ldap.rs:103-106 | on success, `removed` is the UTF-8-decoded ids of the `Removed` events, in order |
| SourcesLdap.FoldCounts | src/sources/ldap.rs:92-108 | on success, the three lengths sum to the number of events |
| SourcesLdap.WrapChanged | src/sources/ldap.rs:79-83 | each pair becomes a `ChangedUser` with the same old and new user; order and length are kept |
| SourcesLdap.GetAllChanges | src/sources/ldap.rs:48-84 | a cache error comes first, then the fold's error, then the sync task's error; success iff none failed, carrying the fold's lists with the pairs wrapped |
| SourceLdap.GetAllChanges | src/source_ldap.rs:38-70 | the same error order; on success the fold's three lists as they are |
| SourceLdap.GetRemovedUserEmails | src/source_ldap.rs:72-74 | always the not-implemented error |
| Csv.ToUser | src/sources/csv.rs:77-87 | email, preferred username and external id are the row's email as text; phone is absent iff the column is empty; the user is enabled |
| Csv.ToRowToUser | src/sources/csv.rs:77-87 | the four columns can be read back from the user, so no column is lost |
| Csv.ToUserInjective | src/sources/csv.rs:77-87 | distinct rows give distinct users |
| Csv.ReadRows | src/sources/csv.rs:46-51 | at most one user per record; which users, and in which order, is proved in `Csv.ReadRowsMapsParsed` |
| Csv.ReadRowsMapsParsed | src/sources/csv.rs:46-51 | the users are `to_user` of exactly the records that deserialised, in order |
| Csv.ReadRowsConcat | src/sources/csv.rs:46-51 | records are read independently: the users of `a + b` are the users of `a` followed by those of `b` |
| Csv.ReadRowsAllFailed | src/sources/csv.rs:183-235 | a file with no record that deserialises (header only, or mismatched rows) gives an empty list, not an error |
| Csv.ReadRowsAllParsed | src/sources/csv.rs:140-181 | when every record deserialises, there is one user per record, in order |
| Csv.ReadCsv | src/sources/csv.rs:41-52 | an error iff the file cannot be opened, and with that error |
| Csv.GetDiff | src/sources/csv.rs:25-31 | success iff `read_csv` succeeds; new users are its result; changed and deleted are empty |
| Csv.MalformedRowSkipped | src/sources/csv.rs:237-265 | a malformed first record followed by a good one yields only the good one, with its email and last name |
| Csv.PhoneColumn | src/sources/csv.rs:175-180 | an empty phone column gives no phone; a filled one is kept as text |
| Zitadel.ReadEntry | src/zitadel.rs:123-136 | an absent key is the missing-attribute error; an empty list is the missing-values error; otherwise the first value |
| Zitadel.ReadEntryAgreesWithAttrFirst | src/zitadel.rs:123-136 | the reader succeeds iff `attr_first` finds a value, and returns the same value |
| Zitadel.DisplayName | src/zitadel.rs:147 | the last name, then `, `, then the first name |
| Zitadel.TryFromSearchEntry | src/zitadel.rs:121-171 | the `?` chain over the seven attributes, phone included; proved in `Zitadel.TryFromSearchEntryFields` |
| Zitadel.TryFromSearchEntryFields | src/zitadel.rs:121-171 | success iff all seven attributes can be read, phone included; fields are the values read; enabled iff status differs from the disable value; exactly one IdP link, to the user id under "last, first", iff SSO login is on |
| Zitadel.MissingPhoneFails | src/zitadel.rs:145 | a missing phone makes the parse fail with the phone's error |
| Zitadel.ToImportRequest | src/zitadel.rs:174-201 | user name and email are the user's email; the profile has the user's first and last names, display name "last, first", unspecified gender, empty nick name and empty preferred language; the request always has a phone; verified flags are the negated needs-verification flags; no password, no hash, no password change, passwordless registration requested, empty OTP code; idps are the user's |
| Zitadel.RequestFromEntry | src/zitadel.rs:138-201 | from an entry: email and phone are the values read; verified iff the configuration does not require verification; one IdP link iff SSO login is on |
| Zitadel.Classify | src/zitadel.rs:37-41 | an entry is dropped iff it parses to a disabled user; otherwise it is its parse outcome |
| Zitadel.Partition | src/zitadel.rs:35-42 | every user kept is enabled; users plus errors are at most the entries |
| Zitadel.PartitionConcat | src/zitadel.rs:35-42 | entries are classified independently: partitioning `a + b` is partitioning `a`, then `b` |
| Zitadel.PartitionOne | src/zitadel.rs:35-42 | a parse failure is reported, a disabled user disappears, an enabled user is kept |
| Zitadel.PartitionAllEnabled | src/zitadel.rs:35-42 | when all entries parse to enabled users, all of them are kept, in order, with no errors |
| Zitadel.ImportSteps | src/zitadel.rs:64-90 | the calls one `import_user` sends and how it ends; proved in `Zitadel.ImportStepsOrder` and `Zitadel.CreatesOfImport` |
| Zitadel.ImportAll | src/zitadel.rs:52-58 | the calls of the users' imports one after another, each seeing the calls before; proved in `Zitadel.ImportAllAttemptsEveryone` |
| Zitadel.ImportStepsOrder | src/zitadel.rs:64-90 | the calls are create, then `preferred_username` metadata for the new id, then the `User` role grant; the first failure stops the rest; success iff all three succeeded |
| Zitadel.CreatesOfImport | src/zitadel.rs:65-68 | one import sends exactly one create call, with the user's request |
| Zitadel.ImportAllAttemptsEveryone | src/zitadel.rs:52-58 | importing a list sends one create call per user, in order, whatever the earlier imports returned |
| Zitadel.Client.Send | src/zitadel.rs:65-87 | the call is appended to the log and answered by the server given the earlier calls |
| Zitadel.Importer.ImportUser | src/zitadel.rs:64-90 | the log grows by exactly the step calls, and the result is the step outcome |
| Zitadel.Importer.ImportNewUsers | src/zitadel.rs:34-61 | the enabled users that parse are imported one after another; the result is success |
| Zitadel.Importer.ImportEach | src/zitadel.rs:52-58 | each user in turn is imported with the log of the calls before; a failing user does not stop the loop |
| Directory.SplitConcat | src/lib.rs:34-47 | each event kind is picked out of a concatenation part by part |
| Directory.SplitCounts | src/lib.rs:34-47 | every event lands in exactly one of the three lists |
| Lib.NewSides | src/lib.rs:41 | the second entry of each pair, same length, same order |
| Lib.GetUserChanges | src/lib.rs:34-47 | `added` is the `New` entries; `changed` is the new sides of the `Changed` events; `removed` is the raw removed ids; no error path; lengths sum to the event count |
| Lib.OldEntryIgnored | src/lib.rs:41 | events that differ only in the old side of `Changed` events sort into the same lists |

## Left out

- `src/sources/ukt.rs`, `src/source_list.rs`, `src/main.rs`, `src/sources.rs`, `build.rs`: a network client, a stub, the entry point and a trait declaration. There is no modellable logic in them.
- Configuration loading: `src/config.rs` deserialisation, `Source::new` and `SourceLdap::new`, and `From<SourceLdapConfig>`/`From<LdapConfig>` into the poller's configuration. These are field copies into library types.
- Cache reading and writing, spawning and joining the poller task, and the dry-run switch around the cache write. These are file I/O and concurrency. Their outcomes are parameters of `GetAllChanges`.
- `Zitadel::new`, the construction of the client: network I/O. The `Client` class stands in for it.
- Logging through `tracing`, including the warning message in `import_new_users` and the per-user failure message.
- The CSV text format and the `csv` crate's deserialiser. Records arrive already deserialised, or as an error.
- `attr_first`/`bin_attr_first` (the `ldap_poller` crate is not part of this model): taken as the first element of the attribute's value list, when it is present and non-empty.
- `FeatureFlags::is_enabled`, `require_email_verification` and `require_phone_verification` are not part of this model. They are taken to mean that the flag is in the configured list.
- `From<String> for StringOrBytes` is not part of this model. The CSV conversion is taken to produce the `String` variant.
- `SourceDiff` is declared outside the files modelled here. `Csv.SourceDiff` takes its changed users as (old, new) pairs and its deleted ids as strings; the CSV source leaves both empty.
- `CsvSource::get_name` (`src/sources/csv.rs:21-23`) returns the constant `CSV`, which only names the source in log output.
- The text of `anyhow` error messages: each error is a constructor of `Errors.Error` carrying the message's arguments.
- The UUIDv5 localpart check in the end-to-end tests, and the enable/disable/update handling and invalid-phone retries they exercise. Their implementation is not part of this model.
- `Lib.GetUserChanges`: the unpolled stream is modelled as a finite sequence of events, consumed in order.
