/**
 * The LDAP source: parsing directory entries into users and sorting the
 * poller's change events into added, changed and removed users.
 */
module SourcesLdap {
  import opened Wrappers
  import opened Errors
  import opened Directory
  import opened Config
  import opened Users
  import Utf8

  /** The parts of the source that parsing reads: the attribute mapping and the feature flags. */
  datatype SourceLdap = SourceLdap(attributes: LdapAttributesMapping, featureFlags: FeatureFlags)

  /** A user from an entry, with verification flags from the feature flags and the given IdP id. */
  function ParseUser(src: SourceLdap, entry: SearchEntry, idpId: Option<string>): Result<User, Error> {
    FromSearchEntry(
      entry, src.attributes,
      IsEnabled(src.featureFlags, VerifyEmail), IsEnabled(src.featureFlags, VerifyPhone), idpId)
  }

  /**
   * Parsing needs the status and the five required attributes, and each
   * field is the value read for it; the verification flags follow the feature flags, the IdP id is the one
   * given, and the user is enabled when no disable mask meets the status.
   */
  lemma ParseUserFields(src: SourceLdap, entry: SearchEntry, idpId: Option<string>)
    ensures var r := ParseUser(src, entry, idpId);
      && (r.Ok? <==> ReadStatus(entry, src.attributes).Ok? && forall m :: m in Required(src.attributes) ==> ReadEntry(entry, m).Ok?)
      && (r.Ok? ==>
        && r.value.needsEmailVerification == IsEnabled(src.featureFlags, VerifyEmail)
        && r.value.needsPhoneVerification == IsEnabled(src.featureFlags, VerifyPhone)
        && r.value.idpId == idpId
        && r.value.enabled == StatusEnabled(ReadStatus(entry, src.attributes).value, src.attributes.disableBitmasks)
        && r.value.firstName == ReadEntry(entry, src.attributes.firstName).value
        && r.value.lastName == ReadEntry(entry, src.attributes.lastName).value
        && r.value.preferredUsername == ReadEntry(entry, src.attributes.preferredUsername).value
        && r.value.email == ReadEntry(entry, src.attributes.email).value
        && r.value.ldapId == ReadEntry(entry, src.attributes.userId).value
        && (r.value.phone.Some? <==> ReadEntry(entry, src.attributes.phone).Ok?)
        && (r.value.phone.Some? ==> r.value.phone.value == ReadEntry(entry, src.attributes.phone).value))
  {
    FromSearchEntryFields(
      entry, src.attributes,
      IsEnabled(src.featureFlags, VerifyEmail), IsEnabled(src.featureFlags, VerifyPhone), idpId);
  }

  /** The three lists the events are sorted into. */
  datatype Changes = Changes(added: seq<User>, changed: seq<(User, User)>, removed: seq<string>)

  const NoChanges := Changes([], [], [])

  /** How a directory entry becomes a user; the fold below is stated for any such parser. */
  type Parser = SearchEntry -> Result<User, Error>

  /** The parser `get_user_changes` uses: `parse_user` with no IdP id. */
  function Parse(src: SourceLdap): (parse: Parser)
    ensures forall entry :: parse(entry) == ParseUser(src, entry, None)
  {
    entry => ParseUser(src, entry, None)
  }

  /** One event applied to the lists: parsed users are appended, a removed id must be UTF-8. */
  function Route(parse: Parser, acc: Changes, ev: EntryStatus): Result<Changes, Error> {
    match ev
    case New(entry) =>
      var u :- parse(entry);
      Ok(acc.(added := acc.added + [u]))
    case Changed(oldEntry, newEntry) =>
      var before :- parse(oldEntry);
      var after :- parse(newEntry);
      Ok(acc.(changed := acc.changed + [(before, after)]))
    case Removed(id) =>
      match Utf8.Decode(id)
      case Some(s) => Ok(acc.(removed := acc.removed + [s]))
      case None => Err(InvalidUtf8)
  }

  /** The event can be routed: its entries parse, or its id is UTF-8. */
  predicate Routable(parse: Parser, ev: EntryStatus) {
    match ev
    case New(entry) => parse(entry).Ok?
    case Changed(oldEntry, newEntry) => parse(oldEntry).Ok? && parse(newEntry).Ok?
    case Removed(id) => Utf8.Decode(id).Some?
  }

  /** Routing fails exactly on an unroutable event, and its error does not depend on the lists so far. */
  lemma RouteOk(parse: Parser, acc: Changes, ev: EntryStatus)
    ensures Route(parse, acc, ev).Ok? <==> Routable(parse, ev)
    ensures Route(parse, acc, ev).Err? ==> Route(parse, acc, ev).error == Route(parse, NoChanges, ev).error
  {
  }

  /** The events folded over from the first to the last; the first failure is the result. */
  function Fold(parse: Parser, events: seq<EntryStatus>): Result<Changes, Error>
    decreases |events|
  {
    if events == [] then Ok(NoChanges)
    else
      var acc :- Fold(parse, events[..|events| - 1]);
      Route(parse, acc, events[|events| - 1])
  }

  /** Once a prefix of the events fails, the whole fold fails with that error. */
  lemma {:induction false} FoldErrorSticks(parse: Parser, events: seq<EntryStatus>, k: nat)
    requires k <= |events| && Fold(parse, events[..k]).Err?
    ensures Fold(parse, events) == Fold(parse, events[..k])
    decreases |events| - k
  {
    if k < |events| {
      assert events[..k + 1][..k] == events[..k];
      FoldErrorSticks(parse, events, k + 1);
    } else {
      assert events[..k] == events;
    }
  }

  /**
   * `get_user_changes`: the events are consumed in order, each appended
   * to its list; the first event that cannot be routed ends the fold
   * with its error.
   */
  method GetUserChanges(src: SourceLdap, events: seq<EntryStatus>) returns (r: Result<Changes, Error>)
    ensures r == Fold(Parse(src), events)
  {
    var parse := Parse(src);
    var added: seq<User> := [];
    var changed: seq<(User, User)> := [];
    var removed: seq<string> := [];
    var i := 0;
    while i < |events|
      invariant 0 <= i <= |events|
      invariant Fold(parse, events[..i]) == Ok(Changes(added, changed, removed))
      decreases |events| - i
    {
      assert events[..i + 1][..i] == events[..i];
      match events[i] {
      case New(entry) =>
        var u := parse(entry);
        if u.Err? {
          FoldErrorSticks(parse, events, i + 1);
          return Err(u.error);
        }
        added := added + [u.value];
      case Changed(oldEntry, newEntry) =>
        var before := parse(oldEntry);
        if before.Err? {
          FoldErrorSticks(parse, events, i + 1);
          return Err(before.error);
        }
        var after := parse(newEntry);
        if after.Err? {
          FoldErrorSticks(parse, events, i + 1);
          return Err(after.error);
        }
        changed := changed + [(before.value, after.value)];
      case Removed(id) =>
        var s := Utf8.Decode(id);
        if s.None? {
          FoldErrorSticks(parse, events, i + 1);
          return Err(InvalidUtf8);
        }
        removed := removed + [s.value];
      }
      i := i + 1;
    }
    assert events[..i] == events;
    return Ok(Changes(added, changed, removed));
  }

  /** The fold succeeds exactly when every event can be routed. */
  lemma {:induction false} FoldOkIff(parse: Parser, events: seq<EntryStatus>)
    ensures Fold(parse, events).Ok? <==> forall i :: 0 <= i < |events| ==> Routable(parse, events[i])
    decreases |events|
  {
    if events != [] {
      var init := events[..|events| - 1];
      FoldOkIff(parse, init);
      assert forall i :: 0 <= i < |init| ==> init[i] == events[i];
      if Fold(parse, init).Ok? {
        RouteOk(parse, Fold(parse, init).value, events[|events| - 1]);
      }
    }
  }

  /** Event `k` is the first that cannot be routed. */
  predicate FirstUnroutable(parse: Parser, events: seq<EntryStatus>, k: int) {
    && 0 <= k < |events|
    && !Routable(parse, events[k])
    && forall j :: 0 <= j < k ==> Routable(parse, events[j])
  }

  /** A failed fold reports the error of the first event that cannot be routed. */
  lemma {:induction false} FoldFirstError(parse: Parser, events: seq<EntryStatus>)
    requires Fold(parse, events).Err?
    ensures exists k :: FirstUnroutable(parse, events, k) && Fold(parse, events).error == Route(parse, NoChanges, events[k]).error
    decreases |events|
  {
    var init := events[..|events| - 1];
    assert forall i :: 0 <= i < |init| ==> init[i] == events[i];
    if Fold(parse, init).Err? {
      FoldFirstError(parse, init);
    } else {
      FoldOkIff(parse, init);
      RouteOk(parse, Fold(parse, init).value, events[|events| - 1]);
      assert !Routable(parse, events[|events| - 1]);
    }
  }

  /** A successful fold holds the parsed user of every `New` event, in order. */
  lemma {:induction false} FoldAdded(parse: Parser, events: seq<EntryStatus>)
    requires Fold(parse, events).Ok?
    ensures var c := Fold(parse, events).value;
      && |c.added| == |NewEntries(events)|
      && forall i :: 0 <= i < |c.added| ==> parse(NewEntries(events)[i]) == Ok(c.added[i])
    decreases |events|
  {
    if events != [] {
      var init := events[..|events| - 1];
      var last := events[|events| - 1];
      FoldAdded(parse, init);
      var before := Fold(parse, init).value;
      var after := Fold(parse, events).value;
      if last.New? {
        assert after.added == before.added + [parse(last.entry).value];
        assert NewEntries(events) == NewEntries(init) + [last.entry];
      } else {
        assert after.added == before.added;
        assert NewEntries(events) == NewEntries(init);
      }
    }
  }

  /** A successful fold holds the parsed pair of every `Changed` event, in order. */
  lemma {:induction false} FoldChanged(parse: Parser, events: seq<EntryStatus>)
    requires Fold(parse, events).Ok?
    ensures var c := Fold(parse, events).value;
      && |c.changed| == |ChangedEntries(events)|
      && forall i :: 0 <= i < |c.changed| ==>
           && parse(ChangedEntries(events)[i].0) == Ok(c.changed[i].0)
           && parse(ChangedEntries(events)[i].1) == Ok(c.changed[i].1)
    decreases |events|
  {
    if events != [] {
      var init := events[..|events| - 1];
      var last := events[|events| - 1];
      FoldChanged(parse, init);
      var before := Fold(parse, init).value;
      var after := Fold(parse, events).value;
      if last.Changed? {
        assert after.changed == before.changed + [(parse(last.oldEntry).value, parse(last.newEntry).value)];
        assert ChangedEntries(events) == ChangedEntries(init) + [(last.oldEntry, last.newEntry)];
      } else {
        assert after.changed == before.changed;
        assert ChangedEntries(events) == ChangedEntries(init);
      }
    }
  }

  /** A successful fold holds the decoded id of every `Removed` event, in order. */
  lemma {:induction false} FoldRemoved(parse: Parser, events: seq<EntryStatus>)
    requires Fold(parse, events).Ok?
    ensures var c := Fold(parse, events).value;
      && |c.removed| == |RemovedIds(events)|
      && forall i :: 0 <= i < |c.removed| ==> Utf8.Decode(RemovedIds(events)[i]) == Some(c.removed[i])
    decreases |events|
  {
    if events != [] {
      var init := events[..|events| - 1];
      var last := events[|events| - 1];
      FoldRemoved(parse, init);
      var before := Fold(parse, init).value;
      var after := Fold(parse, events).value;
      if last.Removed? {
        assert after.removed == before.removed + [Utf8.Decode(last.id).value];
        assert RemovedIds(events) == RemovedIds(init) + [last.id];
      } else {
        assert after.removed == before.removed;
        assert RemovedIds(events) == RemovedIds(init);
      }
    }
  }

  /** On success the three lists together have one item per event. */
  lemma FoldCounts(parse: Parser, events: seq<EntryStatus>)
    requires Fold(parse, events).Ok?
    ensures var c := Fold(parse, events).value; |c.added| + |c.changed| + |c.removed| == |events|
  {
    FoldAdded(parse, events);
    FoldChanged(parse, events);
    FoldRemoved(parse, events);
    SplitCounts(events);
  }

  /** A user that changed: its state before and after. */
  datatype ChangedUser = ChangedUser(oldUser: User, newUser: User)

  /** What the source reports: new users, changed users and the ids of deleted users. */
  datatype LdapChanges = LdapChanges(newUsers: seq<User>, changedUsers: seq<ChangedUser>, deletedUserIds: seq<string>)

  /** Each (old, new) pair as a `ChangedUser`, order and length kept. */
  function WrapChanged(pairs: seq<(User, User)>): (r: seq<ChangedUser>)
    ensures |r| == |pairs|
    ensures forall i :: 0 <= i < |r| ==> r[i].oldUser == pairs[i].0 && r[i].newUser == pairs[i].1
  {
    seq(|pairs|, i requires 0 <= i < |pairs| => ChangedUser(pairs[i].0, pairs[i].1))
  }

  /**
   * `get_all_changes`, given how reading the cache and the poller's sync
   * task turned out: a cache error comes first, then an error from
   * sorting the events, then an error from the sync task.
   */
  method GetAllChanges(src: SourceLdap, cacheRead: Result<(), Error>, events: seq<EntryStatus>, syncOutcome: Result<(), Error>)
    returns (r: Result<LdapChanges, Error>)
    ensures cacheRead.Err? ==> r == Err(cacheRead.error)
    ensures cacheRead.Ok? && Fold(Parse(src), events).Err? ==> r == Err(Fold(Parse(src), events).error)
    ensures cacheRead.Ok? && Fold(Parse(src), events).Ok? && syncOutcome.Err? ==> r == Err(syncOutcome.error)
    ensures r.Ok? <==> cacheRead.Ok? && Fold(Parse(src), events).Ok? && syncOutcome.Ok?
    ensures r.Ok? ==> var c := Fold(Parse(src), events).value;
      r.value == LdapChanges(c.added, WrapChanged(c.changed), c.removed)
  {
    if cacheRead.Err? {
      return Err(cacheRead.error);
    }
    var changes := GetUserChanges(src, events);
    if changes.Err? {
      return Err(changes.error);
    }
    if syncOutcome.Err? {
      return Err(syncOutcome.error);
    }
    var c := changes.value;
    return Ok(LdapChanges(c.added, WrapChanged(c.changed), c.removed));
  }
}
