/**
 * The other copy of the LDAP source (`src/source_ldap.rs`). Its
 * `parse_user`, `read_search_entry` and `get_user_changes` are the same
 * code as in the `SourcesLdap` module and are used from there; what differs
 * is that `get_all_changes` hands back the three lists as they are, and
 * that it has a `get_removed_user_emails` that is not implemented.
 */
module SourceLdap {
  import opened Wrappers
  import opened Errors
  import opened Directory
  import SourcesLdap

  /**
   * `get_all_changes`, given how reading the cache and the poller's sync
   * task turned out: a cache error comes first, then an error from
   * sorting the events, then an error from the sync task; on success the
   * three sorted lists.
   */
  method GetAllChanges(
    src: SourcesLdap.SourceLdap, cacheRead: Result<(), Error>,
    events: seq<EntryStatus>, syncOutcome: Result<(), Error>)
    returns (r: Result<SourcesLdap.Changes, Error>)
    ensures cacheRead.Err? ==> r == Err(cacheRead.error)
    ensures cacheRead.Ok? && SourcesLdap.Fold(SourcesLdap.Parse(src), events).Err? ==>
      r == Err(SourcesLdap.Fold(SourcesLdap.Parse(src), events).error)
    ensures cacheRead.Ok? && SourcesLdap.Fold(SourcesLdap.Parse(src), events).Ok? && syncOutcome.Err? ==>
      r == Err(syncOutcome.error)
    ensures r.Ok? <==> cacheRead.Ok? && SourcesLdap.Fold(SourcesLdap.Parse(src), events).Ok? && syncOutcome.Ok?
    ensures r.Ok? ==> r == SourcesLdap.Fold(SourcesLdap.Parse(src), events)
  {
    if cacheRead.Err? {
      return Err(cacheRead.error);
    }
    var changes := SourcesLdap.GetUserChanges(src, events);
    if changes.Err? {
      return Err(changes.error);
    }
    if syncOutcome.Err? {
      return Err(syncOutcome.error);
    }
    return changes;
  }

  /** `get_removed_user_emails`: always the "not implemented" error. */
  function GetRemovedUserEmails(src: SourcesLdap.SourceLdap): (r: Result<seq<string>, Error>)
    ensures r.Err? && r.error.NotImplemented?
  {
    Err(NotImplemented)
  }
}
