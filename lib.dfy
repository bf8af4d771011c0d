/**
 * The first version's event sorting (`src/lib.rs`): events are not parsed,
 * so sorting them cannot fail; entries and ids are kept as they came.
 */
module Lib {
  import opened Bytes
  import opened Directory

  /** The second entry of each pair, in order. */
  function NewSides(pairs: seq<(SearchEntry, SearchEntry)>): (r: seq<SearchEntry>)
    ensures |r| == |pairs|
    ensures forall i :: 0 <= i < |r| ==> r[i] == pairs[i].1
  {
    seq(|pairs|, i requires 0 <= i < |pairs| => pairs[i].1)
  }

  /**
   * `get_user_changes`: each `New` entry is appended to `added`, the new
   * entry of each `Changed` event to `changed` (the old one is dropped),
   * and each removed id, as raw bytes, to `removed`.
   */
  method GetUserChanges(events: seq<EntryStatus>)
    returns (added: seq<SearchEntry>, changed: seq<SearchEntry>, removed: seq<seq<uint8>>)
    ensures added == NewEntries(events)
    ensures changed == NewSides(ChangedEntries(events))
    ensures removed == RemovedIds(events)
    ensures |added| + |changed| + |removed| == |events|
  {
    added, changed, removed := [], [], [];
    var i := 0;
    while i < |events|
      invariant 0 <= i <= |events|
      invariant added == NewEntries(events[..i])
      invariant changed == NewSides(ChangedEntries(events[..i]))
      invariant removed == RemovedIds(events[..i])
      decreases |events| - i
    {
      assert events[..i + 1][..i] == events[..i];
      match events[i] {
        case New(entry) => added := added + [entry];
        case Changed(_, newEntry) => changed := changed + [newEntry];
        case Removed(id) => removed := removed + [id];
      }
      i := i + 1;
    }
    assert events[..i] == events;
    SplitCounts(events);
  }

  /** Events that differ only in the old side of their `Changed` events sort into the same lists. */
  lemma {:induction false} OldEntryIgnored(a: seq<EntryStatus>, b: seq<EntryStatus>)
    requires |a| == |b|
    requires forall i :: 0 <= i < |a| ==>
      if a[i].Changed? then b[i].Changed? && b[i].newEntry == a[i].newEntry else b[i] == a[i]
    ensures NewEntries(a) == NewEntries(b)
    ensures NewSides(ChangedEntries(a)) == NewSides(ChangedEntries(b))
    ensures RemovedIds(a) == RemovedIds(b)
    decreases |a|
  {
    if a != [] {
      var n := |a| - 1;
      OldEntryIgnored(a[..n], b[..n]);
      var pa, pb := ChangedEntries(a[..n]), ChangedEntries(b[..n]);
      if a[n].Changed? {
        assert NewSides(ChangedEntries(a)) == NewSides(pa) + [a[n].newEntry];
        assert NewSides(ChangedEntries(b)) == NewSides(pb) + [b[n].newEntry];
      } else {
        assert ChangedEntries(a) == pa;
        assert ChangedEntries(b) == pb;
      }
    }
  }
}
