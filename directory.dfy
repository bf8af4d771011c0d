/**
 * The directory-side values the sync receives from the LDAP poller: a
 * search entry and the change events that carry entries.
 */
module Directory {
  import opened Bytes
  import opened Wrappers
  import opened Common

  /**
   * An LDAP search result entry. Attribute values that are valid UTF-8
   * are in `attrs`; the others are in `binAttrs`.
   */
  datatype SearchEntry = SearchEntry(
    dn: string,
    attrs: map<string, seq<string>>,
    binAttrs: map<string, seq<seq<uint8>>>)

  /** The first text value of an attribute, if there is one. */
  function AttrFirst(entry: SearchEntry, name: string): (r: Option<string>)
    ensures r.Some? <==> name in entry.attrs && |entry.attrs[name]| > 0
    ensures r.Some? ==> r.value == entry.attrs[name][0]
  {
    if name in entry.attrs && |entry.attrs[name]| > 0 then Some(entry.attrs[name][0]) else None
  }

  /** The first binary value of an attribute, if there is one. */
  function BinAttrFirst(entry: SearchEntry, name: string): (r: Option<seq<uint8>>)
    ensures r.Some? <==> name in entry.binAttrs && |entry.binAttrs[name]| > 0
    ensures r.Some? ==> r.value == entry.binAttrs[name][0]
  {
    if name in entry.binAttrs && |entry.binAttrs[name]| > 0 then Some(entry.binAttrs[name][0]) else None
  }

  /** What the poller reports about one directory entry since the last sync. */
  datatype EntryStatus =
    | New(entry: SearchEntry)
    | Changed(oldEntry: SearchEntry, newEntry: SearchEntry)
    | Removed(id: seq<uint8>)

  /** The entries of the `New` events, in order. */
  function NewEntries(events: seq<EntryStatus>): seq<SearchEntry>
    decreases |events|
  {
    if events == [] then []
    else
      var last := events[|events| - 1];
      NewEntries(events[..|events| - 1]) + (if last.New? then [last.entry] else [])
  }

  /** The (old, new) entries of the `Changed` events, in order. */
  function ChangedEntries(events: seq<EntryStatus>): seq<(SearchEntry, SearchEntry)>
    decreases |events|
  {
    if events == [] then []
    else
      var last := events[|events| - 1];
      ChangedEntries(events[..|events| - 1]) + (if last.Changed? then [(last.oldEntry, last.newEntry)] else [])
  }

  /** The ids of the `Removed` events, in order. */
  function RemovedIds(events: seq<EntryStatus>): seq<seq<uint8>>
    decreases |events|
  {
    if events == [] then []
    else
      var last := events[|events| - 1];
      RemovedIds(events[..|events| - 1]) + (if last.Removed? then [last.id] else [])
  }

  lemma {:induction false} NewEntriesConcat(a: seq<EntryStatus>, b: seq<EntryStatus>)
    ensures NewEntries(a + b) == NewEntries(a) + NewEntries(b)
    decreases |b|
  {
    if b == [] {
      assert a + b == a;
    } else {
      DropLast(a, b);
      NewEntriesConcat(a, b[..|b| - 1]);
    }
  }

  lemma {:induction false} ChangedEntriesConcat(a: seq<EntryStatus>, b: seq<EntryStatus>)
    ensures ChangedEntries(a + b) == ChangedEntries(a) + ChangedEntries(b)
    decreases |b|
  {
    if b == [] {
      assert a + b == a;
    } else {
      DropLast(a, b);
      ChangedEntriesConcat(a, b[..|b| - 1]);
    }
  }

  lemma {:induction false} RemovedIdsConcat(a: seq<EntryStatus>, b: seq<EntryStatus>)
    ensures RemovedIds(a + b) == RemovedIds(a) + RemovedIds(b)
    decreases |b|
  {
    if b == [] {
      assert a + b == a;
    } else {
      DropLast(a, b);
      RemovedIdsConcat(a, b[..|b| - 1]);
    }
  }

  /** Each kind of event is picked out of a concatenation part by part. */
  lemma SplitConcat(a: seq<EntryStatus>, b: seq<EntryStatus>)
    ensures NewEntries(a + b) == NewEntries(a) + NewEntries(b)
    ensures ChangedEntries(a + b) == ChangedEntries(a) + ChangedEntries(b)
    ensures RemovedIds(a + b) == RemovedIds(a) + RemovedIds(b)
  {
    NewEntriesConcat(a, b);
    ChangedEntriesConcat(a, b);
    RemovedIdsConcat(a, b);
  }

  /** Every event lands in exactly one of the three lists. */
  lemma {:induction false} SplitCounts(events: seq<EntryStatus>)
    ensures |NewEntries(events)| + |ChangedEntries(events)| + |RemovedIds(events)| == |events|
    decreases |events|
  {
    if events != [] {
      SplitCounts(events[..|events| - 1]);
    }
  }
}
