/** What the catalog's readers see of what was written: each row field by field. */
module CatalogReads {
  import opened Text
  import opened Catalog
  import opened CatalogRefinement

  /** The row holds the entry, as recorded by this shell at this time, with no history. */
  predicate Records(row: Row, e: Entry, setBy: Option<int>, shellId: Option<string>, now: int) {
    && row.key == e.key && row.value == e.value && row.file == e.file && row.line == e.line
    && row.setAt == now && row.setByShell == setBy && row.shellId == shellId && row.history == []
  }

  /** The row belongs to this key of this shell. */
  predicate IsFor(row: Row, key: string, shellId: Option<string>) {
    row.key == key && ShellOf(row.shellId) == ShellOf(shellId)
  }

  /** What is listed is what the plain map holds. */
  lemma ListedExactlyWhenDue(rows: Rows, plain: Plain, subsystem: string, r: Row)
    requires Represents(rows, plain)
    ensures r in Listing(rows, subsystem, true) <==> Due(plain, subsystem, true, r)
  {
    ListsEachRowOnce(rows, plain, subsystem, true);
  }

  lemma UpsertedSlot(plain: Plain, subsystem: string, e: Entry, setBy: Option<int>, shellId: Option<string>, now: int, r: Row)
    ensures var slot := SlotFor(subsystem, e.key, shellId);
      var plain' := plain[slot := NewRow(e, setBy, shellId, now)];
      && Records(plain'[slot], e, setBy, shellId, now)
      && (Due(plain', subsystem, true, r) <==>
            Records(r, e, setBy, shellId, now) || (Due(plain, subsystem, true, r) && !IsFor(r, e.key, shellId)))
  {
  }

  /** After an upsert the subsystem lists the entry's row, every field as it was handed
      in, in place of the row of that key and shell, and otherwise what it listed
      before; a read of a zshrs key finds that row. */
  lemma UpsertIsReadBack(engine: CanonicalEngine, before: Rows, plain: Plain, subsystem: string, e: Entry,
                         setBy: Option<int>, shellId: Option<string>, now: int)
    requires Represents(before, plain) && SepFree(e.key)
    requires engine.rows == Upserted(before, subsystem, e, setBy, shellId, now)
    ensures forall r :: r in engine.RowsForAllShells(subsystem) <==>
      Records(r, e, setBy, shellId, now) || (r in Listing(before, subsystem, true) && !IsFor(r, e.key, shellId))
    ensures ShellOf(shellId) == DEFAULT_SHELL ==>
      var found := engine.RowOf(subsystem, e.key); found.Some? && Records(found.value, e, setBy, shellId, now)
  {
    hide Records, IsFor, Due, Represents, Listing;
    UpsertRefines(before, plain, subsystem, e, setBy, shellId, now);
    var plain' := plain[SlotFor(subsystem, e.key, shellId) := NewRow(e, setBy, shellId, now)];
    forall r
      ensures r in engine.RowsForAllShells(subsystem) <==>
        Records(r, e, setBy, shellId, now) || (r in Listing(before, subsystem, true) && !IsFor(r, e.key, shellId))
    {
      ListedExactlyWhenDue(engine.rows, plain', subsystem, r);
      ListedExactlyWhenDue(before, plain, subsystem, r);
      UpsertedSlot(plain, subsystem, e, setBy, shellId, now, r);
    }
    if ShellOf(shellId) == DEFAULT_SHELL {
      UpsertedSlot(plain, subsystem, e, setBy, shellId, now, NewRow(e, setBy, shellId, now));
      RowReadsDefaultShell(engine, plain', subsystem, e.key);
    }
  }

  /** No later entry has the same key. */
  predicate LastOfItsKey(entries: seq<Entry>, i: nat) {
    i < |entries| && forall j :: i < j < |entries| ==> entries[j].key != entries[i].key
  }

  /** The row is that of the last entry with its key. */
  predicate FromEntries(r: Row, entries: seq<Entry>, setBy: Option<int>, shellId: Option<string>, now: int) {
    exists i: nat :: i < |entries| && LastOfItsKey(entries, i) && Records(r, entries[i], setBy, shellId, now)
  }

  lemma LastBeforeMore(entries: seq<Entry>, i: nat)
    requires i + 1 < |entries|
    ensures var n := |entries| - 1;
      LastOfItsKey(entries, i) <==> LastOfItsKey(entries[..n], i) && entries[i].key != entries[n].key
  {
    var n := |entries| - 1;
    assert forall j :: i < j < n ==> entries[..n][j] == entries[j];
  }

  lemma RecordsKey(r: Row, e: Entry, setBy: Option<int>, shellId: Option<string>, now: int)
    requires Records(r, e, setBy, shellId, now)
    ensures r.key == e.key && r.shellId == shellId
  {
  }

  lemma FromMoreEntries(r: Row, entries: seq<Entry>, setBy: Option<int>, shellId: Option<string>, now: int)
    requires entries != []
    ensures var n := |entries| - 1;
      FromEntries(r, entries, setBy, shellId, now) <==>
        Records(r, entries[n], setBy, shellId, now)
        || (FromEntries(r, entries[..n], setBy, shellId, now) && r.key != entries[n].key)
  {
    var n := |entries| - 1;
    if Records(r, entries[n], setBy, shellId, now) { assert LastOfItsKey(entries, n); }
    if FromEntries(r, entries, setBy, shellId, now) { InSomePrefix(r, entries, setBy, shellId, now); }
    if FromEntries(r, entries[..n], setBy, shellId, now) && r.key != entries[n].key {
      StillFrom(r, entries, setBy, shellId, now);
    }
  }

  lemma InSomePrefix(r: Row, entries: seq<Entry>, setBy: Option<int>, shellId: Option<string>, now: int)
    requires entries != [] && FromEntries(r, entries, setBy, shellId, now)
    ensures var n := |entries| - 1;
      Records(r, entries[n], setBy, shellId, now)
      || (FromEntries(r, entries[..n], setBy, shellId, now) && r.key != entries[n].key)
  {
    hide Records, LastOfItsKey;
    var n := |entries| - 1;
    var i: nat :| i < |entries| && LastOfItsKey(entries, i) && Records(r, entries[i], setBy, shellId, now);
    if i < n {
      LastBeforeMore(entries, i);
      RecordsKey(r, entries[i], setBy, shellId, now);
      assert entries[..n][i] == entries[i];
    }
  }

  lemma StillFrom(r: Row, entries: seq<Entry>, setBy: Option<int>, shellId: Option<string>, now: int)
    requires entries != []
    requires var n := |entries| - 1; FromEntries(r, entries[..n], setBy, shellId, now) && r.key != entries[n].key
    ensures FromEntries(r, entries, setBy, shellId, now)
  {
    hide Records, LastOfItsKey;
    var n := |entries| - 1;
    var i: nat :| i < n && LastOfItsKey(entries[..n], i) && Records(r, entries[..n][i], setBy, shellId, now);
    assert entries[..n][i] == entries[i];
    RecordsKey(r, entries[i], setBy, shellId, now);
    LastBeforeMore(entries, i);
  }

  /** Inserting entries leaves the last row of each key, and the rows of other keys. */
  lemma {:induction false} InsertedAre(plain: Plain, subsystem: string, entries: seq<Entry>, setBy: Option<int>,
                                       shellId: Option<string>, now: int, r: Row)
    ensures Due(InsertAll(plain, subsystem, entries, setBy, shellId, now), subsystem, true, r) <==>
      FromEntries(r, entries, setBy, shellId, now)
      || (Due(plain, subsystem, true, r) && !(ShellOf(r.shellId) == ShellOf(shellId) && exists e :: e in entries && e.key == r.key))
  {
    if entries == [] {
    } else {
      hide Due, Records, FromEntries;
      var n := |entries| - 1;
      var init := InsertAll(plain, subsystem, entries[..n], setBy, shellId, now);
      InsertedAre(plain, subsystem, entries[..n], setBy, shellId, now, r);
      UpsertedSlot(init, subsystem, entries[n], setBy, shellId, now, r);
      FromMoreEntries(r, entries, setBy, shellId, now);
      FromEntriesOfShell(r, entries[..n], setBy, shellId, now);
      assert forall e :: e in entries <==> e in entries[..n] || e == entries[n];
    }
  }

  lemma FromEntriesOfShell(r: Row, entries: seq<Entry>, setBy: Option<int>, shellId: Option<string>, now: int)
    ensures FromEntries(r, entries, setBy, shellId, now) ==> r.shellId == shellId
  {
  }

  /** After a bulk replacement the subsystem lists the last entry of each key, every
      field as it was handed in, and the rows of the other shells, nothing else. */
  lemma ReplacementIsReadBack(engine: CanonicalEngine, before: Rows, plain: Plain, subsystem: string, entries: seq<Entry>,
                              setBy: Option<int>, shellId: Option<string>, now: int)
    requires Represents(before, plain) && NoneShadowed(plain, subsystem, ShellOf(shellId))
    requires forall e :: e in entries ==> SepFree(e.key)
    requires engine.rows == Replaced(before, subsystem, entries, setBy, shellId, now)
    ensures forall r :: r in engine.RowsForAllShells(subsystem) <==>
      FromEntries(r, entries, setBy, shellId, now)
      || (r in Listing(before, subsystem, true) && ShellOf(r.shellId) != ShellOf(shellId))
  {
    hide FromEntries, Represents, Listing, InsertAll, NoneShadowed, Replaced;
    ReplaceRefines(before, plain, subsystem, entries, setBy, shellId, now);
    var cleared := Without(plain, subsystem, ShellOf(shellId));
    var plain' := InsertAll(cleared, subsystem, entries, setBy, shellId, now);
    forall r
      ensures r in engine.RowsForAllShells(subsystem) <==>
        FromEntries(r, entries, setBy, shellId, now)
        || (r in Listing(before, subsystem, true) && ShellOf(r.shellId) != ShellOf(shellId))
    {
      ListedExactlyWhenDue(engine.rows, plain', subsystem, r);
      ListedExactlyWhenDue(before, plain, subsystem, r);
      InsertedAre(cleared, subsystem, entries, setBy, shellId, now, r);
    }
  }
}
