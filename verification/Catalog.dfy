/** The canonical catalog: subsystem, then storage key, to row. The storage key packs
    the row's key and the shell that recorded it. */
module Catalog {
  import opened Text
  import KeyOrder

  /** ASCII Unit Separator. */
  const SEP: char := 0x1f as char

  const DEFAULT_SHELL := "zshrs"

  datatype Definition = Definition(value: string, file: Option<string>, line: Option<int>)

  datatype Row = Row(
    key: string, value: string, setAt: int, setByShell: Option<int>, shellId: Option<string>,
    file: Option<string>, line: Option<int>, history: seq<Definition>)

  /** One row handed to a bulk replacement. */
  datatype Entry = Entry(key: string, value: string, file: Option<string>, line: Option<int>)

  type Rows = map<string, map<string, Row>>

  function CompositeKey(key: string, shellId: Option<string>): string {
    if shellId.None? || shellId.value == DEFAULT_SHELL then key else key + [SEP] + shellId.value
  }

  /** The shell a row belongs to: untagged rows are zshrs's own. */
  function ShellOf(shellId: Option<string>): string {
    if shellId.None? then DEFAULT_SHELL else shellId.value
  }

  predicate EndsWith(s: string, suffix: string) {
    |suffix| <= |s| && s[|s| - |suffix|..] == suffix
  }

  /** What the scope-clear of `shellId` leaves in place. */
  predicate OutOfScope(storageKey: string, shellId: Option<string>) {
    if ShellOf(shellId) == DEFAULT_SHELL then SEP in storageKey
    else !EndsWith(storageKey, [SEP] + shellId.value)
  }

  function Subsystem(rows: Rows, subsystem: string): map<string, Row> {
    if subsystem in rows then rows[subsystem] else map[]
  }

  function NewRow(e: Entry, setBy: Option<int>, shellId: Option<string>, now: int): Row {
    Row(e.key, e.value, now, setBy, shellId, e.file, e.line, [])
  }

  function Upserted(rows: Rows, subsystem: string, e: Entry, setBy: Option<int>, shellId: Option<string>, now: int): Rows {
    rows[subsystem := Subsystem(rows, subsystem)[CompositeKey(e.key, shellId) := NewRow(e, setBy, shellId, now)]]
  }

  function InsertEntries(m: map<string, Row>, entries: seq<Entry>, setBy: Option<int>, shellId: Option<string>, now: int)
    : map<string, Row>
  {
    if entries == [] then m
    else
      var k := |entries| - 1;
      InsertEntries(m, entries[..k], setBy, shellId, now)
        [CompositeKey(entries[k].key, shellId) := NewRow(entries[k], setBy, shellId, now)]
  }

  function Cleared(m: map<string, Row>, shellId: Option<string>): map<string, Row> {
    map k | k in m && OutOfScope(k, shellId) :: m[k]
  }

  function Replaced(rows: Rows, subsystem: string, entries: seq<Entry>, setBy: Option<int>, shellId: Option<string>, now: int)
    : Rows
  {
    rows[subsystem := InsertEntries(Cleared(Subsystem(rows, subsystem), shellId), entries, setBy, shellId, now)]
  }

  function WithHistory(rows: Rows, subsystem: string, storageKey: string, history: seq<Definition>): Rows {
    if storageKey in Subsystem(rows, subsystem) then
      rows[subsystem := rows[subsystem][storageKey := rows[subsystem][storageKey].(history := history)]]
    else rows
  }

  // ----- listing order -----

  /** Stable insertion of `r` behind the rows that do not sort after it. */
  function InsertSorted(rows: seq<Row>, r: Row): seq<Row> {
    if rows != [] && KeyOrder.Compare(rows[|rows| - 1].key, r.key) == Greater then
      InsertSorted(rows[..|rows| - 1], r) + [rows[|rows| - 1]]
    else rows + [r]
  }

  /** `sort_by(key_order)`. */
  function SortRows(rows: seq<Row>): seq<Row> {
    if rows == [] then [] else InsertSorted(SortRows(rows[..|rows| - 1]), rows[|rows| - 1])
  }

  function RowsAt(m: map<string, Row>, keys: seq<string>): seq<Row>
    requires forall k :: k in keys ==> k in m
  {
    seq(|keys|, i requires 0 <= i < |keys| => assert keys[i] in keys; m[keys[i]])
  }

  /** A subsystem's rows in storage order, all of them or zshrs's own. */
  function Visited(rows: Rows, subsystem: string, allShells: bool): seq<Row> {
    var m := Subsystem(rows, subsystem);
    RowsAt(m, SortedKeys(set k | k in m && (allShells || SEP !in k)))
  }

  /** A subsystem's rows as they are listed. */
  function Listing(rows: Rows, subsystem: string, allShells: bool): seq<Row> {
    SortRows(Visited(rows, subsystem, allShells))
  }

  class CanonicalEngine {
    var rows: Rows

    constructor ()
      ensures rows == map[]
    {
      rows := map[];
    }

    method UpsertTaggedWithAttrs(subsystem: string, e: Entry, setBy: Option<int>, shellId: Option<string>, now: int)
      returns (written: int)
      modifies this
      ensures rows == Upserted(old(rows), subsystem, e, setBy, shellId, now)
      ensures written == 1
    {
      var storageKey := CompositeKey(e.key, shellId);
      if subsystem !in rows {
        rows := rows[subsystem := map[]];
      }
      rows := rows[subsystem := rows[subsystem][storageKey := Row(e.key, e.value, now, setBy, shellId, e.file, e.line, [])]];
      return 1;
    }

    method SetHistory(subsystem: string, key: string, shellId: Option<string>, history: seq<Definition>)
      modifies this
      ensures rows == WithHistory(old(rows), subsystem, CompositeKey(key, shellId), history)
    {
      var storageKey := CompositeKey(key, shellId);
      if subsystem in rows && storageKey in rows[subsystem] {
        var row := rows[subsystem][storageKey];
        rows := rows[subsystem := rows[subsystem][storageKey := row.(history := history)]];
      }
    }

    method ReplaceSubsystemWithAttrs(subsystem: string, entries: seq<Entry>, setBy: Option<int>, shellId: Option<string>, now: int)
      returns (inserted: int)
      modifies this
      ensures rows == Replaced(old(rows), subsystem, entries, setBy, shellId, now)
      ensures inserted == |entries|
    {
      var m := if subsystem in rows then rows[subsystem] else map[];
      m := map k | k in m && OutOfScope(k, shellId) :: m[k];
      inserted := 0;
      for i := 0 to |entries|
        invariant m == InsertEntries(Cleared(Subsystem(rows, subsystem), shellId), entries[..i], setBy, shellId, now)
        invariant inserted == i
      {
        assert entries[..i + 1][..i] == entries[..i];
        m := m[CompositeKey(entries[i].key, shellId) := NewRow(entries[i], setBy, shellId, now)];
        inserted := inserted + 1;
      }
      assert entries[..|entries|] == entries;
      rows := rows[subsystem := m];
    }

    function RowsFor(subsystem: string): seq<Row>
      reads this
    {
      Listing(rows, subsystem, false)
    }

    function RowsForAllShells(subsystem: string): seq<Row>
      reads this
    {
      Listing(rows, subsystem, true)
    }

    function RowOf(subsystem: string, key: string): Option<Row>
      reads this
    {
      if key in Subsystem(rows, subsystem) then Some(Subsystem(rows, subsystem)[key]) else None
    }
  }
}
