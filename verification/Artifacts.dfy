/** The content-addressed artifact store: a table from names to digests beside a
    directory of blobs named by digest, with age and size collection. */
module Artifacts {
  import opened Text

  type Bytes = seq<Byte>

  datatype Row = Row(digest: string, bytes: int, createdAt: int, updatedAt: int, lastGetAt: Option<int>) {
    /** When the row was last read, or last written if it was never read. */
    function Touched(): int {
      if lastGetAt.Some? then lastGetAt.value else updatedAt
    }
  }

  datatype Store = Store(rows: map<string, Row>, blobs: map<string, Bytes>)

  /** One line of the collector's scan over the table. */
  datatype Item = Item(name: string, digest: string, bytes: int, touched: int)

  datatype Output =
    | BadArgs
    | NotFound
    | Stored(digest: string, bytes: int)
    | Content(digest: string, value: Bytes)
    | Collected(removed: int, freed: int)

  // ----- sums over tables -----

  function BlobTotal(blobs: map<string, Bytes>): nat {
    if blobs == map[] then 0
    else
      var d := Least(blobs.Keys);
      |blobs[d]| + BlobTotal(blobs - {d})
  }

  lemma {:induction false} BlobTotalMinus(blobs: map<string, Bytes>, d: string)
    requires d in blobs
    ensures BlobTotal(blobs) == |blobs[d]| + BlobTotal(blobs - {d})
  {
    var l := Least(blobs.Keys);
    if l != d {
      BlobTotalMinus(blobs - {l}, d);
      var rest := blobs - {d};
      assert blobs - {l} - {d} == rest - {l};
      BlobTotalMinus(rest, l);
    }
  }

  function RowTotal(rows: map<string, Row>): int {
    if rows == map[] then 0
    else
      var n := Least(rows.Keys);
      rows[n].bytes + RowTotal(rows - {n})
  }

  lemma {:induction false} RowTotalMinus(rows: map<string, Row>, n: string)
    requires n in rows
    ensures RowTotal(rows) == rows[n].bytes + RowTotal(rows - {n})
  {
    var l := Least(rows.Keys);
    if l != n {
      RowTotalMinus(rows - {l}, n);
      var rest := rows - {n};
      assert rows - {l} - {n} == rest - {l};
      RowTotalMinus(rest, l);
    }
  }

  function ItemTotal(items: seq<Item>): int {
    if items == [] then 0 else items[0].bytes + ItemTotal(items[1..])
  }

  // ----- put and get -----

  predicate HexDigest(d: string) {
    |d| == 64 && forall i :: 0 <= i < 64 ==> IsDigit(d[i]) || 'a' <= d[i] <= 'f' || 'A' <= d[i] <= 'F'
  }

  function PutRow(previous: Option<Row>, digest: string, size: int, now: int): Row {
    match previous
    case None => Row(digest, size, now, now, None)
    case Some(r) => r.(digest := digest, bytes := size, updatedAt := now)
  }

  function RowAt(s: Store, name: string): Option<Row> {
    if name in s.rows then Some(s.rows[name]) else None
  }

  function Put(hash: Bytes -> string, s: Store, name: string, value: Bytes, now: int): Store {
    var d := hash(value);
    Store(s.rows[name := PutRow(RowAt(s, name), d, |value|, now)],
          if d in s.blobs then s.blobs else s.blobs[d := value])
  }

  function Fetch(s: Store, digest: string): Output {
    if digest in s.blobs then Content(digest, s.blobs[digest]) else NotFound
  }

  function Get(s: Store, name: string, now: int): (Store, Output) {
    if name !in s.rows then (s, NotFound)
    else (s.(rows := s.rows[name := s.rows[name].(lastGetAt := Some(now))]), Fetch(s, s.rows[name].digest))
  }

  // ----- collection -----

  /** Rows touched before this instant have aged out. */
  function Cutoff(maxAgeSecs: Option<int>, now: int): Option<int> {
    if maxAgeSecs.None? then None else Some(Wrap64(now - SaturatingNanos(maxAgeSecs.value)))
  }

  function ItemOf(name: string, r: Row): Item {
    Item(name, r.digest, r.bytes, r.Touched())
  }

  predicate Distinct(items: seq<Item>) {
    forall i, j :: 0 <= i < j < |items| ==> items[i].name != items[j].name
  }

  predicate FromTable(rows: map<string, Row>, items: seq<Item>) {
    forall i :: 0 <= i < |items| ==> items[i].name in rows && items[i] == ItemOf(items[i].name, rows[items[i].name])
  }

  function Names(items: seq<Item>): set<string> {
    set i | 0 <= i < |items| :: items[i].name
  }

  predicate Listed(items: seq<Item>, name: string)
    ensures Listed(items, name) <==> name in Names(items)
  {
    exists i :: 0 <= i < |items| && items[i].name == name
  }

  /** `items` is the table as a query returns it, each row once, in any order. */
  predicate Scan(rows: map<string, Row>, items: seq<Item>) {
    FromTable(rows, items) && Distinct(items) && Names(items) == rows.Keys
  }

  predicate OldestFirst(items: seq<Item>) {
    forall i, j :: 0 <= i < j < |items| ==> items[i].touched <= items[j].touched
  }

  predicate AgedOut(touched: int, cutoff: Option<int>) {
    cutoff.Some? && touched < cutoff.value
  }

  function Aged(scan: seq<Item>, cutoff: Option<int>): seq<Item> {
    if scan == [] then []
    else
      var init := Aged(scan[..|scan| - 1], cutoff);
      var last := scan[|scan| - 1];
      if AgedOut(last.touched, cutoff) then init + [last] else init
  }

  /** How many of the oldest rows the cap pass takes while `over` is positive. */
  function CapCount(sorted: seq<Item>, over: int): nat {
    if over <= 0 || sorted == [] then 0 else 1 + CapCount(sorted[1..], over - sorted[0].bytes)
  }

  /** `items` followed by those of `more` whose name is not listed yet. */
  function AddUnlisted(items: seq<Item>, more: seq<Item>): seq<Item> {
    if more == [] then items
    else
      var init := AddUnlisted(items, more[..|more| - 1]);
      var r := more[|more| - 1];
      if Listed(init, r.name) then init else init + [r]
  }

  /** The names a collection drops. */
  function Removed(scan: seq<Item>, sorted: seq<Item>, cutoff: Option<int>, cap: Option<int>): set<string> {
    Names(Aged(scan, cutoff)) +
    if cap.None? then {} else Names(sorted[..Taken(sorted, cap.value)])
  }

  function Taken(sorted: seq<Item>, cap: int): (k: nat)
    ensures k <= |sorted|
  {
    CapCountBounded(sorted, ItemTotal(sorted) - cap);
    CapCount(sorted, ItemTotal(sorted) - cap)
  }

  lemma {:induction false} CapCountBounded(sorted: seq<Item>, over: int)
    ensures CapCount(sorted, over) <= |sorted|
  {
    if over > 0 && sorted != [] { CapCountBounded(sorted[1..], over - sorted[0].bytes); }
  }

  predicate Referenced(rows: map<string, Row>, digest: string) {
    exists n :: n in rows && rows[n].digest == digest
  }

  /** Dropping the rows `gone`: a blob goes exactly when a dropped row named it and
      no surviving row does. */
  function Drop(s: Store, gone: set<string>): Store {
    var kept := s.rows - gone;
    Store(kept, map d | d in s.blobs && (Referenced(kept, d) || !Referenced(s.rows, d)) :: s.blobs[d])
  }

  /** Every row's blob is on disk with the size the row records, and every blob is
      filed under its own hash. */
  predicate Inv(hash: Bytes -> string, s: Store) {
    && (forall n :: n in s.rows ==> s.rows[n].digest in s.blobs && s.rows[n].bytes == |s.blobs[s.rows[n].digest]|)
    && (forall d :: d in s.blobs ==> hash(s.blobs[d]) == d)
  }

  class ArtifactStore {
    const hash: Bytes -> string
    var rows: map<string, Row>
    var blobs: map<string, Bytes>

    constructor (sha256: Bytes -> string)
      ensures hash == sha256 && State() == Store(map[], map[])
    {
      hash := sha256;
      rows, blobs := map[], map[];
    }

    function State(): Store
      reads this
    {
      Store(rows, blobs)
    }

    method OpPut(name: string, value: Bytes, now: int) returns (out: Output)
      modifies this
      ensures name == "" ==> out == BadArgs && State() == old(State())
      ensures name != "" ==> out == Stored(hash(value), |value|) && State() == Put(hash, old(State()), name, value, now)
    {
      if name == "" { return BadArgs; }
      var digest := hash(value);
      if digest !in blobs {
        blobs := blobs[digest := value];
      }
      if name in rows {
        rows := rows[name := rows[name].(digest := digest, bytes := |value|, updatedAt := now)];
      } else {
        rows := rows[name := Row(digest, |value|, now, now, None)];
      }
      return Stored(digest, |value|);
    }

    method OpGet(name: string, now: int) returns (out: Output)
      modifies this
      ensures name == "" ==> out == BadArgs && State() == old(State())
      ensures name != "" ==> (State(), out) == Get(old(State()), name, now)
    {
      if name == "" { return BadArgs; }
      if name !in rows { return NotFound; }
      var digest := rows[name].digest;
      rows := rows[name := rows[name].(lastGetAt := Some(now))];
      out := FetchBlob(digest);
    }

    method OpGetByDigest(digest: string) returns (out: Output)
      ensures out == if HexDigest(digest) then Fetch(State(), digest) else BadArgs
    {
      if !HexDigest(digest) { return BadArgs; }
      out := FetchBlob(digest);
    }

    method FetchBlob(digest: string) returns (out: Output)
      ensures out == Fetch(State(), digest)
    {
      if digest !in blobs { return NotFound; }
      return Content(digest, blobs[digest]);
    }

    /** `artifact_gc`; the two queries' results are given, in whatever order the
        database lists the rows. */
    method OpGc(maxAgeSecs: Option<int>, maxBytes: Option<int>, now: int, scan: seq<Item>, sorted: seq<Item>)
      returns (out: Output)
      requires Scan(rows, scan) && Scan(rows, sorted) && OldestFirst(sorted)
      modifies this
      ensures State() == Drop(old(State()), Removed(scan, sorted, Cutoff(maxAgeSecs, now), maxBytes))
      ensures out.Collected? && out.removed == |Removed(scan, sorted, Cutoff(maxAgeSecs, now), maxBytes)|
      ensures old(Inv(hash, State())) ==> out.freed == old(BlobTotal(blobs)) - BlobTotal(blobs)
    {
      var cutoff := Cutoff(maxAgeSecs, now);
      var toRemove := AgePass(scan, cutoff);
      if maxBytes.Some? {
        toRemove := CapPass(sorted, maxBytes.value, toRemove);
      }
      CollectedNames(rows, scan, sorted, cutoff, maxBytes);
      var removed, freed := DeleteAll(toRemove);
      return Collected(removed, freed);
    }

    static method AgePass(scan: seq<Item>, cutoff: Option<int>) returns (toRemove: seq<Item>)
      ensures toRemove == Aged(scan, cutoff)
    {
      toRemove := [];
      for i := 0 to |scan|
        invariant toRemove == Aged(scan[..i], cutoff)
      {
        assert scan[..i + 1][..i] == scan[..i];
        if cutoff.Some? && scan[i].touched < cutoff.value {
          toRemove := toRemove + [scan[i]];
        }
      }
      assert scan[..|scan|] == scan;
    }

    static method CapPass(sorted: seq<Item>, cap: int, aged: seq<Item>) returns (toRemove: seq<Item>)
      ensures toRemove == AddUnlisted(aged, sorted[..Taken(sorted, cap)])
    {
      toRemove := aged;
      var remaining := sorted;
      var over := ItemTotal(sorted) - cap;
      ghost var k := 0;
      while over > 0
        invariant k <= |sorted| && remaining == sorted[k..]
        invariant k + CapCount(remaining, over) == CapCount(sorted, ItemTotal(sorted) - cap)
        invariant toRemove == AddUnlisted(aged, sorted[..k])
        decreases |remaining|, over
      {
        if remaining == [] { break; }
        var r := remaining[0];
        assert sorted[k + 1..] == remaining[1..] && sorted[..k + 1][..k] == sorted[..k];
        remaining := remaining[1..];
        over := over - r.bytes;
        if !Listed(toRemove, r.name) {
          toRemove := toRemove + [r];
        }
        k := k + 1;
      }
    }

    method DeleteAll(toRemove: seq<Item>) returns (removed: int, freed: int)
      requires FromTable(rows, toRemove) && Distinct(toRemove)
      modifies this
      ensures State() == Drop(old(State()), Names(toRemove))
      ensures removed == |toRemove|
      ensures old(Inv(hash, State())) ==> freed == old(BlobTotal(blobs)) - BlobTotal(blobs)
    {
      removed, freed := 0, 0;
      DropNothing(State());
      assert Names(toRemove[..0]) == {};
      for i := 0 to |toRemove|
        invariant removed == i
        invariant State() == Drop(old(State()), Names(toRemove[..i]))
        invariant old(Inv(hash, State())) ==> freed == old(BlobTotal(blobs)) - BlobTotal(blobs)
      {
        var item := toRemove[i];
        NamesGrow(toRemove, i);
        DropOneMore(old(State()), Names(toRemove[..i]), item.name);
        rows := rows - {item.name};
        if !(exists n :: n in rows && rows[n].digest == item.digest) {
          if item.digest in blobs {
            BlobTotalMinus(blobs, item.digest);
            blobs := blobs - {item.digest};
            freed := freed + item.bytes;
          }
        }
        removed := removed + 1;
      }
      assert toRemove[..|toRemove|] == toRemove;
    }
  }

  lemma NamesSnoc(items: seq<Item>, r: Item)
    ensures Names(items + [r]) == Names(items) + {r.name}
  {
    var more := items + [r];
    assert forall i :: 0 <= i < |items| ==> more[i] == items[i];
    assert more[|items|] == r;
  }

  lemma AddOneName(rows: map<string, Row>, items: seq<Item>, r: Item)
    requires FromTable(rows, items) && Distinct(items) && FromTable(rows, [r])
    ensures var all := if Listed(items, r.name) then items else items + [r];
      FromTable(rows, all) && Distinct(all) && Names(all) == Names(items) + {r.name}
  {
    NamesSnoc(items, r);
    assert [r][0] == r;
    if !Listed(items, r.name) {
      assert forall i :: 0 <= i < |items| ==> items[i].name in Names(items);
    }
  }

  lemma AddUnlistedLast(items: seq<Item>, more: seq<Item>)
    ensures more == [] ==> AddUnlisted(items, more) == items && Names(more) == {}
    ensures more != [] ==>
      var init, r := AddUnlisted(items, more[..|more| - 1]), more[|more| - 1];
      AddUnlisted(items, more) == if Listed(init, r.name) then init else init + [r]
  {
  }

  lemma FromTableParts(rows: map<string, Row>, items: seq<Item>)
    requires items != [] && FromTable(rows, items)
    ensures FromTable(rows, items[..|items| - 1]) && FromTable(rows, [items[|items| - 1]])
  {
  }

  lemma {:induction false} AddUnlistedNames(rows: map<string, Row>, items: seq<Item>, more: seq<Item>)
    requires FromTable(rows, items) && Distinct(items) && FromTable(rows, more)
    ensures var all := AddUnlisted(items, more);
      FromTable(rows, all) && Distinct(all) && Names(all) == Names(items) + Names(more)
  {
    hide Names, Listed, Distinct, FromTable, AddUnlisted;
    AddUnlistedLast(items, more);
    if more != [] {
      var k := |more| - 1;
      FromTableParts(rows, more);
      AddUnlistedNames(rows, items, more[..k]);
      NamesGrow(more, k);
      assert more[..k + 1] == more;
      AddOneName(rows, AddUnlisted(items, more[..k]), more[k]);
    }
  }

  lemma NamesGrow(items: seq<Item>, k: nat)
    requires k < |items|
    ensures Names(items[..k + 1]) == Names(items[..k]) + {items[k].name}
  {
    assert items[..k + 1] == items[..k] + [items[k]];
    NamesSnoc(items[..k], items[k]);
  }

  lemma {:induction false} NamesCount(items: seq<Item>)
    requires Distinct(items)
    ensures |Names(items)| == |items|
  {
    if items != [] {
      var k := |items| - 1;
      NamesGrow(items, k);
      assert items[..k + 1] == items;
      NamesCount(items[..k]);
      assert items[k].name !in Names(items[..k]);
    }
  }

  lemma {:induction false} AgedIsAScan(rows: map<string, Row>, scan: seq<Item>, cutoff: Option<int>)
    requires FromTable(rows, scan) && Distinct(scan)
    ensures FromTable(rows, Aged(scan, cutoff)) && Distinct(Aged(scan, cutoff))
    ensures forall n :: n in Names(Aged(scan, cutoff)) <==> n in Names(scan) && AgedOut(rows[n].Touched(), cutoff)
  {
    if scan != [] {
      var k := |scan| - 1;
      AgedIsAScan(rows, scan[..k], cutoff);
      NamesGrow(scan, k);
      assert scan[..k + 1] == scan;
      NamesSnoc(Aged(scan[..k], cutoff), scan[k]);
      var a := Aged(scan[..k], cutoff);
      forall i | 0 <= i < |a|
        ensures a[i].name != scan[k].name
      {
        assert a[i].name in Names(a);
      }
    }
  }

  /** The collector's list names what is to be removed, each row once. */
  lemma CollectedNames(rows: map<string, Row>, scan: seq<Item>, sorted: seq<Item>, cutoff: Option<int>, cap: Option<int>)
    requires Scan(rows, scan) && Scan(rows, sorted)
    ensures var list := if cap.None? then Aged(scan, cutoff)
                        else AddUnlisted(Aged(scan, cutoff), sorted[..Taken(sorted, cap.value)]);
      && FromTable(rows, list) && Distinct(list)
      && Names(list) == Removed(scan, sorted, cutoff, cap)
      && |list| == |Removed(scan, sorted, cutoff, cap)|
  {
    AgedIsAScan(rows, scan, cutoff);
    if cap.None? {
      NamesCount(Aged(scan, cutoff));
    } else {
      var some := sorted[..Taken(sorted, cap.value)];
      AddUnlistedNames(rows, Aged(scan, cutoff), some);
      NamesCount(AddUnlisted(Aged(scan, cutoff), some));
    }
  }

  lemma DropNothing(s: Store)
    ensures Drop(s, {}) == s
  {
    assert s.rows - {} == s.rows;
    assert Drop(s, {}).blobs == s.blobs;
  }

  lemma DropOneMore(s: Store, gone: set<string>, name: string)
    requires name in s.rows && name !in gone
    ensures var a, b := Drop(s, gone), Drop(s, gone + {name});
      && b.rows == a.rows - {name}
      && b.blobs == if Referenced(b.rows, s.rows[name].digest) then a.blobs else a.blobs - {s.rows[name].digest}
  {
    var a, b := Drop(s, gone), Drop(s, gone + {name});
    assert b.rows == a.rows - {name};
    var dig := s.rows[name].digest;
    assert a.rows[name].digest == dig;
    assert Referenced(s.rows, dig);
    forall d | d != dig
      ensures Referenced(a.rows, d) == Referenced(b.rows, d)
    {
      if n :| n in a.rows && a.rows[n].digest == d { assert n in b.rows; }
    }
    assert Referenced(a.rows, dig);
  }
}
