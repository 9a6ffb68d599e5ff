/** `definitions_diff`: two shells' views of the catalog, kind by kind, and the list
    of what was added, removed and changed between them. */
module Diff {
  import opened Text
  import Catalog
  import Refinement = CatalogRefinement

  /** A definition's kind and name. */
  type Place = (string, string)

  datatype Listed = Listed(place: Place, value: string)

  datatype Delta = Delta(place: Place, before: string, after: string)

  datatype Report = Report(added: seq<Listed>, removed: seq<Listed>, changed: seq<Delta>)

  datatype Reply = BadArgs | NoSuchKind | Diffed(report: Report)

  /** One shell's rows in a listing, decoded; a later row of the same key wins. */
  function View(rows: seq<Catalog.Row>, shell: string, decode: string -> string): map<string, string> {
    if rows == [] then map[]
    else
      var n := |rows| - 1;
      var init := View(rows[..n], shell, decode);
      if Catalog.ShellOf(rows[n].shellId) == shell then init[rows[n].key := decode(rows[n].value)] else init
  }

  function OfKind(kind: string, view: map<string, string>): map<Place, string> {
    map name | name in view :: (kind, name) := view[name]
  }

  /** A shell's view of several kinds. */
  function ViewAll(rows: Catalog.Rows, kinds: seq<string>, shell: string, decode: string -> string): map<Place, string> {
    if kinds == [] then map[]
    else
      var n := |kinds| - 1;
      ViewAll(rows, kinds[..n], shell, decode) + OfKind(kinds[n], View(Catalog.Listing(rows, kinds[n], true), shell, decode))
  }

  // ----- what a report says -----

  predicate AddedOk(added: seq<Listed>, a: map<Place, string>, b: map<Place, string>, e: Listed) {
    e in added <==> e.place in b && e.place !in a && b[e.place] == e.value
  }

  predicate ChangedOk(changed: seq<Delta>, a: map<Place, string>, b: map<Place, string>, d: Delta) {
    d in changed <==>
      d.place in a && d.place in b && a[d.place] == d.before && b[d.place] == d.after && d.before != d.after
  }

  /** The report lists exactly the places where `b` differs from `a`. */
  ghost predicate Describes(report: Report, a: map<Place, string>, b: map<Place, string>) {
    && (forall e :: AddedOk(report.added, a, b, e))
    && (forall e :: AddedOk(report.removed, b, a, e))
    && (forall d :: ChangedOk(report.changed, a, b, d))
  }

  /** No place is listed twice. */
  predicate Once(report: Report) {
    && (forall i, j :: 0 <= i < j < |report.added| ==> report.added[i].place != report.added[j].place)
    && (forall i, j :: 0 <= i < j < |report.removed| ==> report.removed[i].place != report.removed[j].place)
    && (forall i, j :: 0 <= i < j < |report.changed| ==> report.changed[i].place != report.changed[j].place)
  }

  predicate PlacesIn(report: Report, kinds: seq<string>) {
    && (forall e :: e in report.added ==> e.place.0 in kinds)
    && (forall e :: e in report.removed ==> e.place.0 in kinds)
    && (forall d :: d in report.changed ==> d.place.0 in kinds)
  }

  function Joined(r: Report, s: Report): Report {
    Report(r.added + s.added, r.removed + s.removed, r.changed + s.changed)
  }

  // ----- the patch -----

  function Dropped(view: map<Place, string>, removed: seq<Listed>): map<Place, string> {
    if removed == [] then view else Dropped(view, removed[..|removed| - 1]) - {removed[|removed| - 1].place}
  }

  function Put(view: map<Place, string>, added: seq<Listed>): map<Place, string> {
    if added == [] then view
    else
      var n := |added| - 1;
      Put(view, added[..n])[added[n].place := added[n].value]
  }

  function Set(view: map<Place, string>, changed: seq<Delta>): map<Place, string> {
    if changed == [] then view
    else
      var n := |changed| - 1;
      Set(view, changed[..n])[changed[n].place := changed[n].after]
  }

  /** Apply a report to a view: removals, additions, changes. */
  function Apply(view: map<Place, string>, report: Report): map<Place, string> {
    Set(Put(Dropped(view, report.removed), report.added), report.changed)
  }

  lemma {:induction false} DroppedAt(view: map<Place, string>, removed: seq<Listed>, p: Place)
    ensures p in Dropped(view, removed) <==> p in view && !exists e :: e in removed && e.place == p
    ensures p in Dropped(view, removed) ==> Dropped(view, removed)[p] == view[p]
  {
    if removed != [] {
      var n := |removed| - 1;
      DroppedAt(view, removed[..n], p);
      assert removed == removed[..n] + [removed[n]];
    }
  }

  lemma {:induction false} PutAt(view: map<Place, string>, added: seq<Listed>, p: Place, value: string)
    requires forall e :: e in added && e.place == p ==> e.value == value
    ensures p in Put(view, added) <==> p in view || exists e :: e in added && e.place == p
    ensures p in Put(view, added) ==>
      Put(view, added)[p] == if exists e :: e in added && e.place == p then value else view[p]
  {
    if added != [] {
      var n := |added| - 1;
      assert added == added[..n] + [added[n]];
      PutAt(view, added[..n], p, value);
    }
  }

  lemma {:induction false} SetAt(view: map<Place, string>, changed: seq<Delta>, p: Place, value: string)
    requires forall d :: d in changed && d.place == p ==> d.after == value
    ensures p in Set(view, changed) <==> p in view || exists d :: d in changed && d.place == p
    ensures p in Set(view, changed) ==>
      Set(view, changed)[p] == if exists d :: d in changed && d.place == p then value else view[p]
  {
    if changed != [] {
      var n := |changed| - 1;
      assert changed == changed[..n] + [changed[n]];
      SetAt(view, changed[..n], p, value);
    }
  }

  lemma PatchAt(report: Report, a: map<Place, string>, b: map<Place, string>, p: Place)
    requires Describes(report, a, b)
    ensures p in Apply(a, report) <==> p in b
    ensures p in b ==> Apply(a, report)[p] == b[p]
  {
    var value := if p in b then b[p] else "";
    forall e | e in report.added && e.place == p
      ensures e.value == value
    {
      assert AddedOk(report.added, a, b, e);
    }
    forall d | d in report.changed && d.place == p
      ensures d.after == value
    {
      assert ChangedOk(report.changed, a, b, d);
    }
    DroppedAt(a, report.removed, p);
    var kept := Dropped(a, report.removed);
    PutAt(kept, report.added, p, value);
    SetAt(Put(kept, report.added), report.changed, p, value);
    if p in a { assert AddedOk(report.removed, b, a, Listed(p, a[p])); }
    if p in b {
      assert AddedOk(report.added, a, b, Listed(p, b[p]));
      if p in a { assert ChangedOk(report.changed, a, b, Delta(p, a[p], b[p])); }
    }
    forall e | e in report.removed && e.place == p
      ensures p in a && p !in b
    {
      assert AddedOk(report.removed, b, a, e);
    }
    forall e | e in report.added && e.place == p
      ensures p in b
    {
      assert AddedOk(report.added, a, b, e);
    }
    forall d | d in report.changed && d.place == p
      ensures p in b
    {
      assert ChangedOk(report.changed, a, b, d);
    }
  }

  /** The diff is a patch: in whatever order its entries are listed, applying it to
      the first shell's view gives exactly the second's. */
  lemma DiffIsAPatch(report: Report, a: map<Place, string>, b: map<Place, string>)
    requires Describes(report, a, b)
    ensures Apply(a, report) == b
  {
    forall p: Place {
      PatchAt(report, a, b, p);
    }
  }

  lemma {:induction false} FlippedAt(changed: seq<Delta>, d: Delta)
    ensures d in Flipped(changed) <==> Delta(d.place, d.after, d.before) in changed
  {
    if changed != [] {
      FlippedAt(changed[1..], d);
      assert changed == [changed[0]] + changed[1..];
    }
  }

  function Flipped(changed: seq<Delta>): seq<Delta> {
    if changed == [] then [] else [Delta(changed[0].place, changed[0].after, changed[0].before)] + Flipped(changed[1..])
  }

  function Inverse(report: Report): Report {
    Report(report.removed, report.added, Flipped(report.changed))
  }

  /** Asking for the diff the other way round inverts it. */
  lemma SwappingShellsInverts(report: Report, a: map<Place, string>, b: map<Place, string>)
    requires Describes(report, a, b)
    ensures Describes(Inverse(report), b, a)
    ensures Apply(Apply(a, report), Inverse(report)) == a
  {
    forall d
      ensures ChangedOk(Flipped(report.changed), b, a, d)
    {
      FlippedAt(report.changed, d);
      assert ChangedOk(report.changed, a, b, Delta(d.place, d.after, d.before));
    }
    DiffIsAPatch(report, a, b);
    DiffIsAPatch(Inverse(report), b, a);
  }

  /** The diff is empty exactly when the two views are equal, in particular when a
      shell is compared with itself. */
  lemma EmptyExactlyWhenEqual(report: Report, a: map<Place, string>, b: map<Place, string>)
    requires Describes(report, a, b)
    ensures report == Report([], [], []) <==> a == b
  {
    assert report.added != [] ==> AddedOk(report.added, a, b, report.added[0]);
    assert report.removed != [] ==> AddedOk(report.removed, b, a, report.removed[0]);
    assert report.changed != [] ==> ChangedOk(report.changed, a, b, report.changed[0]);
    if report == Report([], [], []) {
      DiffIsAPatch(report, a, b);
    }
  }

  // ----- the operation -----

  /** What a finished diff of several kinds says. */
  ghost predicate DiffOf(report: Report, kinds: seq<string>, rows: Catalog.Rows, shellA: string, shellB: string,
                         decode: string -> string)
  {
    && Once(report) && PlacesIn(report, kinds)
    && Describes(report, ViewAll(rows, kinds, shellA, decode), ViewAll(rows, kinds, shellB, decode))
  }

  method OpDefinitionsDiff(engine: Catalog.CanonicalEngine, knownKinds: seq<string>, decode: string -> string,
                           shellA: Option<string>, shellB: Option<string>, kind: Option<string>) returns (reply: Reply)
    requires forall i, j :: 0 <= i < j < |knownKinds| ==> knownKinds[i] != knownKinds[j]
    ensures reply.BadArgs? <==> shellA.None? || shellB.None?
    ensures reply.NoSuchKind? <==> shellA.Some? && shellB.Some? && kind.Some? && kind.value !in knownKinds
    ensures reply.Diffed? ==>
      DiffOf(reply.report, if kind.Some? then [kind.value] else knownKinds, engine.rows, shellA.value, shellB.value, decode)
  {
    hide DiffOf, DiffOfKind, View, Joined;
    if shellA.None? || shellB.None? { return BadArgs; }
    if kind.Some? && kind.value !in knownKinds { return NoSuchKind; }
    var kinds := if kind.Some? then [kind.value] else knownKinds;
    var report := Report([], [], []);
    NothingYet(kinds, engine.rows, shellA.value, shellB.value, decode);
    for i := 0 to |kinds|
      invariant DiffOf(report, kinds[..i], engine.rows, shellA.value, shellB.value, decode)
    {
      var part := DiffKind(kinds[i], engine.RowsForAllShells(kinds[i]), shellA.value, shellB.value, decode);
      NextKind(report, part, kinds, i, engine.rows, shellA.value, shellB.value, decode);
      report := Joined(report, part);
    }
    assert kinds[..|kinds|] == kinds;
    return Diffed(report);
  }

  lemma NothingYet(kinds: seq<string>, rows: Catalog.Rows, shellA: string, shellB: string, decode: string -> string)
    ensures DiffOf(Report([], [], []), kinds[..0], rows, shellA, shellB, decode)
  {
  }

  /** The loop body for one kind. */
  method DiffKind(kind: string, rows: seq<Catalog.Row>, shellA: string, shellB: string, decode: string -> string)
    returns (part: Report)
    ensures DiffOfKind(part, kind, View(rows, shellA, decode), View(rows, shellB, decode))
  {
    var aRows, bRows := FillViews(rows, shellA, shellB, decode);
    var added := FindAdded(kind, aRows, bRows);
    var removed, changed := FindRemoved(kind, aRows, bRows);
    part := Report(added, removed, changed);
  }

  method FillViews(rows: seq<Catalog.Row>, shellA: string, shellB: string, decode: string -> string)
    returns (aRows: map<string, string>, bRows: map<string, string>)
    ensures aRows == View(rows, shellA, decode) && bRows == View(rows, shellB, decode)
  {
    aRows, bRows := map[], map[];
    for i := 0 to |rows|
      invariant aRows == View(rows[..i], shellA, decode) && bRows == View(rows[..i], shellB, decode)
    {
      assert rows[..i + 1][..i] == rows[..i];
      var shell := Catalog.ShellOf(rows[i].shellId);
      if shell == shellA { aRows := aRows[rows[i].key := decode(rows[i].value)]; }
      if shell == shellB { bRows := bRows[rows[i].key := decode(rows[i].value)]; }
    }
    assert rows[..|rows|] == rows;
  }

  /** What one kind adds to the report. */
  ghost predicate AddedOfKind(added: seq<Listed>, kind: string, a: map<string, string>, b: map<string, string>, todo: set<string>) {
    && (forall e :: e in added <==> e.place.0 == kind && e.place.1 in b && e.place.1 !in todo && e.place.1 !in a && b[e.place.1] == e.value)
    && (forall i, j :: 0 <= i < j < |added| ==> added[i].place != added[j].place)
  }

  ghost predicate ChangedOfKind(changed: seq<Delta>, kind: string, a: map<string, string>, b: map<string, string>, todo: set<string>) {
    && (forall d :: d in changed <==> (d.place.0 == kind && d.place.1 in a && d.place.1 !in todo && d.place.1 in b
         && a[d.place.1] == d.before && b[d.place.1] == d.after && d.before != d.after))
    && (forall i, j :: 0 <= i < j < |changed| ==> changed[i].place != changed[j].place)
  }

  ghost predicate DiffOfKind(part: Report, kind: string, aRows: map<string, string>, bRows: map<string, string>) {
    && AddedOfKind(part.added, kind, aRows, bRows, {})
    && AddedOfKind(part.removed, kind, bRows, aRows, {})
    && ChangedOfKind(part.changed, kind, aRows, bRows, {})
  }

  /** The additions of one kind; hash maps are visited in any order. */
  method FindAdded(kind: string, aRows: map<string, string>, bRows: map<string, string>) returns (added: seq<Listed>)
    ensures AddedOfKind(added, kind, aRows, bRows, {})
  {
    added := [];
    var todo := bRows.Keys;
    while todo != {}
      invariant todo <= bRows.Keys
      invariant AddedOfKind(added, kind, aRows, bRows, todo)
      decreases todo
    {
      var k :| k in todo;
      if k !in aRows {
        forall i | 0 <= i < |added|
          ensures added[i].place != (kind, k)
        {
          assert added[i] in added;
        }
        added := added + [Listed((kind, k), bRows[k])];
      }
      todo := todo - {k};
    }
  }

  /** The removals and changes of one kind. */
  method FindRemoved(kind: string, aRows: map<string, string>, bRows: map<string, string>)
    returns (removed: seq<Listed>, changed: seq<Delta>)
    ensures AddedOfKind(removed, kind, bRows, aRows, {})
    ensures ChangedOfKind(changed, kind, aRows, bRows, {})
  {
    removed, changed := [], [];
    var todo := aRows.Keys;
    while todo != {}
      invariant todo <= aRows.Keys
      invariant AddedOfKind(removed, kind, bRows, aRows, todo)
      invariant ChangedOfKind(changed, kind, aRows, bRows, todo)
      decreases todo
    {
      var k :| k in todo;
      if k !in bRows {
        forall i | 0 <= i < |removed|
          ensures removed[i].place != (kind, k)
        {
          assert removed[i] in removed;
        }
        removed := removed + [Listed((kind, k), aRows[k])];
      } else if bRows[k] != aRows[k] {
        forall i | 0 <= i < |changed|
          ensures changed[i].place != (kind, k)
        {
          assert changed[i] in changed;
        }
        changed := changed + [Delta((kind, k), aRows[k], bRows[k])];
      }
      todo := todo - {k};
    }
  }

  lemma OfKindAt(kind: string, view: map<string, string>)
    ensures forall p: Place :: p in OfKind(kind, view) <==> p.0 == kind && p.1 in view
    ensures forall p: Place :: p in OfKind(kind, view) ==> OfKind(kind, view)[p] == view[p.1]
  {
    forall p: Place
      ensures p in OfKind(kind, view) <==> p.0 == kind && p.1 in view
    {
      if p.0 == kind && p.1 in view { assert p == (kind, p.1); }
    }
  }

  lemma {:induction false} ViewPlaces(rows: Catalog.Rows, kinds: seq<string>, shell: string, decode: string -> string)
    ensures forall p: Place :: p in ViewAll(rows, kinds, shell, decode) ==> p.0 in kinds
  {
    if kinds != [] {
      var n := |kinds| - 1;
      ViewPlaces(rows, kinds[..n], shell, decode);
      OfKindAt(kinds[n], View(Catalog.Listing(rows, kinds[n], true), shell, decode));
    }
  }

  /** Two lists of entries about disjoint kinds do not repeat a place. */
  lemma JoinOnce(report: Report, part: Report, kind: string, kinds: seq<string>)
    requires Once(report) && PlacesIn(report, kinds) && Once(part) && PlacesIn(part, [kind]) && kind !in kinds
    ensures Once(Joined(report, part)) && PlacesIn(Joined(report, part), kinds + [kind])
  {
    assert forall i :: 0 <= i < |report.added| ==> report.added[i] in report.added;
    assert forall i :: 0 <= i < |part.added| ==> part.added[i] in part.added;
    assert forall i :: 0 <= i < |report.removed| ==> report.removed[i] in report.removed;
    assert forall i :: 0 <= i < |part.removed| ==> part.removed[i] in part.removed;
    assert forall i :: 0 <= i < |report.changed| ==> report.changed[i] in report.changed;
    assert forall i :: 0 <= i < |part.changed| ==> part.changed[i] in part.changed;
  }

  lemma JoinAdded(xs: seq<Listed>, ys: seq<Listed>, kind: string, kinds: seq<string>,
                  a: map<Place, string>, b: map<Place, string>, aRows: map<string, string>, bRows: map<string, string>)
    requires forall e :: AddedOk(xs, a, b, e)
    requires AddedOfKind(ys, kind, aRows, bRows, {})
    requires kind !in kinds && forall p: Place :: p in a || p in b ==> p.0 in kinds
    ensures forall e :: AddedOk(xs + ys, a + OfKind(kind, aRows), b + OfKind(kind, bRows), e)
  {
    OfKindAt(kind, aRows);
    OfKindAt(kind, bRows);
    forall e
      ensures AddedOk(xs + ys, a + OfKind(kind, aRows), b + OfKind(kind, bRows), e)
    {
      assert AddedOk(xs, a, b, e);
    }
  }

  lemma JoinChanged(xs: seq<Delta>, ys: seq<Delta>, kind: string, kinds: seq<string>,
                    a: map<Place, string>, b: map<Place, string>, aRows: map<string, string>, bRows: map<string, string>)
    requires forall d :: ChangedOk(xs, a, b, d)
    requires ChangedOfKind(ys, kind, aRows, bRows, {})
    requires kind !in kinds && forall p: Place :: p in a || p in b ==> p.0 in kinds
    ensures forall d :: ChangedOk(xs + ys, a + OfKind(kind, aRows), b + OfKind(kind, bRows), d)
  {
    OfKindAt(kind, aRows);
    OfKindAt(kind, bRows);
    forall d
      ensures ChangedOk(xs + ys, a + OfKind(kind, aRows), b + OfKind(kind, bRows), d)
    {
      assert ChangedOk(xs, a, b, d);
    }
  }

  lemma JoinDescribes(report: Report, part: Report, kind: string, kinds: seq<string>,
                      a: map<Place, string>, b: map<Place, string>, aRows: map<string, string>, bRows: map<string, string>)
    requires Describes(report, a, b) && DiffOfKind(part, kind, aRows, bRows)
    requires kind !in kinds && forall p: Place :: p in a || p in b ==> p.0 in kinds
    ensures Describes(Joined(report, part), a + OfKind(kind, aRows), b + OfKind(kind, bRows))
  {
    JoinAdded(report.added, part.added, kind, kinds, a, b, aRows, bRows);
    JoinAdded(report.removed, part.removed, kind, kinds, b, a, bRows, aRows);
    JoinChanged(report.changed, part.changed, kind, kinds, a, b, aRows, bRows);
  }

  lemma KindOnce(part: Report, kind: string, aRows: map<string, string>, bRows: map<string, string>)
    requires DiffOfKind(part, kind, aRows, bRows)
    ensures Once(part) && PlacesIn(part, [kind])
  {
  }

  /** One turn of the loop over kinds. */
  lemma NextKind(report: Report, part: Report, kinds: seq<string>, i: nat, rows: Catalog.Rows, shellA: string, shellB: string,
                 decode: string -> string)
    requires i < |kinds| && forall j, k :: 0 <= j < k < |kinds| ==> kinds[j] != kinds[k]
    requires DiffOf(report, kinds[..i], rows, shellA, shellB, decode)
    requires DiffOfKind(part, kinds[i], View(Catalog.Listing(rows, kinds[i], true), shellA, decode), View(Catalog.Listing(rows, kinds[i], true), shellB, decode))
    ensures DiffOf(Joined(report, part), kinds[..i + 1], rows, shellA, shellB, decode)
  {
    hide Once, PlacesIn, Describes, DiffOfKind, OfKind, View, ViewAll;
    var aRows, bRows := View(Catalog.Listing(rows, kinds[i], true), shellA, decode), View(Catalog.Listing(rows, kinds[i], true), shellB, decode);
    ViewPlaces(rows, kinds[..i], shellA, decode);
    ViewPlaces(rows, kinds[..i], shellB, decode);
    KindOnce(part, kinds[i], aRows, bRows);
    JoinOnce(report, part, kinds[i], kinds[..i]);
    JoinDescribes(report, part, kinds[i], kinds[..i], ViewAll(rows, kinds[..i], shellA, decode),
                  ViewAll(rows, kinds[..i], shellB, decode), aRows, bRows);
    ViewSnoc(rows, kinds, i, shellA, decode);
    ViewSnoc(rows, kinds, i, shellB, decode);
    assert kinds[..i + 1] == kinds[..i] + [kinds[i]];
  }

  lemma ViewSnoc(rows: Catalog.Rows, kinds: seq<string>, i: nat, shell: string, decode: string -> string)
    requires i < |kinds|
    ensures ViewAll(rows, kinds[..i + 1], shell, decode)
      == ViewAll(rows, kinds[..i], shell, decode) + OfKind(kinds[i], View(Catalog.Listing(rows, kinds[i], true), shell, decode))
  {
    assert kinds[..i + 1][..i] == kinds[..i];
  }

  // ----- a shell's view is its part of the plain catalog -----

  lemma {:induction false} ViewAt(rows: seq<Catalog.Row>, shell: string, decode: string -> string, key: string, row: Catalog.Row)
    requires forall r :: r in rows && r.key == key && Catalog.ShellOf(r.shellId) == shell ==> r == row
    ensures key in View(rows, shell, decode) <==> exists r :: r in rows && r.key == key && Catalog.ShellOf(r.shellId) == shell
    ensures key in View(rows, shell, decode) ==> View(rows, shell, decode)[key] == decode(row.value)
  {
    if rows != [] {
      var n := |rows| - 1;
      assert rows == rows[..n] + [rows[n]];
      ViewAt(rows[..n], shell, decode, key, row);
    }
  }

  lemma KindView(rows: Catalog.Rows, plain: Refinement.Plain, kind: string, shell: string, decode: string -> string, key: string)
    requires Refinement.Represents(rows, plain)
    ensures var t := Refinement.Slot(kind, shell, key);
      && (key in View(Catalog.Listing(rows, kind, true), shell, decode) <==> t in plain)
      && (t in plain ==> View(Catalog.Listing(rows, kind, true), shell, decode)[key] == decode(plain[t].value))
  {
    var t := Refinement.Slot(kind, shell, key);
    Refinement.ListsEachRowOnce(rows, plain, kind, true);
    var listing := Catalog.Listing(rows, kind, true);
    forall r | r in listing && r.key == key && Catalog.ShellOf(r.shellId) == shell
      ensures t in plain && r == plain[t]
    {
      assert Refinement.Due(plain, kind, true, r);
    }
    ViewAt(listing, shell, decode, key, if t in plain then plain[t] else Catalog.Row("", "", 0, None, None, None, None, []));
  }

  /** The part of the plain catalog that one place of a shell's view stands for. */
  predicate Stands(view: map<Place, string>, plain: Refinement.Plain, kinds: seq<string>, shell: string,
                   decode: string -> string, p: Place)
  {
    var t := Refinement.Slot(p.0, shell, p.1);
    && (p in view <==> p.0 in kinds && t in plain)
    && (p in view ==> view[p] == decode(plain[t].value))
  }

  lemma StandsSnoc(view: map<Place, string>, plain: Refinement.Plain, kinds: seq<string>, kind: string, shell: string,
                   decode: string -> string, rows: map<string, string>, p: Place)
    requires Stands(view, plain, kinds, shell, decode, p)
    requires p.0 == kind ==>
      var t := Refinement.Slot(kind, shell, p.1);
      (p.1 in rows <==> t in plain) && (t in plain ==> rows[p.1] == decode(plain[t].value))
    ensures Stands(view + OfKind(kind, rows), plain, kinds + [kind], shell, decode, p)
  {
    OfKindAt(kind, rows);
  }

  /** There is one row for each kind, shell and key, so a shell's view is exactly its
      part of the plain catalog, whatever order the rows are listed in. */
  lemma {:induction false} ViewIsTheShellsPart(rows: Catalog.Rows, plain: Refinement.Plain, kinds: seq<string>, shell: string,
                                               decode: string -> string, p: Place)
    requires Refinement.Represents(rows, plain)
    ensures Stands(ViewAll(rows, kinds, shell, decode), plain, kinds, shell, decode, p)
  {
    if kinds != [] {
      var n := |kinds| - 1;
      ViewIsTheShellsPart(rows, plain, kinds[..n], shell, decode, p);
      KindView(rows, plain, kinds[n], shell, decode, p.1);
      StandsSnoc(ViewAll(rows, kinds[..n], shell, decode), plain, kinds[..n], kinds[n], shell, decode,
                 View(Catalog.Listing(rows, kinds[n], true), shell, decode), p);
      assert kinds == kinds[..n] + [kinds[n]];
    }
  }
}
