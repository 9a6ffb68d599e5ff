/** The shared shell history: how a query is put together, and what its windowed form
    returns. */
module History {
  import opened Text

  const RECENT_PREFIX_WINDOW := 50_000

  /** The columns a query looks at; the others travel with the row. */
  datatype Row = Row(id: int, line: string, ts: int, cwd: Option<string>)

  /** `match` and `fts` are one mode; any other name compares whole lines. */
  datatype Mode = Fts | Like | Prefix | RecentPrefix | Exact

  datatype Query = Query(
    filter: Option<string>, mode: Mode, cwd: Option<string>, afterNs: Option<int>, beforeNs: Option<int>,
    limit: int, descending: bool)

  /** SQLite's `LIKE` and the full-text `MATCH`, pattern first. */
  datatype Sql = Sql(like: (string, string) -> bool, fts: (string, string) -> bool)

  // ----- ordering -----

  /** Newest first, or oldest first. */
  predicate Before(a: Row, b: Row, descending: bool) {
    if descending then a.ts > b.ts || (a.ts == b.ts && a.id > b.id) else a.ts < b.ts || (a.ts == b.ts && a.id < b.id)
  }

  function Insert(rows: seq<Row>, r: Row, descending: bool): seq<Row> {
    if rows == [] || Before(r, rows[0], descending) then [r] + rows else [rows[0]] + Insert(rows[1..], r, descending)
  }

  /** `ORDER BY h.ts_ns, h.id`. */
  function Sort(rows: seq<Row>, descending: bool): seq<Row> {
    if rows == [] then [] else Insert(Sort(rows[1..], descending), rows[0], descending)
  }

  predicate Sorted(rows: seq<Row>, descending: bool) {
    forall i, j :: 0 <= i < j < |rows| ==> Before(rows[i], rows[j], descending)
  }

  /** `LIMIT`: a negative one is none. */
  function Limited(rows: seq<Row>, limit: int): seq<Row> {
    if 0 <= limit < |rows| then rows[..limit] else rows
  }

  function Filter(rows: seq<Row>, keep: Row -> bool): seq<Row> {
    if rows == [] then [] else (if keep(rows[0]) then [rows[0]] else []) + Filter(rows[1..], keep)
  }

  // ----- what a query asks for -----

  predicate LineWanted(sql: Sql, q: Query, line: string) {
    match q.filter
    case None => true
    case Some(f) =>
      match q.mode
      case Fts => sql.fts(f, line)
      case Like => sql.like("%" + f + "%", line)
      case Prefix => sql.like(f + "%", line)
      case RecentPrefix => sql.like(f + "%", line)
      case Exact => line == f
  }

  predicate Wanted(sql: Sql, q: Query, r: Row) {
    && LineWanted(sql, q, r.line)
    && (q.cwd.Some? ==> r.cwd == q.cwd)
    && (q.afterNs.Some? ==> r.ts >= q.afterNs.value)
    && (q.beforeNs.Some? ==> r.ts <= q.beforeNs.value)
  }

  /** The rows the query looks through. */
  function From(windowed: bool, table: seq<Row>): seq<Row> {
    if windowed then Limited(Sort(table, true), RECENT_PREFIX_WINDOW) else table
  }

  function Keep(sql: Sql, q: Query): Row -> bool {
    r => Wanted(sql, q, r)
  }

  function Selected(sql: Sql, q: Query, table: seq<Row>): seq<Row> {
    Limited(Sort(Filter(From(q.mode.RecentPrefix?, table), Keep(sql, q)), q.descending), q.limit)
  }

  // ----- the statement -----

  /** A `WHERE` condition with one placeholder. */
  datatype Cond = LineMatches | LineLike | LineIs | CwdIs | TsAtLeast | TsAtMost

  datatype Value = Int(n: int) | Str(s: string)

  /** Placeholders stand, in text order: the window's limit if there is a window, one
      in each condition, the limit. */
  datatype Statement = Statement(windowed: bool, joined: bool, conds: seq<Cond>, descending: bool)

  predicate Holds(sql: Sql, cond: Cond, v: Value, r: Row) {
    match cond
    case LineMatches => v.Str? && sql.fts(v.s, r.line)
    case LineLike => v.Str? && sql.like(v.s, r.line)
    case LineIs => v.Str? && r.line == v.s
    case CwdIs => v.Str? && r.cwd == Some(v.s)
    case TsAtLeast => v.Int? && r.ts >= v.n
    case TsAtMost => v.Int? && r.ts <= v.n
  }

  predicate AllHold(sql: Sql, conds: seq<Cond>, vs: seq<Value>, r: Row)
    requires |conds| == |vs|
  {
    forall i :: 0 <= i < |conds| ==> Holds(sql, conds[i], vs[i], r)
  }

  function Bound(sql: Sql, conds: seq<Cond>, vs: seq<Value>): Row -> bool
    requires |conds| == |vs|
  {
    r => AllHold(sql, conds, vs, r)
  }

  /** The parameters fill the placeholders one for one, with numbers as limits. */
  predicate Binds(stmt: Statement, params: seq<Value>) {
    var w := if stmt.windowed then 1 else 0;
    && |params| == w + |stmt.conds| + 1
    && (stmt.windowed ==> params[0] == Int(RECENT_PREFIX_WINDOW))
    && params[|params| - 1].Int?
    && (stmt.joined <==> LineMatches in stmt.conds)
  }

  /** Running the statement with its parameters bound by position. */
  function Execute(sql: Sql, stmt: Statement, params: seq<Value>, table: seq<Row>): seq<Row>
    requires Binds(stmt, params)
  {
    var w := if stmt.windowed then 1 else 0;
    var n := |params| - 1;
    var from := if stmt.windowed then Limited(Sort(table, true), params[0].n) else table;
    Limited(Sort(Filter(from, Bound(sql, stmt.conds, params[w..n])), stmt.descending), params[n].n)
  }

  /** The condition and the parameter each part of a query adds, if it is there. */
  function LineConds(q: Query): seq<Cond> {
    if q.filter.None? then []
    else if q.mode.Fts? then [LineMatches]
    else if q.mode.Exact? then [LineIs]
    else [LineLike]
  }

  function LineValues(q: Query): seq<Value> {
    match q.filter
    case None => []
    case Some(f) =>
      if q.mode.Like? then [Str("%" + f + "%")]
      else if q.mode.Prefix? || q.mode.RecentPrefix? then [Str(f + "%")]
      else [Str(f)]
  }

  function CwdConds(q: Query): seq<Cond> { if q.cwd.Some? then [CwdIs] else [] }

  function CwdValues(q: Query): seq<Value> { if q.cwd.Some? then [Str(q.cwd.value)] else [] }

  function TimeConds(q: Query): seq<Cond> {
    (if q.afterNs.Some? then [TsAtLeast] else []) + (if q.beforeNs.Some? then [TsAtMost] else [])
  }

  function TimeValues(q: Query): seq<Value> {
    (if q.afterNs.Some? then [Int(q.afterNs.value)] else []) + (if q.beforeNs.Some? then [Int(q.beforeNs.value)] else [])
  }

  function Conds(q: Query): seq<Cond> {
    LineConds(q) + CwdConds(q) + TimeConds(q)
  }

  function Values(q: Query): (vs: seq<Value>)
    ensures |vs| == |Conds(q)|
  {
    LineValues(q) + CwdValues(q) + TimeValues(q)
  }

  lemma HoldBoth(sql: Sql, c: seq<Cond>, v: seq<Value>, c': seq<Cond>, v': seq<Value>, r: Row)
    requires |c| == |v| && |c'| == |v'|
    ensures AllHold(sql, c + c', v + v', r) <==> AllHold(sql, c, v, r) && AllHold(sql, c', v', r)
  {
    if AllHold(sql, c + c', v + v', r) {
      forall i | 0 <= i < |c|
        ensures Holds(sql, c[i], v[i], r)
      {
        assert Holds(sql, (c + c')[i], (v + v')[i], r);
      }
      forall i | 0 <= i < |c'|
        ensures Holds(sql, c'[i], v'[i], r)
      {
        assert Holds(sql, (c + c')[|c| + i], (v + v')[|v| + i], r);
      }
    }
  }

  lemma LineSays(sql: Sql, q: Query, r: Row)
    ensures AllHold(sql, LineConds(q), LineValues(q), r) <==> LineWanted(sql, q, r.line)
  {
    if q.filter.Some? {
      assert AllHold(sql, LineConds(q), LineValues(q), r) <==> Holds(sql, LineConds(q)[0], LineValues(q)[0], r);
    }
  }

  lemma CwdSays(sql: Sql, q: Query, r: Row)
    ensures AllHold(sql, CwdConds(q), CwdValues(q), r) <==> (q.cwd.Some? ==> r.cwd == q.cwd)
  {
    if q.cwd.Some? {
      assert AllHold(sql, CwdConds(q), CwdValues(q), r) <==> Holds(sql, CwdConds(q)[0], CwdValues(q)[0], r);
    }
  }

  lemma TimesSay(sql: Sql, q: Query, r: Row)
    ensures AllHold(sql, TimeConds(q), TimeValues(q), r)
      <==> (q.afterNs.Some? ==> r.ts >= q.afterNs.value) && (q.beforeNs.Some? ==> r.ts <= q.beforeNs.value)
  {
    var c := if q.afterNs.Some? then [TsAtLeast] else [];
    var v := if q.afterNs.Some? then [Int(q.afterNs.value)] else [];
    var c' := if q.beforeNs.Some? then [TsAtMost] else [];
    var v' := if q.beforeNs.Some? then [Int(q.beforeNs.value)] else [];
    HoldBoth(sql, c, v, c', v', r);
    if q.afterNs.Some? { assert AllHold(sql, c, v, r) <==> Holds(sql, TsAtLeast, v[0], r); }
    if q.beforeNs.Some? { assert AllHold(sql, c', v', r) <==> Holds(sql, TsAtMost, v'[0], r); }
  }

  /** Each condition, given the parameter that stands in its place, says what its part
      of the query wants, so together they say what the query wants. */
  lemma ConditionsSayWhatIsWanted(sql: Sql, q: Query, r: Row)
    ensures AllHold(sql, Conds(q), Values(q), r) <==> Wanted(sql, q, r)
  {
    HoldBoth(sql, LineConds(q) + CwdConds(q), LineValues(q) + CwdValues(q), TimeConds(q), TimeValues(q), r);
    HoldBoth(sql, LineConds(q), LineValues(q), CwdConds(q), CwdValues(q), r);
    LineSays(sql, q, r);
    CwdSays(sql, q, r);
    TimesSay(sql, q, r);
  }

  /** The condition for the filter, if there is one. */
  method PushLine(q: Query) returns (joined: bool, conds: seq<Cond>, params: seq<Value>)
    ensures joined == (q.filter.Some? && q.mode.Fts?) && conds == LineConds(q) && params == LineValues(q)
  {
    joined, conds, params := false, [], [];
    if q.filter.Some? {
      var f := q.filter.value;
      match q.mode {
        case Fts =>
          joined := true;
          conds, params := [LineMatches], [Str(f)];
        case Like => conds, params := [LineLike], [Str("%" + f + "%")];
        case Prefix => conds, params := [LineLike], [Str(f + "%")];
        case RecentPrefix => conds, params := [LineLike], [Str(f + "%")];
        case Exact => conds, params := [LineIs], [Str(f)];
      }
    }
  }

  /** The conditions on the time. */
  method PushTimes(q: Query) returns (conds: seq<Cond>, params: seq<Value>)
    ensures conds == TimeConds(q) && params == TimeValues(q)
  {
    conds, params := [], [];
    if q.afterNs.Some? { conds, params := conds + [TsAtLeast], params + [Int(q.afterNs.value)]; }
    if q.beforeNs.Some? { conds, params := conds + [TsAtMost], params + [Int(q.beforeNs.value)]; }
  }

  /** The statement, and its parameters in the order they are pushed. */
  method Assemble(q: Query) returns (stmt: Statement, params: seq<Value>)
    ensures stmt == Statement(q.mode.RecentPrefix?, q.filter.Some? && q.mode.Fts?, Conds(q), q.descending)
    ensures params == (if q.mode.RecentPrefix? then [Int(RECENT_PREFIX_WINDOW)] else []) + Values(q) + [Int(q.limit)]
  {
    hide LineConds, LineValues, TimeConds, TimeValues;
    params := if q.mode.RecentPrefix? then [Int(RECENT_PREFIX_WINDOW)] else [];
    ghost var head := params;
    var joined, conds, lineParams := PushLine(q);
    params := params + lineParams;
    if q.cwd.Some? { conds, params := conds + [CwdIs], params + [Str(q.cwd.value)]; }
    assert conds == LineConds(q) + CwdConds(q) && params == head + (LineValues(q) + CwdValues(q));
    var timeConds, timeParams := PushTimes(q);
    conds, params := conds + timeConds, params + timeParams;
    stmt := Statement(q.mode.RecentPrefix?, joined, conds, q.descending);
    assert params == head + Values(q);
    params := params + [Int(q.limit)];
  }

  lemma {:induction false} FilterSame(rows: seq<Row>, p: Row -> bool, q: Row -> bool)
    requires forall r :: p(r) == q(r)
    ensures Filter(rows, p) == Filter(rows, q)
  {
    if rows != [] { FilterSame(rows[1..], p, q); }
  }

  /** The assembled statement selects what the query asks for, on every table. */
  method RunQuery(sql: Sql, q: Query, table: seq<Row>) returns (rows: seq<Row>)
    ensures rows == Selected(sql, q, table)
  {
    var stmt, params := Assemble(q);
    var w := if stmt.windowed then 1 else 0;
    assert params[w..|params| - 1] == Values(q);
    rows := Execute(sql, stmt, params, table);
    forall r
      ensures Bound(sql, Conds(q), Values(q))(r) == Keep(sql, q)(r)
    {
      ConditionsSayWhatIsWanted(sql, q, r);
    }
    FilterSame(From(stmt.windowed, table), Bound(sql, Conds(q), Values(q)), Keep(sql, q));
  }

  // ----- sorting -----

  /** Ids tell rows apart, as the primary key does. */
  predicate IdsDiffer(rows: seq<Row>) {
    forall i, j :: 0 <= i < j < |rows| ==> rows[i].id != rows[j].id
  }

  lemma InsertMember(rows: seq<Row>, r: Row, descending: bool, x: Row)
    ensures x in Insert(rows, r, descending) <==> x == r || x in rows
  {
    if rows != [] && !Before(r, rows[0], descending) {
      InsertMember(rows[1..], r, descending, x);
      assert rows == [rows[0]] + rows[1..];
    }
  }

  lemma {:induction false} SortMember(rows: seq<Row>, descending: bool, x: Row)
    ensures x in Sort(rows, descending) <==> x in rows
  {
    if rows != [] {
      SortMember(rows[1..], descending, x);
      InsertMember(Sort(rows[1..], descending), rows[0], descending, x);
      assert rows == [rows[0]] + rows[1..];
    }
  }

  lemma {:induction false} InsertSorted(rows: seq<Row>, r: Row, descending: bool)
    requires Sorted(rows, descending) && forall x :: x in rows ==> x.id != r.id
    ensures Sorted(Insert(rows, r, descending), descending)
  {
    if rows == [] {
    } else if Before(r, rows[0], descending) {
    } else {
      InsertSorted(rows[1..], r, descending);
      var rest := Insert(rows[1..], r, descending);
      forall i | 0 <= i < |rest|
        ensures Before(rows[0], rest[i], descending)
      {
        InsertMember(rows[1..], r, descending, rest[i]);
      }
    }
  }

  lemma {:induction false} SortSorts(rows: seq<Row>, descending: bool)
    requires IdsDiffer(rows)
    ensures Sorted(Sort(rows, descending), descending)
  {
    if rows != [] {
      SortSorts(rows[1..], descending);
      forall x | x in Sort(rows[1..], descending)
        ensures x.id != rows[0].id
      {
        SortMember(rows[1..], descending, x);
      }
      InsertSorted(Sort(rows[1..], descending), rows[0], descending);
    }
  }

  lemma {:induction false} SortOfSorted(rows: seq<Row>, descending: bool)
    requires Sorted(rows, descending)
    ensures Sort(rows, descending) == rows
  {
    if rows != [] { SortOfSorted(rows[1..], descending); }
  }

  lemma {:induction false} FilterMember(rows: seq<Row>, keep: Row -> bool, x: Row)
    ensures x in Filter(rows, keep) <==> x in rows && keep(x)
  {
    if rows != [] {
      FilterMember(rows[1..], keep, x);
      assert rows == [rows[0]] + rows[1..];
    }
  }

  lemma {:induction false} FilterSorted(rows: seq<Row>, keep: Row -> bool, descending: bool)
    requires Sorted(rows, descending)
    ensures Sorted(Filter(rows, keep), descending)
  {
    if rows != [] {
      FilterSorted(rows[1..], keep, descending);
      var rest := Filter(rows[1..], keep);
      forall i | 0 <= i < |rest|
        ensures Before(rows[0], rest[i], descending)
      {
        FilterMember(rows[1..], keep, rest[i]);
      }
    }
  }

  lemma {:induction false} FilterInsert(rows: seq<Row>, r: Row, keep: Row -> bool, descending: bool)
    requires Sorted(rows, descending)
    ensures Filter(Insert(rows, r, descending), keep)
      == if keep(r) then Insert(Filter(rows, keep), r, descending) else Filter(rows, keep)
  {
    if rows == [] {
    } else if Before(r, rows[0], descending) {
      assert ([r] + rows)[1..] == rows;
      var kept := Filter(rows, keep);
      if kept != [] {
        FilterMember(rows, keep, kept[0]);
      }
    } else {
      FilterInsert(rows[1..], r, keep, descending);
      assert ([rows[0]] + Insert(rows[1..], r, descending))[1..] == Insert(rows[1..], r, descending);
      if !keep(rows[0]) && keep(r) { FilterHead(rows, keep); }
    }
  }

  lemma FilterHead(rows: seq<Row>, keep: Row -> bool)
    requires rows != [] && !keep(rows[0])
    ensures Filter(rows, keep) == Filter(rows[1..], keep)
  {
  }

  /** Filtering and sorting commute. */
  lemma {:induction false} FilterSort(rows: seq<Row>, keep: Row -> bool, descending: bool)
    requires IdsDiffer(rows)
    ensures Sort(Filter(rows, keep), descending) == Filter(Sort(rows, descending), keep)
  {
    if rows != [] {
      var rest := Filter(rows[1..], keep);
      assert ([rows[0]] + rest)[1..] == rest && [] + rest == rest;
      FilterSort(rows[1..], keep, descending);
      SortSorts(rows[1..], descending);
      FilterInsert(Sort(rows[1..], descending), rows[0], keep, descending);
    }
  }

  lemma {:induction false} FilterAppend(a: seq<Row>, b: seq<Row>, keep: Row -> bool)
    ensures Filter(a + b, keep) == Filter(a, keep) + Filter(b, keep)
  {
    if a == [] {
      assert a + b == b;
    } else {
      assert (a + b)[1..] == a[1..] + b;
      FilterAppend(a[1..], b, keep);
      var first, more, last := if keep(a[0]) then [a[0]] else [], Filter(a[1..], keep), Filter(b, keep);
      assert first + (more + last) == first + more + last;
    }
  }

  // ----- the windowed form -----

  /** The rows older than the window. */
  function Beyond(table: seq<Row>): seq<Row> {
    var all := Sort(table, true);
    if |all| <= RECENT_PREFIX_WINDOW then [] else all[RECENT_PREFIX_WINDOW..]
  }

  lemma WindowedSelection(sql: Sql, q: Query, table: seq<Row>)
    requires q.mode.RecentPrefix? && q.descending && IdsDiffer(table)
    ensures Selected(sql, q, table) == Limited(Filter(From(true, table), Keep(sql, q)), q.limit)
  {
    var window := From(true, table);
    SortSorts(table, true);
    FilterSorted(window, Keep(sql, q), true);
    SortOfSorted(Filter(window, Keep(sql, q)), true);
  }

  lemma FullSelection(sql: Sql, q: Query, table: seq<Row>)
    requires q.mode.Prefix? && q.descending && IdsDiffer(table)
    ensures Selected(sql, q, table)
      == Limited(Filter(From(true, table), Keep(sql, q)) + Filter(Beyond(table), Keep(sql, q)), q.limit)
  {
    FilterSort(table, Keep(sql, q), true);
    var all := Sort(table, true);
    assert all == From(true, table) + Beyond(table);
    FilterAppend(From(true, table), Beyond(table), Keep(sql, q));
  }

  lemma SameWanted(sql: Sql, q: Query, rows: seq<Row>)
    requires q.mode.RecentPrefix?
    ensures Filter(rows, Keep(sql, q)) == Filter(rows, Keep(sql, q.(mode := Prefix)))
  {
    FilterSame(rows, Keep(sql, q), Keep(sql, q.(mode := Prefix)));
  }

  /** Newest first, the windowed search returns an initial segment of what the full
      search returns, and all of it exactly when the limit is reached inside the
      window or nothing beyond the window matches. */
  lemma RecentPrefixIsAnInitialSegment(sql: Sql, q: Query, table: seq<Row>)
    requires q.mode.RecentPrefix? && q.descending && IdsDiffer(table)
    ensures var full := Selected(sql, q.(mode := Prefix), table);
      var recent := Selected(sql, q, table);
      var inside, beyond := Filter(From(true, table), Keep(sql, q)), Filter(Beyond(table), Keep(sql, q));
      recent <= full && (recent == full <==> (0 <= q.limit <= |inside|) || beyond == [])
  {
    WindowedSelection(sql, q, table);
    FullSelection(sql, q.(mode := Prefix), table);
    SameWanted(sql, q, From(true, table));
    SameWanted(sql, q, Beyond(table));
    LimitedPrefix(Filter(From(true, table), Keep(sql, q)), Filter(Beyond(table), Keep(sql, q)), q.limit);
  }

  lemma LimitedPrefix(a: seq<Row>, b: seq<Row>, limit: int)
    ensures Limited(a, limit) <= Limited(a + b, limit)
    ensures Limited(a, limit) == Limited(a + b, limit) <==> (0 <= limit <= |a|) || b == []
  {
    if b == [] {
      assert a + b == a;
    } else if 0 <= limit <= |a| {
      assert (a + b)[..limit] == a[..limit];
    } else {
      assert Limited(a, limit) == a;
      assert |Limited(a + b, limit)| > |a|;
      assert a + b == a + b[..1] + b[1..];
    }
  }

  predicate ByTime(rows: seq<Row>, descending: bool) {
    forall i, j :: 0 <= i < j < |rows| ==> if descending then rows[i].ts >= rows[j].ts else rows[i].ts <= rows[j].ts
  }

  lemma {:induction false} FilterIds(rows: seq<Row>, keep: Row -> bool)
    requires IdsDiffer(rows)
    ensures IdsDiffer(Filter(rows, keep))
  {
    if rows != [] {
      FilterIds(rows[1..], keep);
      var rest := Filter(rows[1..], keep);
      forall i | 0 <= i < |rest|
        ensures rest[i].id != rows[0].id
      {
        FilterMember(rows[1..], keep, rest[i]);
      }
    }
  }

  lemma SortedIdsDiffer(rows: seq<Row>, descending: bool)
    requires IdsDiffer(rows)
    ensures IdsDiffer(Sort(rows, descending))
  {
    SortSorts(rows, descending);
    var sorted := Sort(rows, descending);
    forall i, j | 0 <= i < j < |sorted|
      ensures sorted[i].id != sorted[j].id
    {
      assert Before(sorted[i], sorted[j], descending);
      SortMember(rows, descending, sorted[i]);
      SortMember(rows, descending, sorted[j]);
    }
  }

  /** The window holds the newest rows, whatever is asked for. */
  lemma WindowHoldsTheNewest(table: seq<Row>, inside: Row, beyond: Row)
    requires IdsDiffer(table) && inside in From(true, table) && beyond in Beyond(table)
    ensures inside in table && beyond in table && inside.ts >= beyond.ts
  {
    SortSorts(table, true);
    var all := Sort(table, true);
    var i :| 0 <= i < |From(true, table)| && From(true, table)[i] == inside;
    var j :| 0 <= j < |Beyond(table)| && Beyond(table)[j] == beyond;
    assert all[i] == inside && all[RECENT_PREFIX_WINDOW + j] == beyond;
    assert Before(all[i], all[RECENT_PREFIX_WINDOW + j], true);
    SortMember(table, true, inside);
    SortMember(table, true, beyond);
  }

  /** Every mode returns rows of the table that the query wants, in order of time. */
  lemma ResultsAreWantedAndInOrder(sql: Sql, q: Query, table: seq<Row>)
    requires IdsDiffer(table)
    ensures ByTime(Selected(sql, q, table), q.descending)
    ensures forall r :: r in Selected(sql, q, table) ==> r in table && Wanted(sql, q, r)
  {
    var from := From(q.mode.RecentPrefix?, table);
    var kept := Filter(from, Keep(sql, q));
    SortedIdsDiffer(table, true);
    FilterIds(from, Keep(sql, q));
    SortSorts(kept, q.descending);
    forall r | r in Selected(sql, q, table)
      ensures r in table && Wanted(sql, q, r)
    {
      SortMember(kept, q.descending, r);
      FilterMember(from, Keep(sql, q), r);
      SortMember(table, true, r);
    }
  }

  /** What the query wants of the rows it looks through. */
  predicate Eligible(sql: Sql, q: Query, table: seq<Row>, r: Row) {
    r in From(q.mode.RecentPrefix?, table) && Wanted(sql, q, r)
  }

  /** Nothing wanted is left out but for the limit: a result shorter than the limit, or
      with none, holds every wanted row, and what a full one leaves out comes after all
      it holds. */
  lemma LeftOutOnlyBeyondTheLimit(sql: Sql, q: Query, table: seq<Row>, r: Row)
    requires IdsDiffer(table) && Eligible(sql, q, table, r) && r !in Selected(sql, q, table)
    ensures 0 <= q.limit == |Selected(sql, q, table)|
    ensures forall s :: s in Selected(sql, q, table) ==> Before(s, r, q.descending)
  {
    var from := From(q.mode.RecentPrefix?, table);
    var kept := Filter(from, Keep(sql, q));
    var sorted := Sort(kept, q.descending);
    SortedIdsDiffer(table, true);
    FilterIds(from, Keep(sql, q));
    SortSorts(kept, q.descending);
    FilterMember(from, Keep(sql, q), r);
    SortMember(kept, q.descending, r);
    var i :| 0 <= i < |sorted| && sorted[i] == r;
    var out := Selected(sql, q, table);
    assert out == Limited(sorted, q.limit);
    assert forall x :: 0 <= x < |out| ==> out[x] == sorted[x];
    assert i >= |out|;
    forall s | s in out
      ensures Before(s, r, q.descending)
    {
      var j :| 0 <= j < |out| && out[j] == s;
      assert sorted[j] == s;
    }
  }

  /** No row is returned twice, and never more than the limit. */
  lemma ResultsAreDistinct(sql: Sql, q: Query, table: seq<Row>)
    requires IdsDiffer(table)
    ensures IdsDiffer(Selected(sql, q, table))
    ensures q.limit >= 0 ==> |Selected(sql, q, table)| <= q.limit
  {
    var from := From(q.mode.RecentPrefix?, table);
    SortedIdsDiffer(table, true);
    FilterIds(from, Keep(sql, q));
    SortedIdsDiffer(Filter(from, Keep(sql, q)), q.descending);
  }

  // ----- appending -----

  /** The history table: ids are given out in increasing order, and a new row is
      searched by every query it matches. */
  class HistoryDb {
    var rows: seq<Row>

    ghost predicate Valid()
      reads this
    {
      forall i, j :: 0 <= i < j < |rows| ==> rows[i].id < rows[j].id
    }

    constructor ()
      ensures Valid() && rows == []
    {
      rows := [];
    }

    method Append(line: string, ts: int, cwd: Option<string>) returns (id: int)
      requires Valid()
      modifies this
      ensures Valid() && IdsDiffer(rows)
      ensures rows == old(rows) + [Row(id, line, ts, cwd)]
      ensures forall r :: r in old(rows) ==> r.id < id
    {
      id := if rows == [] then 1 else rows[|rows| - 1].id + 1;
      rows := rows + [Row(id, line, ts, cwd)];
    }
  }
}
