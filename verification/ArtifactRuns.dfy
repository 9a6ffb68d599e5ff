/** What the artifact store promises: what a collection may take, and that over any
    run the deduplicated store reads like a plain map from names to bytes. */
module ArtifactRuns {
  import opened Text
  import opened Artifacts

  // ----- what one collection takes -----

  lemma {:induction false} CapCountMinimal(items: seq<Item>, cap: int)
    ensures var k := CapCount(items, ItemTotal(items) - cap);
      && k <= |items|
      && (k < |items| ==> ItemTotal(items[k..]) <= cap)
      && (k > 0 ==> ItemTotal(items[k - 1..]) > cap)
  {
    if ItemTotal(items) > cap && items != [] {
      CapCountMinimal(items[1..], cap);
      var k := CapCount(items[1..], ItemTotal(items[1..]) - cap);
      assert items[1..][k..] == items[k + 1..];
      assert k > 0 ==> items[1..][k - 1..] == items[k..];
      assert items[0..] == items;
    } else {
      assert items[0..] == items;
    }
  }

  lemma {:induction false} ItemTotalSuffix(items: seq<Item>, k: nat, m: nat)
    requires k <= m <= |items|
    requires forall i :: 0 <= i < |items| ==> items[i].bytes >= 0
    ensures 0 <= ItemTotal(items[m..]) <= ItemTotal(items[k..])
    decreases |items| - k
  {
    if k < m {
      ItemTotalSuffix(items, k + 1, m);
      assert items[k..][1..] == items[k + 1..];
    } else if k < |items| {
      ItemTotalSuffix(items, k + 1, |items|);
      assert items[k..][1..] == items[k + 1..];
    }
  }

  lemma TakeOneMore(rows: map<string, Row>, sorted: seq<Item>, m: nat)
    requires FromTable(rows, sorted) && Distinct(sorted) && m < |sorted|
    ensures RowTotal(rows - Names(sorted[..m])) == sorted[m].bytes + RowTotal(rows - Names(sorted[..m + 1]))
  {
    NamesGrow(sorted, m);
    var kept := rows - Names(sorted[..m]);
    var n := sorted[m].name;
    assert n in kept && kept[n] == rows[n];
    RowTotalMinus(kept, n);
    assert kept - {n} == rows - Names(sorted[..m + 1]);
  }

  /** The rows left after the `m` oldest are dropped weigh what the rest of the
      listing weighs. */
  lemma {:induction false} KeptTotal(rows: map<string, Row>, sorted: seq<Item>, m: nat)
    requires Scan(rows, sorted) && m <= |sorted|
    ensures RowTotal(rows - Names(sorted[..m])) == ItemTotal(sorted[m..])
    decreases |sorted| - m
  {
    if m == |sorted| {
      assert sorted[..m] == sorted;
      assert rows - rows.Keys == map[];
    } else {
      KeptTotal(rows, sorted, m + 1);
      TakeOneMore(rows, sorted, m);
      assert sorted[m..][1..] == sorted[m + 1..];
    }
  }

  lemma {:induction false} AgedArePrefix(sorted: seq<Item>, cutoff: Option<int>) returns (a: nat)
    requires OldestFirst(sorted)
    ensures a <= |sorted|
    ensures forall i :: 0 <= i < |sorted| ==> (AgedOut(sorted[i].touched, cutoff) <==> i < a)
  {
    if sorted == [] || !AgedOut(sorted[0].touched, cutoff) {
      a := 0;
    } else {
      a := AgedArePrefix(sorted[1..], cutoff);
      a := a + 1;
      assert forall i :: 0 < i < |sorted| ==> sorted[i] == sorted[1..][i - 1];
    }
  }

  /** Both passes together take an initial segment of the oldest-first listing, even
      where they overlap and however the rows of equal age are listed. */
  lemma RemovedIsPrefix(rows: map<string, Row>, scan: seq<Item>, sorted: seq<Item>, cutoff: Option<int>, cap: Option<int>)
      returns (a: nat, k: nat, m: nat)
    requires Scan(rows, scan) && Scan(rows, sorted) && OldestFirst(sorted)
    ensures a <= m <= |sorted| && k <= m && (m == a || m == k)
    ensures k == if cap.None? then 0 else CapCount(sorted, ItemTotal(sorted) - cap.value)
    ensures forall i :: 0 <= i < |sorted| ==> (AgedOut(sorted[i].touched, cutoff) <==> i < a)
    ensures Removed(scan, sorted, cutoff, cap) == Names(sorted[..m])
  {
    a := AgedArePrefix(sorted, cutoff);
    k := if cap.None? then 0 else Taken(sorted, cap.value);
    m := if a > k then a else k;
    AgedNamesArePrefix(rows, scan, sorted, cutoff, a);
    NamesMonotone(sorted, a, m);
    NamesMonotone(sorted, k, m);
    assert Names(sorted[..0]) == {};
  }

  lemma AgedNamesArePrefix(rows: map<string, Row>, scan: seq<Item>, sorted: seq<Item>, cutoff: Option<int>, a: nat)
    requires Scan(rows, scan) && Scan(rows, sorted) && a <= |sorted|
    requires forall i :: 0 <= i < |sorted| ==> (AgedOut(sorted[i].touched, cutoff) <==> i < a)
    ensures Names(Aged(scan, cutoff)) == Names(sorted[..a])
  {
    AgedIsAScan(rows, scan, cutoff);
    NamesMonotone(sorted, a, |sorted|);
    assert sorted[..|sorted|] == sorted;
    hide Aged;
    forall n
      ensures n in Names(Aged(scan, cutoff)) <==> n in Names(sorted[..a])
    {
      if n in rows { var i := PlaceOf(rows, sorted, a, n); }
    }
  }

  lemma NamesMonotone(items: seq<Item>, k: nat, m: nat)
    requires k <= m <= |items|
    ensures Names(items[..k]) <= Names(items[..m])
  {
    forall n | n in Names(items[..k])
      ensures n in Names(items[..m])
    {
      var i :| 0 <= i < k && items[..k][i].name == n;
      assert items[..m][i].name == n;
    }
  }

  lemma PlaceOf(rows: map<string, Row>, sorted: seq<Item>, m: nat, n: string) returns (i: nat)
    requires Scan(rows, sorted) && n in rows && m <= |sorted|
    ensures i < |sorted| && sorted[i] == ItemOf(n, rows[n]) && (n in Names(sorted[..m]) <==> i < m)
  {
    assert n in Names(sorted);
    i :| 0 <= i < |sorted| && sorted[i].name == n;
    if j :| 0 <= j < m && sorted[..m][j].name == n {
      assert sorted[j].name == n;
      assert i == j;
    }
    if i < m { assert sorted[..m][i].name == n; }
  }

  /** No survivor is older than a row the collection took; an age limit alone takes
      exactly the rows past it. */
  lemma CollectsOldestFirst(rows: map<string, Row>, scan: seq<Item>, sorted: seq<Item>, cutoff: Option<int>, cap: Option<int>)
    requires Scan(rows, scan) && Scan(rows, sorted) && OldestFirst(sorted)
    ensures var gone := Removed(scan, sorted, cutoff, cap);
      && gone <= rows.Keys
      && (forall g, n :: g in gone && n in rows && n !in gone ==> rows[g].Touched() <= rows[n].Touched())
      && (forall n :: n in rows && AgedOut(rows[n].Touched(), cutoff) ==> n in gone)
      && (cap.None? ==> forall n :: n in gone ==> AgedOut(rows[n].Touched(), cutoff))
  {
    var gone := Removed(scan, sorted, cutoff, cap);
    var a, k, m := RemovedIsPrefix(rows, scan, sorted, cutoff, cap);
    assert sorted[..|sorted|] == sorted;
    NamesMonotone(sorted, m, |sorted|);
    forall g, n | g in gone && n in rows && n !in gone
      ensures rows[g].Touched() <= rows[n].Touched()
    {
      var i := PlaceOf(rows, sorted, m, g);
      var j := PlaceOf(rows, sorted, m, n);
    }
    forall n | n in rows
      ensures AgedOut(rows[n].Touched(), cutoff) ==> n in gone
      ensures cap.None? && n in gone ==> AgedOut(rows[n].Touched(), cutoff)
    {
      var i := PlaceOf(rows, sorted, m, n);
    }
  }

  lemma AllItemsWeighted(rows: map<string, Row>, sorted: seq<Item>)
    requires FromTable(rows, sorted) && forall n :: n in rows ==> rows[n].bytes >= 0
    ensures forall i :: 0 <= i < |sorted| ==> sorted[i].bytes >= 0
  {
    forall i | 0 <= i < |sorted|
      ensures sorted[i].bytes >= 0
    {
      assert rows[sorted[i].name].bytes >= 0;
    }
  }

  /** On the listing alone: from the `k`-th row on, the rest fits; with the row
      before it, the rest does not. */
  lemma SuffixUnderCap(sorted: seq<Item>, cap: int, k: nat, m: nat)
    requires k <= m <= |sorted|
    requires forall i :: 0 <= i < |sorted| ==> sorted[i].bytes >= 0
    requires k < |sorted| ==> ItemTotal(sorted[k..]) <= cap
    requires k > 0 ==> ItemTotal(sorted[k - 1..]) > cap
    ensures cap >= 0 ==> ItemTotal(sorted[m..]) <= cap
    ensures m > 0 && m == k ==> sorted[m - 1].bytes + ItemTotal(sorted[m..]) > cap
  {
    ItemTotalSuffix(sorted, k, m);
    if k == |sorted| { assert sorted[m..] == []; }
    if k > 0 { assert sorted[k - 1..][0] == sorted[k - 1] && sorted[k - 1..][1..] == sorted[k..]; }
  }

  lemma TakenSuffix(sorted: seq<Item>, cap: int, k: nat, m: nat)
    requires k == CapCount(sorted, ItemTotal(sorted) - cap) && k <= m <= |sorted|
    requires forall i :: 0 <= i < |sorted| ==> sorted[i].bytes >= 0
    ensures cap >= 0 ==> ItemTotal(sorted[m..]) <= cap
    ensures m > 0 && m == k ==> sorted[m - 1].bytes + ItemTotal(sorted[m..]) > cap
  {
    CapCountMinimal(sorted, cap);
    SuffixUnderCap(sorted, cap, k, m);
  }

  lemma SurvivorsWeigh(rows: map<string, Row>, scan: seq<Item>, sorted: seq<Item>, cutoff: Option<int>, cap: int)
      returns (m: nat)
    requires Scan(rows, scan) && Scan(rows, sorted) && OldestFirst(sorted)
    requires forall n :: n in rows ==> rows[n].bytes >= 0
    ensures m <= |sorted| && Removed(scan, sorted, cutoff, Some(cap)) == Names(sorted[..m])
    ensures RowTotal(rows - Removed(scan, sorted, cutoff, Some(cap))) == ItemTotal(sorted[m..])
    ensures cap >= 0 ==> ItemTotal(sorted[m..]) <= cap
    ensures (m > 0 && sorted[m - 1].bytes + ItemTotal(sorted[m..]) > cap)
      || forall i :: 0 <= i < m ==> AgedOut(sorted[i].touched, cutoff)
  {
    var a, k;
    a, k, m := RemovedIsPrefix(rows, scan, sorted, cutoff, Some(cap));
    KeptTotal(rows, sorted, m);
    AllItemsWeighted(rows, sorted);
    TakenSuffix(sorted, cap, k, m);
  }

  /** A cap that is not negative is met by the rows that survive. */
  lemma CollectsToTheCap(rows: map<string, Row>, scan: seq<Item>, sorted: seq<Item>, cutoff: Option<int>, cap: nat)
    requires Scan(rows, scan) && Scan(rows, sorted) && OldestFirst(sorted)
    requires forall n :: n in rows ==> rows[n].bytes >= 0
    ensures RowTotal(rows - Removed(scan, sorted, cutoff, Some(cap))) <= cap
  {
    var m := SurvivorsWeigh(rows, scan, sorted, cutoff, cap);
  }

  /** The cap takes no more than it needs: if it took any row that had not aged
      out, then some row as new as any taken would not have fitted under it. */
  lemma CapTakesNoMoreThanNeeded(rows: map<string, Row>, scan: seq<Item>, sorted: seq<Item>, cutoff: Option<int>, cap: int,
                                 taken: string) returns (newest: string)
    requires Scan(rows, scan) && Scan(rows, sorted) && OldestFirst(sorted)
    requires forall n :: n in rows ==> rows[n].bytes >= 0
    requires taken in rows && taken in Removed(scan, sorted, cutoff, Some(cap))
    requires !AgedOut(rows[taken].Touched(), cutoff)
    ensures newest in rows && newest in Removed(scan, sorted, cutoff, Some(cap))
    ensures forall o :: o in rows && o in Removed(scan, sorted, cutoff, Some(cap)) ==> rows[o].Touched() <= rows[newest].Touched()
    ensures RowTotal(rows - Removed(scan, sorted, cutoff, Some(cap))) + rows[newest].bytes > cap
  {
    var m := SurvivorsWeigh(rows, scan, sorted, cutoff, cap);
    var i := PlaceOf(rows, sorted, m, taken);
    newest := sorted[m - 1].name;
    assert sorted[..m][m - 1].name == newest;
    assert sorted[m - 1] == ItemOf(newest, rows[newest]);
    forall o | o in rows && o in Names(sorted[..m])
      ensures rows[o].Touched() <= rows[newest].Touched()
    {
      var j := PlaceOf(rows, sorted, m, o);
    }
  }

  // ----- whole runs -----

  datatype Op =
    | OpPut(name: string, value: Bytes, now: int)
    | OpGet(name: string, now: int)
    | OpGc(cutoff: Option<int>, cap: Option<int>, scan: seq<Item>, sorted: seq<Item>)

  function Step(hash: Bytes -> string, s: Store, op: Op): Store {
    match op
    case OpPut(name, value, now) => Put(hash, s, name, value, now)
    case OpGet(name, now) => Get(s, name, now).0
    case OpGc(cutoff, cap, scan, sorted) => Drop(s, Removed(scan, sorted, cutoff, cap))
  }

  /** The answers to the reads of a run, in order. */
  function Reads(hash: Bytes -> string, s: Store, ops: seq<Op>): seq<Option<Bytes>>
    decreases |ops|
  {
    if ops == [] then []
    else
      var rest := Reads(hash, Step(hash, s, ops[0]), ops[1..]);
      if !ops[0].OpGet? then rest
      else
        var out := Get(s, ops[0].name, ops[0].now).1;
        [if out.Content? then Some(out.value) else None] + rest
  }

  /** The names each collection of a run leaves. */
  function Kept(hash: Bytes -> string, s: Store, ops: seq<Op>): seq<set<string>>
    decreases |ops|
  {
    if ops == [] then [] else [Step(hash, s, ops[0]).rows.Keys] + Kept(hash, Step(hash, s, ops[0]), ops[1..])
  }

  /** The same run on a plain map, which a collection only restricts. */
  function PlainReads(m: map<string, Bytes>, ops: seq<Op>, kept: seq<set<string>>): seq<Option<Bytes>>
    requires |kept| == |ops|
    decreases |ops|
  {
    if ops == [] then []
    else
      match ops[0]
      case OpPut(name, value, _) => PlainReads(m[name := value], ops[1..], kept[1..])
      case OpGet(name, _) => [if name in m then Some(m[name]) else None] + PlainReads(m, ops[1..], kept[1..])
      case OpGc(_, _, _, _) => PlainReads(map n | n in m && n in kept[0] :: m[n], ops[1..], kept[1..])
  }

  /** The map the store stands for. */
  function Plain(hash: Bytes -> string, s: Store): map<string, Bytes>
    requires Inv(hash, s)
  {
    map n | n in s.rows :: s.blobs[s.rows[n].digest]
  }

  /** No stored blob shares this value's digest without being this value. */
  predicate NoCollision(hash: Bytes -> string, s: Store, value: Bytes) {
    hash(value) in s.blobs ==> s.blobs[hash(value)] == value
  }

  lemma PutRefines(hash: Bytes -> string, s: Store, name: string, value: Bytes, now: int)
    requires Inv(hash, s) && NoCollision(hash, s, value)
    ensures Inv(hash, Put(hash, s, name, value, now))
    ensures Plain(hash, Put(hash, s, name, value, now)) == Plain(hash, s)[name := value]
  {
    PutKeepsInv(hash, s, name, value, now);
    hide PutRow;
    var t := Put(hash, s, name, value, now);
    forall n | n in t.rows
      ensures Plain(hash, t)[n] == Plain(hash, s)[name := value][n]
    {
      assert t.rows[n].digest == if n == name then hash(value) else s.rows[n].digest;
    }
  }

  lemma PutKeepsInv(hash: Bytes -> string, s: Store, name: string, value: Bytes, now: int)
    requires Inv(hash, s) && NoCollision(hash, s, value)
    ensures Inv(hash, Put(hash, s, name, value, now))
    ensures forall n :: n in Put(hash, s, name, value, now).rows ==>
      Put(hash, s, name, value, now).rows[n].digest == if n == name then hash(value) else s.rows[n].digest
  {
  }

  lemma DropRefines(hash: Bytes -> string, s: Store, gone: set<string>)
    requires Inv(hash, s)
    ensures Inv(hash, Drop(s, gone))
    ensures Plain(hash, Drop(s, gone)) == map n | n in Plain(hash, s) && n !in gone :: Plain(hash, s)[n]
  {
    var t := Drop(s, gone);
    forall n | n in t.rows
      ensures t.rows[n].digest in t.blobs
    {
      assert Referenced(t.rows, t.rows[n].digest);
    }
  }

  lemma StepRefines(hash: Bytes -> string, s: Store, op: Op)
    requires Inv(hash, s) && (op.OpPut? ==> NoCollision(hash, s, op.value))
    ensures var t := Step(hash, s, op);
      Inv(hash, t) && Plain(hash, t) ==
        match op
        case OpPut(name, value, _) => Plain(hash, s)[name := value]
        case OpGet(_, _) => Plain(hash, s)
        case OpGc(_, _, _, _) => map n | n in Plain(hash, s) && n in t.rows.Keys :: Plain(hash, s)[n]
  {
    match op
    case OpPut(name, value, now) => PutRefines(hash, s, name, value, now);
    case OpGet(name, now) =>
    case OpGc(cutoff, cap, scan, sorted) => DropRefines(hash, s, Removed(scan, sorted, cutoff, cap));
  }

  /** Collision-freedom over the contents in play: what is stored and what the run
      will put. */
  predicate Injective(hash: Bytes -> string, contents: set<Bytes>) {
    forall x, y :: x in contents && y in contents && hash(x) == hash(y) ==> x == y
  }

  predicate Within(s: Store, ops: seq<Op>, contents: set<Bytes>) {
    && (forall d :: d in s.blobs ==> s.blobs[d] in contents)
    && (forall op :: op in ops && op.OpPut? ==> op.value in contents)
  }

  lemma StepStaysWithin(hash: Bytes -> string, s: Store, ops: seq<Op>, contents: set<Bytes>)
    requires ops != [] && Within(s, ops, contents)
    ensures Within(Step(hash, s, ops[0]), ops[1..], contents)
  {
  }

  /** Refinement over whole runs: with no digest collision among the contents in
      play, every read of every run of puts, gets and collections answers as the
      plain map does. */
  lemma {:induction false} RunRefinesPlainMap(hash: Bytes -> string, s: Store, ops: seq<Op>, contents: set<Bytes>)
    requires Inv(hash, s) && Injective(hash, contents) && Within(s, ops, contents)
    ensures |Kept(hash, s, ops)| == |ops|
    ensures Reads(hash, s, ops) == PlainReads(Plain(hash, s), ops, Kept(hash, s, ops))
    decreases |ops|
  {
    if ops != [] {
      var op := ops[0];
      if op.OpPut? {
        var d := hash(op.value);
        assert d in s.blobs ==> hash(s.blobs[d]) == d && s.blobs[d] in contents;
      }
      StepRefines(hash, s, op);
      var t := Step(hash, s, op);
      StepStaysWithin(hash, s, ops, contents);
      hide Step, Within, Injective;
      RunRefinesPlainMap(hash, t, ops[1..], contents);
      assert Kept(hash, s, ops)[1..] == Kept(hash, t, ops[1..]);
    }
  }

  /** Every blob is filed under its own hash; no operation ever changes that. */
  predicate FiledByHash(hash: Bytes -> string, s: Store) {
    forall d :: d in s.blobs ==> hash(s.blobs[d]) == d
  }

  lemma StepKeepsFiling(hash: Bytes -> string, s: Store, op: Op)
    requires FiledByHash(hash, s)
    ensures FiledByHash(hash, Step(hash, s, op))
  {
  }

  /** Reading back what was just put is right unless other contents that are stored
      collide with it. */
  lemma PutThenGet(hash: Bytes -> string, s: Store, name: string, value: Bytes, now: int, later: int)
    requires FiledByHash(hash, s)
    ensures Get(Put(hash, s, name, value, now), name, later).1 == Content(hash(value), value)
      <==> forall d :: d in s.blobs && hash(s.blobs[d]) == hash(value) ==> s.blobs[d] == value
  {
    assert hash(value) in s.blobs ==> hash(s.blobs[hash(value)]) == hash(value);
  }

  /** Fetching by digest: everything a name reaches is found under its digest, and
      whatever is found hashes to the digest asked for. */
  lemma FetchByDigest(hash: Bytes -> string, s: Store, digest: string)
    requires Inv(hash, s)
    ensures forall n :: n in Plain(hash, s) && s.rows[n].digest == digest ==>
      Fetch(s, digest) == Content(digest, Plain(hash, s)[n])
    ensures Fetch(s, digest).Content? ==> hash(Fetch(s, digest).value) == digest
  {
  }

  /** The same after every run from an empty store, where blobs are filed as they should
      be. */
  lemma PutThenGetAfterAnyRun(hash: Bytes -> string, ops: seq<Op>, name: string, value: Bytes, now: int, later: int)
    ensures var s := After(hash, Store(map[], map[]), ops);
      Get(Put(hash, s, name, value, now), name, later).1 == Content(hash(value), value)
      <==> forall d :: d in s.blobs && hash(s.blobs[d]) == hash(value) ==> s.blobs[d] == value
  {
    RunKeepsFiling(hash, Store(map[], map[]), ops);
    PutThenGet(hash, After(hash, Store(map[], map[]), ops), name, value, now, later);
  }

  lemma {:induction false} RunKeepsFiling(hash: Bytes -> string, s: Store, ops: seq<Op>)
    requires FiledByHash(hash, s)
    ensures FiledByHash(hash, After(hash, s, ops))
  {
    if ops != [] {
      RunKeepsFiling(hash, s, ops[..|ops| - 1]);
      StepKeepsFiling(hash, After(hash, s, ops[..|ops| - 1]), ops[|ops| - 1]);
    }
  }

  // ----- blobs that no name reaches -----

  /** On disk, and no row names it. */
  predicate Orphaned(s: Store, d: string) {
    d in s.blobs && !Referenced(s.rows, d)
  }

  ghost predicate NoOrphans(s: Store) {
    forall d :: !Orphaned(s, d)
  }

  predicate Backed(s: Store) {
    forall n :: n in s.rows ==> s.rows[n].digest in s.blobs
  }

  /** The put overwrites the last row that names the blob. */
  predicate Abandons(hash: Bytes -> string, s: Store, op: Op, d: string) {
    && op.OpPut? && hash(op.value) != d && op.name in s.rows && s.rows[op.name].digest == d
    && forall n :: n in s.rows && n != op.name ==> s.rows[n].digest != d
  }

  /** The put names the blob. */
  predicate Adopts(hash: Bytes -> string, op: Op, d: string) {
    op.OpPut? && hash(op.value) == d
  }

  /** A collection, whatever it drops, neither frees nor makes an orphan. */
  lemma DropKeepsOrphans(s: Store, gone: set<string>, d: string)
    ensures Orphaned(Drop(s, gone), d) <==> Orphaned(s, d)
    ensures Orphaned(s, d) ==> Drop(s, gone).blobs[d] == s.blobs[d]
    ensures NoOrphans(Drop(s, gone)) <==> NoOrphans(s)
  {
    var t := Drop(s, gone);
    forall e
      ensures Orphaned(t, e) <==> Orphaned(s, e)
    {
      if Referenced(t.rows, e) {
        var n :| n in t.rows && t.rows[n].digest == e;
        assert n in s.rows && s.rows[n].digest == e;
      }
    }
  }

  lemma PutMovesRow(hash: Bytes -> string, s: Store, op: Op, d: string)
    requires op.OpPut?
    ensures Referenced(Put(hash, s, op.name, op.value, op.now).rows, d)
      <==> hash(op.value) == d || exists n :: n in s.rows && n != op.name && s.rows[n].digest == d
  {
    var t := Put(hash, s, op.name, op.value, op.now);
    assert t.rows[op.name].digest == hash(op.value);
    if n :| n in s.rows && n != op.name && s.rows[n].digest == d {
      assert t.rows[n].digest == d;
    }
  }

  lemma StepOrphans(hash: Bytes -> string, s: Store, op: Op, d: string)
    requires Backed(s)
    ensures Backed(Step(hash, s, op))
    ensures Orphaned(Step(hash, s, op), d) <==> (Orphaned(s, d) && !Adopts(hash, op, d)) || Abandons(hash, s, op, d)
    ensures Orphaned(s, d) && !Adopts(hash, op, d) ==> Step(hash, s, op).blobs[d] == s.blobs[d]
  {
    var t := Step(hash, s, op);
    match op
    case OpPut(name, value, now) =>
      PutMovesRow(hash, s, op, d);
    case OpGet(name, now) =>
      if name in s.rows {
        assert t.rows[name].digest == s.rows[name].digest;
        if n :| n in s.rows && s.rows[n].digest == d { assert t.rows[n].digest == d; }
      }
    case OpGc(cutoff, cap, scan, sorted) =>
      var gone := Removed(scan, sorted, cutoff, cap);
      DropKeepsOrphans(s, gone, d);
      forall n | n in t.rows
        ensures t.rows[n].digest in t.blobs
      {
        assert Referenced(t.rows, t.rows[n].digest);
      }
  }

  /** Where every blob is named, a put leaves an orphan exactly when it overwrites the
      last row naming a blob with other contents. */
  lemma PutLeavesOrphanExactlyWhen(hash: Bytes -> string, s: Store, name: string, value: Bytes, now: int)
    requires Backed(s) && NoOrphans(s)
    ensures NoOrphans(Put(hash, s, name, value, now)) <==>
      !(name in s.rows && s.rows[name].digest != hash(value)
        && forall n :: n in s.rows && n != name ==> s.rows[n].digest != s.rows[name].digest)
  {
    var op := OpPut(name, value, now);
    var t := Put(hash, s, name, value, now);
    forall d
      ensures Orphaned(t, d) <==> Abandons(hash, s, op, d)
    {
      StepOrphans(hash, s, op, d);
    }
    if name in s.rows { assert Orphaned(t, s.rows[name].digest) <==> Abandons(hash, s, op, s.rows[name].digest); }
  }

  /** The store after a run. */
  function After(hash: Bytes -> string, s: Store, ops: seq<Op>): Store {
    if ops == [] then s else Step(hash, After(hash, s, ops[..|ops| - 1]), ops[|ops| - 1])
  }

  /** Some put of the run overwrote the last row naming the blob, and none after it
      stored the contents again. */
  predicate LeftBehind(hash: Bytes -> string, s: Store, ops: seq<Op>, d: string) {
    exists i :: 0 <= i < |ops| && AbandonedAt(hash, s, ops, d, i)
  }

  predicate AbandonedAt(hash: Bytes -> string, s: Store, ops: seq<Op>, d: string, i: nat)
    requires i < |ops|
  {
    Abandons(hash, After(hash, s, ops[..i]), ops[i], d) && NeverAdopted(hash, ops[i + 1..], d)
  }

  predicate NeverAdopted(hash: Bytes -> string, ops: seq<Op>, d: string) {
    forall i :: 0 <= i < |ops| ==> !Adopts(hash, ops[i], d)
  }

  lemma AbandonedSnoc(hash: Bytes -> string, s: Store, ops: seq<Op>, d: string, i: nat)
    requires i < |ops| - 1
    ensures AbandonedAt(hash, s, ops, d, i)
      <==> AbandonedAt(hash, s, ops[..|ops| - 1], d, i) && !Adopts(hash, ops[|ops| - 1], d)
  {
    var n := |ops| - 1;
    var init := ops[..n];
    assert init[..i] == ops[..i];
    var behind, before := ops[i + 1..], init[i + 1..];
    assert behind == before + [ops[n]];
    if NeverAdopted(hash, behind, d) {
      assert !Adopts(hash, behind[|before|], d);
      forall j | 0 <= j < |before|
        ensures !Adopts(hash, before[j], d)
      {
        assert !Adopts(hash, behind[j], d);
      }
    }
  }

  /** Over every run, whatever it collects: a blob is an orphan at the end exactly when
      the run left it behind, or it was one at the start and its contents were never
      put again. */
  lemma {:induction false} OrphanedExactlyWhenLeftBehind(hash: Bytes -> string, s: Store, ops: seq<Op>, d: string)
    requires Backed(s)
    ensures Backed(After(hash, s, ops))
    ensures Orphaned(After(hash, s, ops), d) <==>
      (Orphaned(s, d) && NeverAdopted(hash, ops, d)) || LeftBehind(hash, s, ops, d)
    ensures Orphaned(s, d) && NeverAdopted(hash, ops, d) ==> After(hash, s, ops).blobs[d] == s.blobs[d]
  {
    if ops != [] {
      var n := |ops| - 1;
      var init, last := ops[..n], ops[n];
      OrphanedExactlyWhenLeftBehind(hash, s, init, d);
      StepOrphans(hash, After(hash, s, init), last, d);
      assert ops == init + [last];
      forall i: nat | i < n
        ensures AbandonedAt(hash, s, ops, d, i) <==> AbandonedAt(hash, s, init, d, i) && !Adopts(hash, last, d)
      {
        AbandonedSnoc(hash, s, ops, d, i);
      }
      assert AbandonedAt(hash, s, ops, d, n) <==> Abandons(hash, After(hash, s, init), last, d);
      LeftBehindSnoc(hash, s, ops, d);
    }
  }

  lemma LeftBehindSnoc(hash: Bytes -> string, s: Store, ops: seq<Op>, d: string)
    requires ops != []
    ensures var n := |ops| - 1;
      LeftBehind(hash, s, ops, d) <==> AbandonedAt(hash, s, ops, d, n) || (LeftBehind(hash, s, ops[..n], d) && !Adopts(hash, ops[n], d))
  {
    var n := |ops| - 1;
    forall i: nat | i < n
      ensures AbandonedAt(hash, s, ops, d, i) <==> AbandonedAt(hash, s, ops[..n], d, i) && !Adopts(hash, ops[n], d)
    {
      AbandonedSnoc(hash, s, ops, d, i);
    }
  }

  /** A run from a store without orphans ends with one exactly when it left some blob
      behind. */
  lemma RunLeavesOrphansExactlyWhen(hash: Bytes -> string, s: Store, ops: seq<Op>)
    requires Backed(s) && NoOrphans(s)
    ensures NoOrphans(After(hash, s, ops)) <==> forall d :: !LeftBehind(hash, s, ops, d)
  {
    var t := After(hash, s, ops);
    forall d
      ensures Orphaned(t, d) <==> LeftBehind(hash, s, ops, d)
    {
      OrphanedExactlyWhenLeftBehind(hash, s, ops, d);
      assert !Orphaned(s, d);
    }
  }

  /** An overwritten blob survives every later run of puts, gets and collections that
      does not put its contents again. */
  lemma OverwrittenBlobIsNeverFreed(hash: Bytes -> string, s: Store, ops: seq<Op>, d: string)
    requires Backed(s) && Orphaned(s, d) && NeverAdopted(hash, ops, d)
    ensures Orphaned(After(hash, s, ops), d) && After(hash, s, ops).blobs[d] == s.blobs[d]
  {
    OrphanedExactlyWhenLeftBehind(hash, s, ops, d);
  }

  /** Two puts under one name are enough. */
  lemma TwoPutsLeaveAnOrphan(hash: Bytes -> string, v: Bytes, w: Bytes)
    requires hash(v) != hash(w)
    ensures Orphaned(After(hash, Store(map[], map[]), [OpPut("a", v, 0), OpPut("a", w, 1)]), hash(v))
  {
    var empty := Store(map[], map[]);
    var ops := [OpPut("a", v, 0), OpPut("a", w, 1)];
    assert ops[..1] == [ops[0]] && ops[..1][..0] == [] && After(hash, empty, []) == empty;
    assert After(hash, empty, ops[..1]) == Put(hash, empty, "a", v, 0);
  }

  // ----- age -----

  /** A put is the latest touch of its name exactly when the name was not read before,
      so a collection by age right after it takes the contents just put exactly when
      the contents they replaced were last read before the cutoff. */
  lemma PutRefreshesAgeExactlyWhenUnread(hash: Bytes -> string, s: Store, name: string, value: Bytes, now: int,
                                         cutoff: int, scan: seq<Item>, sorted: seq<Item>)
    requires cutoff <= now
    requires var rows := Put(hash, s, name, value, now).rows; Scan(rows, scan) && Scan(rows, sorted) && OldestFirst(sorted)
    ensures Put(hash, s, name, value, now).rows[name].Touched() == now
      <==> (name in s.rows && s.rows[name].lastGetAt.Some? ==> s.rows[name].lastGetAt.value == now)
    ensures name in Removed(scan, sorted, Some(cutoff), None)
      <==> name in s.rows && s.rows[name].lastGetAt.Some? && s.rows[name].lastGetAt.value < cutoff
  {
    var rows := Put(hash, s, name, value, now).rows;
    CollectsOldestFirst(rows, scan, sorted, Some(cutoff), None);
    assert name in rows;
  }

  /** So contents put at time 100 can be collected for being older than 50. */
  lemma FreshContentsCanAgeOut(hash: Bytes -> string, v: Bytes, w: Bytes)
    ensures var s0 := Put(hash, Store(map[], map[]), "a", v, 0);
      var s1 := Put(hash, Get(s0, "a", 1).0, "a", w, 100);
      var scan := [ItemOf("a", s1.rows["a"])];
      Scan(s1.rows, scan) && OldestFirst(scan) && Removed(scan, scan, Some(50), None) == {"a"}
  {
    var s0 := Put(hash, Store(map[], map[]), "a", v, 0);
    var s1 := Put(hash, Get(s0, "a", 1).0, "a", w, 100);
    var scan := [ItemOf("a", s1.rows["a"])];
    assert s1.rows.Keys == {"a"};
    assert Names(scan) == {"a"} by { assert scan[0].name == "a"; }
    AgedIsAScan(s1.rows, scan, Some(50));
  }
}
