/** The namespaced key-value cache: rows with an expiry time, deleted when a `get`
    meets them expired. */
module Cache {
  import opened Text

  type Bytes = seq<Byte>

  datatype Slot = Slot(ns: string, key: string)

  datatype Row = Row(value: Bytes, createdAt: int, updatedAt: int, expiresAt: Option<int>)

  type Table = map<Slot, Row>

  /** A missing name argument is passed as the empty string: both are refused. */
  datatype Op =
    | Put(ns: string, key: string, value: Option<Bytes>, ttlSecs: Option<int>)
    | Get(ns: string, key: string)
    | Del(ns: string, key: string)
    | List(ns: string, prefix: string)
    | StatsOf(ns: string)
    | StatsAll

  datatype Reply =
    | BadArgs
    | NoSuchFile
    | Stored(bytes: nat, expiresAt: Option<int>)
    | Found(value: Bytes, createdAt: int, updatedAt: int, expires: Option<int>)
    | Deleted(deleted: bool)
    | Keys(keys: seq<string>, count: nat)
    | NsStats(keyCount: nat, byteCount: nat)
    | AllStats(totalKeys: nat, totalBytes: nat, namespaceCount: nat)

  function ExpiryOf(now: int, ttlSecs: Option<int>): Option<int> {
    if ttlSecs.None? then None else Some(Wrap64(now + SaturatingNanos(ttlSecs.value)))
  }

  /** `expires_at IS NULL OR expires_at >= now`. */
  predicate Live(r: Row, now: int) {
    r.expiresAt.Some? ==> r.expiresAt.value >= now
  }

  function LiveKeys(kv: Table, ns: string, now: int): (keys: set<string>)
    ensures forall k :: k in keys <==> Slot(ns, k) in kv && Live(kv[Slot(ns, k)], now)
  {
    var keys := set s | s in kv && s.ns == ns && Live(kv[s], now) :: s.key;
    assert forall k :: Slot(ns, k) in kv && Live(kv[Slot(ns, k)], now) ==> Slot(ns, k).key in keys;
    keys
  }

  function LiveNamespaces(kv: Table, now: int): set<string> {
    set s | s in kv && Live(kv[s], now) :: s.ns
  }

  /** `SUM(LENGTH(v))` over some keys of a namespace. */
  function ByteCount(kv: Table, ns: string, keys: set<string>): nat
    requires forall k :: k in keys ==> Slot(ns, k) in kv
  {
    if keys == {} then 0
    else
      var k := Least(keys);
      |kv[Slot(ns, k)].value| + ByteCount(kv, ns, keys - {k})
  }

  function TotalKeys(kv: Table, namespaces: set<string>, now: int): nat {
    if namespaces == {} then 0
    else
      var ns := Least(namespaces);
      |LiveKeys(kv, ns, now)| + TotalKeys(kv, namespaces - {ns}, now)
  }

  function TotalBytes(kv: Table, namespaces: set<string>, now: int): nat {
    if namespaces == {} then 0
    else
      var ns := Least(namespaces);
      ByteCount(kv, ns, LiveKeys(kv, ns, now)) + TotalBytes(kv, namespaces - {ns}, now)
  }

  // ----- one operation -----

  function PutRow(kv: Table, s: Slot, value: Bytes, ttlSecs: Option<int>, now: int): Row {
    Row(value, if s in kv then kv[s].createdAt else now, now, ExpiryOf(now, ttlSecs))
  }

  /** The reply to an operation; `like` is SQL's prefix match on keys. */
  function ReplyTo(kv: Table, op: Op, now: int, like: (string, string) -> bool): Reply {
    match op
    case Put(ns, key, value, ttlSecs) =>
      if ns == "" || key == "" || value.None? then BadArgs else Stored(|value.value|, ExpiryOf(now, ttlSecs))
    case Get(ns, key) =>
      var s := Slot(ns, key);
      if ns == "" || key == "" then BadArgs
      else if s !in kv || !Live(kv[s], now) then NoSuchFile
      else Found(kv[s].value, kv[s].createdAt, kv[s].updatedAt, kv[s].expiresAt)
    case Del(ns, key) =>
      if ns == "" || key == "" then BadArgs else Deleted(Slot(ns, key) in kv)
    case List(ns, prefix) =>
      if ns == "" then BadArgs
      else
        var keys := SortedKeys(set k | k in LiveKeys(kv, ns, now) && like(prefix, k));
        Keys(keys, |keys|)
    case StatsOf(ns) =>
      NsStats(|LiveKeys(kv, ns, now)|, ByteCount(kv, ns, LiveKeys(kv, ns, now)))
    case StatsAll =>
      var namespaces := LiveNamespaces(kv, now);
      AllStats(TotalKeys(kv, namespaces, now), TotalBytes(kv, namespaces, now), |namespaces|)
  }

  /** The table afterwards. With `lazily`, a `get` deletes the expired row it meets. */
  function After(kv: Table, op: Op, now: int, lazily: bool): Table {
    match op
    case Put(ns, key, value, ttlSecs) =>
      if ns == "" || key == "" || value.None? then kv
      else kv[Slot(ns, key) := PutRow(kv, Slot(ns, key), value.value, ttlSecs, now)]
    case Get(ns, key) =>
      if lazily && Slot(ns, key) in kv && !Live(kv[Slot(ns, key)], now) && ns != "" && key != "" then kv - {Slot(ns, key)}
      else kv
    case Del(ns, key) => if ns == "" || key == "" then kv else kv - {Slot(ns, key)}
    case _ => kv
  }

  class CacheDb {
    var kv: Table

    constructor ()
      ensures kv == map[]
    {
      kv := map[];
    }

    method OpPut(ns: string, key: string, value: Option<Bytes>, ttlSecs: Option<int>, now: int, like: (string, string) -> bool)
      returns (reply: Reply)
      modifies this
      ensures reply == ReplyTo(old(kv), Put(ns, key, value, ttlSecs), now, like)
      ensures kv == After(old(kv), Put(ns, key, value, ttlSecs), now, true)
    {
      if ns == "" || key == "" || value.None? { return BadArgs; }
      var expiresAt := if ttlSecs.None? then None else Some(Wrap64(now + SaturatingNanos(ttlSecs.value)));
      var s := Slot(ns, key);
      if s in kv {
        kv := kv[s := kv[s].(value := value.value, updatedAt := now, expiresAt := expiresAt)];
      } else {
        kv := kv[s := Row(value.value, now, now, expiresAt)];
      }
      return Stored(|value.value|, expiresAt);
    }

    method OpGet(ns: string, key: string, now: int, like: (string, string) -> bool) returns (reply: Reply)
      modifies this
      ensures reply == ReplyTo(old(kv), Get(ns, key), now, like)
      ensures kv == After(old(kv), Get(ns, key), now, true)
    {
      if ns == "" || key == "" { return BadArgs; }
      var s := Slot(ns, key);
      if s !in kv { return NoSuchFile; }
      var row := kv[s];
      if row.expiresAt.Some? && row.expiresAt.value < now {
        kv := kv - {s};
        return NoSuchFile;
      }
      return Found(row.value, row.createdAt, row.updatedAt, row.expiresAt);
    }

    method OpDel(ns: string, key: string, now: int, like: (string, string) -> bool) returns (reply: Reply)
      modifies this
      ensures reply == ReplyTo(old(kv), Del(ns, key), now, like)
      ensures kv == After(old(kv), Del(ns, key), now, true)
    {
      if ns == "" || key == "" { return BadArgs; }
      var found := Slot(ns, key) in kv;
      kv := kv - {Slot(ns, key)};
      return Deleted(found);
    }
  }

  // ----- lazy expiry cannot be seen -----

  /** Equal but for when a row was first created and whether a delete found one. */
  predicate SameReply(a: Reply, b: Reply) {
    match (a, b)
    case (Found(v, _, u, e), Found(v', _, u', e')) => v == v' && u == u' && e == e'
    case (Deleted(_), Deleted(_)) => true
    case _ => a == b
  }

  /** One slot of the two stores: rows agree but for `created_at`, and a row only the
      store without deletion holds has expired. */
  predicate Agree(lazy: Table, full: Table, now: int, s: Slot) {
    && (s in lazy ==> s in full && lazy[s].(createdAt := 0) == full[s].(createdAt := 0))
    && (s in full && s !in lazy ==> !Live(full[s], now))
  }

  ghost predicate Agreeing(lazy: Table, full: Table, now: int) {
    forall s :: Agree(lazy, full, now, s)
  }

  lemma StepKeepsAgreeing(lazy: Table, full: Table, before: int, op: Op, now: int)
    requires Agreeing(lazy, full, before) && before <= now
    ensures Agreeing(After(lazy, op, now, true), After(full, op, now, false), now)
  {
    var lazy', full' := After(lazy, op, now, true), After(full, op, now, false);
    forall s
      ensures Agree(lazy', full', now, s)
    {
      assert Agree(lazy, full, before, s);
    }
  }

  lemma SameLiveKeys(lazy: Table, full: Table, before: int, now: int, ns: string)
    requires Agreeing(lazy, full, before) && before <= now
    ensures LiveKeys(lazy, ns, now) == LiveKeys(full, ns, now)
    ensures ByteCount(lazy, ns, LiveKeys(lazy, ns, now)) == ByteCount(full, ns, LiveKeys(full, ns, now))
  {
    forall k
      ensures k in LiveKeys(lazy, ns, now) <==> k in LiveKeys(full, ns, now)
    {
      assert Agree(lazy, full, before, Slot(ns, k));
    }
    assert LiveKeys(lazy, ns, now) == LiveKeys(full, ns, now);
    var keys := LiveKeys(lazy, ns, now);
    forall k | k in keys
      ensures lazy[Slot(ns, k)].value == full[Slot(ns, k)].value
    {
      assert Agree(lazy, full, before, Slot(ns, k));
    }
    SameByteCount(lazy, full, ns, keys);
  }

  lemma {:induction false} SameByteCount(a: Table, b: Table, ns: string, keys: set<string>)
    requires forall k :: k in keys ==> Slot(ns, k) in a && Slot(ns, k) in b && a[Slot(ns, k)].value == b[Slot(ns, k)].value
    ensures ByteCount(a, ns, keys) == ByteCount(b, ns, keys)
  {
    if keys != {} { SameByteCount(a, b, ns, keys - {Least(keys)}); }
  }

  lemma {:induction false} SameTotals(a: Table, b: Table, namespaces: set<string>, now: int)
    requires forall ns :: ns in namespaces ==>
      LiveKeys(a, ns, now) == LiveKeys(b, ns, now)
      && ByteCount(a, ns, LiveKeys(a, ns, now)) == ByteCount(b, ns, LiveKeys(b, ns, now))
    ensures TotalKeys(a, namespaces, now) == TotalKeys(b, namespaces, now)
    ensures TotalBytes(a, namespaces, now) == TotalBytes(b, namespaces, now)
  {
    if namespaces != {} { SameTotals(a, b, namespaces - {Least(namespaces)}, now); }
  }

  lemma SameNamespaces(lazy: Table, full: Table, before: int, now: int)
    requires Agreeing(lazy, full, before) && before <= now
    ensures LiveNamespaces(lazy, now) == LiveNamespaces(full, now)
  {
    var a, b := LiveNamespaces(lazy, now), LiveNamespaces(full, now);
    forall ns | ns in a
      ensures ns in b
    {
      var s :| s in lazy && Live(lazy[s], now) && s.ns == ns;
      assert Agree(lazy, full, before, s);
    }
    forall ns | ns in b
      ensures ns in a
    {
      var s :| s in full && Live(full[s], now) && s.ns == ns;
      assert Agree(lazy, full, before, s);
    }
  }

  lemma SameAnswer(lazy: Table, full: Table, before: int, op: Op, now: int, like: (string, string) -> bool)
    requires Agreeing(lazy, full, before) && before <= now
    ensures SameReply(ReplyTo(lazy, op, now, like), ReplyTo(full, op, now, like))
  {
    match op
    case Put(_, _, _, _) =>
    case Get(ns, key) => assert Agree(lazy, full, before, Slot(ns, key));
    case Del(_, _) =>
    case List(ns, prefix) => SameLiveKeys(lazy, full, before, now, ns);
    case StatsOf(ns) => SameLiveKeys(lazy, full, before, now, ns);
    case StatsAll =>
      SameNamespaces(lazy, full, before, now);
      forall ns
        ensures LiveKeys(lazy, ns, now) == LiveKeys(full, ns, now)
        ensures ByteCount(lazy, ns, LiveKeys(lazy, ns, now)) == ByteCount(full, ns, LiveKeys(full, ns, now))
      {
        SameLiveKeys(lazy, full, before, now, ns);
      }
      SameTotals(lazy, full, LiveNamespaces(full, now), now);
  }

  datatype Call = Call(op: Op, now: int)

  function Replies(kv: Table, calls: seq<Call>, lazily: bool, like: (string, string) -> bool): (replies: seq<Reply>)
    ensures |replies| == |calls|
    decreases |calls|
  {
    if calls == [] then []
    else
      [ReplyTo(kv, calls[0].op, calls[0].now, like)]
      + Replies(After(kv, calls[0].op, calls[0].now, lazily), calls[1..], lazily, like)
  }

  predicate ClockFrom(calls: seq<Call>, start: int) {
    calls != [] ==> start <= calls[0].now && ClockFrom(calls[1..], calls[0].now)
  }

  lemma {:induction false} AgreeingStoresAnswerAlike(lazy: Table, full: Table, before: int, calls: seq<Call>,
                                                     like: (string, string) -> bool, i: nat)
    requires Agreeing(lazy, full, before) && ClockFrom(calls, before) && i < |calls|
    ensures SameReply(Replies(lazy, calls, true, like)[i], Replies(full, calls, false, like)[i])
    decreases |calls|
  {
    var op, now := calls[0].op, calls[0].now;
    SameAnswer(lazy, full, before, op, now, like);
    StepKeepsAgreeing(lazy, full, before, op, now);
    var lazy', full' := After(lazy, op, now, true), After(full, op, now, false);
    if i > 0 { AgreeingStoresAnswerAlike(lazy', full', now, calls[1..], like, i - 1); }
  }

  /** While the clock does not run backwards, no run of operations can tell the store
      from one that never deletes expired rows, but for `created_at` and the
      `deleted` flag. */
  lemma LazyExpiryIsInvisible(kv: Table, calls: seq<Call>, start: int, like: (string, string) -> bool, i: nat)
    requires ClockFrom(calls, start) && i < |calls|
    ensures SameReply(Replies(kv, calls, true, like)[i], Replies(kv, calls, false, like)[i])
  {
    assert forall s :: Agree(kv, kv, start, s);
    AgreeingStoresAnswerAlike(kv, kv, start, calls, like, i);
  }

  // ----- exactly while the clock runs forward -----

  predicate RunsForward(ts: seq<int>) {
    forall i :: 0 <= i < |ts| - 1 ==> ts[i] <= ts[i + 1]
  }

  predicate HasTimes(calls: seq<Call>, ts: seq<int>) {
    |calls| == |ts| && forall i :: 0 <= i < |ts| ==> calls[i].now == ts[i]
  }

  /** Nothing in the run tells the two stores apart. */
  predicate Invisible(kv: Table, calls: seq<Call>, like: (string, string) -> bool) {
    forall i :: 0 <= i < |calls| ==> SameReply(Replies(kv, calls, true, like)[i], Replies(kv, calls, false, like)[i])
  }

  lemma {:induction false} ForwardClock(calls: seq<Call>, ts: seq<int>)
    requires HasTimes(calls, ts) && RunsForward(ts)
    ensures calls != [] ==> ClockFrom(calls, ts[0])
  {
    if |calls| > 1 {
      var later := ts[1..];
      forall i | 0 <= i < |later| - 1
        ensures later[i] <= later[i + 1]
      {
        assert later[i] == ts[i + 1] && later[i + 1] == ts[i + 1 + 1];
      }
      assert HasTimes(calls[1..], later);
      ForwardClock(calls[1..], later);
    }
  }

  /** Statistics leave the store as it is, so what is asked behind them is answered as
      if it came first. */
  lemma {:induction false} StatsChangeNothing(kv: Table, stats: seq<Call>, rest: seq<Call>, lazily: bool,
                                              like: (string, string) -> bool)
    requires forall k :: 0 <= k < |stats| ==> stats[k].op == StatsAll
    ensures Replies(kv, stats + rest, lazily, like)[|stats|..] == Replies(kv, rest, lazily, like)
  {
    if stats == [] {
      assert stats + rest == rest;
    } else {
      hide Replies, After;
      FirstReply(kv, stats + rest, lazily, like);
      assert (stats + rest)[1..] == stats[1..] + rest;
      StatsChangeNothing(kv, stats[1..], rest, lazily, like);
    }
  }

  lemma FirstReply(kv: Table, calls: seq<Call>, lazily: bool, like: (string, string) -> bool)
    requires calls != [] && calls[0].op == StatsAll
    ensures Replies(kv, calls, lazily, like)[1..] == Replies(kv, calls[1..], lazily, like)
  {
    hide ReplyTo;
    assert After(kv, calls[0].op, calls[0].now, lazily) == kv;
  }

  /** A row that expires between the two times of a step back. */
  function Expiring(at: int): Table {
    map[Slot("n", "k") := Row([], 0, 0, Some(at))]
  }

  /** Two reads around a step back, statistics at every other time. */
  function ReadsAround(ts: seq<int>, j: nat): seq<Call> {
    seq(|ts|, i requires 0 <= i < |ts| => Call(if i == j || i == j + 1 then Get("n", "k") else StatsAll, ts[i]))
  }

  lemma StepBackShows(ts: seq<int>, j: nat, like: (string, string) -> bool)
    requires j + 1 < |ts| && ts[j] > ts[j + 1]
    ensures HasTimes(ReadsAround(ts, j), ts) && !Invisible(Expiring(ts[j + 1]), ReadsAround(ts, j), like)
  {
    var kv, calls := Expiring(ts[j + 1]), ReadsAround(ts, j);
    hide Replies;
    assert calls[..j] + calls[j..] == calls;
    StatsChangeNothing(kv, calls[..j], calls[j..], true, like);
    StatsChangeNothing(kv, calls[..j], calls[j..], false, like);
    TwoReads(kv, calls[j..], like);
    assert Replies(kv, calls, true, like)[j..][1] == NoSuchFile && Replies(kv, calls, false, like)[j..][1].Found?;
    assert !SameReply(Replies(kv, calls, true, like)[j + 1], Replies(kv, calls, false, like)[j + 1]);
  }

  lemma TwoReads(kv: Table, calls: seq<Call>, like: (string, string) -> bool)
    requires |calls| >= 2 && calls[0].op == calls[1].op == Get("n", "k")
    requires calls[0].now > calls[1].now && kv == Expiring(calls[1].now)
    ensures Replies(kv, calls, true, like)[1] == NoSuchFile && Replies(kv, calls, false, like)[1].Found?
  {
    var get := Get("n", "k");
    assert |"n"| == 1 && |"k"| == 1;
    var lazy, full := After(kv, get, calls[0].now, true), After(kv, get, calls[0].now, false);
    assert Slot("n", "k") !in lazy && full == kv;
    assert Replies(kv, calls, true, like)[1] == Replies(lazy, calls[1..], true, like)[0] == ReplyTo(lazy, get, calls[1].now, like);
    assert Replies(kv, calls, false, like)[1] == Replies(full, calls[1..], false, like)[0] == ReplyTo(full, get, calls[1].now, like);
  }

  /** Over every store and every run at the given times, lazy expiry goes unseen
      exactly when the clock never runs backwards. */
  lemma InvisibleExactlyWhenTheClockRunsForward(ts: seq<int>, like: (string, string) -> bool)
    ensures (forall kv, calls :: HasTimes(calls, ts) ==> Invisible(kv, calls, like)) <==> RunsForward(ts)
  {
    if RunsForward(ts) {
      forall kv, calls | HasTimes(calls, ts)
        ensures Invisible(kv, calls, like)
      {
        forall i | 0 <= i < |calls|
          ensures SameReply(Replies(kv, calls, true, like)[i], Replies(kv, calls, false, like)[i])
        {
          ForwardClock(calls, ts);
          LazyExpiryIsInvisible(kv, calls, ts[0], like, i);
        }
      }
    } else {
      var j :| 0 <= j < |ts| - 1 && ts[j] > ts[j + 1];
      StepBackShows(ts, j, like);
    }
  }

  // ----- reading, listing and counting agree -----

  /** A key is found exactly when the listing shows it (where its prefix matches)... */
  lemma FoundExactlyWhenListed(kv: Table, ns: string, key: string, prefix: string, now: int, like: (string, string) -> bool)
    requires ns != "" && key != "" && like(prefix, key)
    ensures ReplyTo(kv, Get(ns, key), now, like).Found? <==> key in ReplyTo(kv, List(ns, prefix), now, like).keys
  {
    var live := LiveKeys(kv, ns, now);
    assert key in live <==> Slot(ns, key) in kv && Live(kv[Slot(ns, key)], now);
    var matching := set k | k in live && like(prefix, k);
    assert key in SortedKeys(matching) <==> key in matching;
  }

  /** ...and exactly when the statistics count it: removing it takes one key and its
      bytes off the namespace's totals. */
  lemma FoundExactlyWhenCounted(kv: Table, ns: string, key: string, now: int, like: (string, string) -> bool)
    requires ns != "" && key != ""
    ensures var get := ReplyTo(kv, Get(ns, key), now, like);
      var before, after := ReplyTo(kv, StatsOf(ns), now, like), ReplyTo(kv - {Slot(ns, key)}, StatsOf(ns), now, like);
      && before.keyCount == after.keyCount + (if get.Found? then 1 else 0)
      && before.byteCount == after.byteCount + (if get.Found? then |get.value| else 0)
  {
    var without := kv - {Slot(ns, key)};
    var live, rest := LiveKeys(kv, ns, now), LiveKeys(without, ns, now);
    assert rest == live - {key};
    SameByteCount(kv, without, ns, rest);
    if key in live { ByteCountMinus(kv, ns, live, key); } else { assert rest == live; }
  }

  lemma {:induction false} ByteCountMinus(kv: Table, ns: string, keys: set<string>, key: string)
    requires key in keys && forall k :: k in keys ==> Slot(ns, k) in kv
    ensures ByteCount(kv, ns, keys) == |kv[Slot(ns, key)].value| + ByteCount(kv, ns, keys - {key})
  {
    var l := Least(keys);
    if l != key {
      ByteCountMinus(kv, ns, keys - {l}, key);
      var rest := keys - {key};
      assert keys - {l} - {key} == rest - {l};
      ByteCountMinus(kv, ns, rest, l);
    }
  }

  /** What was put is found at once exactly when its expiry time is neither in the past
      nor wrapped around into it. */
  lemma PutIsReadableExactly(kv: Table, ns: string, key: string, value: Bytes, ttlSecs: Option<int>, now: int,
                             like: (string, string) -> bool)
    requires ns != "" && key != "" && 0 <= now <= I64_MAX
    ensures var kv' := After(kv, Put(ns, key, Some(value), ttlSecs), now, true);
      (ReplyTo(kv', Get(ns, key), now, like).Found? && ReplyTo(kv', Get(ns, key), now, like).value == value)
      <==> ttlSecs.None? || (0 <= ttlSecs.value && now + SaturatingNanos(ttlSecs.value) <= I64_MAX)
  {
    if ttlSecs.Some? { WrapsBelow(now, SaturatingNanos(ttlSecs.value)); }
  }

  lemma WrapsBelow(now: int, d: int)
    requires 0 <= now <= I64_MAX && I64_MIN <= d <= I64_MAX
    ensures Wrap64(now + d) >= now <==> 0 <= d && now + d <= I64_MAX
  {
    if now + d > I64_MAX {
      assert (now + d - I64_MIN) % 0x1_0000_0000_0000_0000 == now + d - I64_MIN - 0x1_0000_0000_0000_0000;
    }
  }
}
