/** Runs of the cache told by their calls alone: what a read finds is what the last put
    or delete of its slot left. */
module CacheRuns {
  import opened Text
  import opened Marks
  import opened Cache

  /** The table behind a run. */
  function TableAfter(kv: Table, calls: seq<Call>, lazily: bool): Table {
    if calls == [] then kv
    else
      var n := |calls| - 1;
      After(TableAfter(kv, calls[..n], lazily), calls[n].op, calls[n].now, lazily)
  }

  lemma {:induction false} FirstCall(kv: Table, calls: seq<Call>, lazily: bool)
    requires calls != []
    ensures TableAfter(kv, calls, lazily) == TableAfter(After(kv, calls[0].op, calls[0].now, lazily), calls[1..], lazily)
  {
    hide After;
    var n := |calls| - 1;
    if n > 0 {
      FirstCall(kv, calls[..n], lazily);
      assert calls[1..][..n - 1] == calls[..n][1..];
    } else {
      assert calls[..0] == [] && calls[1..] == [];
    }
  }

  lemma {:induction false} RepliesAt(kv: Table, calls: seq<Call>, lazily: bool, like: (string, string) -> bool, i: nat)
    requires i < |calls|
    ensures Replies(kv, calls, lazily, like)[i] == ReplyTo(TableAfter(kv, calls[..i], lazily), calls[i].op, calls[i].now, like)
    decreases i
  {
    hide After, ReplyTo;
    if i > 0 {
      var first, rest := calls[0], calls[1..];
      RepliesAt(After(kv, first.op, first.now, lazily), rest, lazily, like, i - 1);
      FirstCall(kv, calls[..i], lazily);
      assert calls[..i][1..] == rest[..i - 1];
    }
  }

  // ----- what the calls do to a slot -----

  predicate PutsTo(op: Op, s: Slot) {
    op.Put? && op.ns == s.ns && op.key == s.key && s.ns != "" && s.key != "" && op.value.Some?
  }

  predicate Deletes(op: Op, s: Slot) {
    op == Del(s.ns, s.key) && s.ns != "" && s.key != ""
  }

  function CallMark(call: Call, s: Slot): Mark {
    if PutsTo(call.op, s) then Wrote else if Deletes(call.op, s) then Gone else Other
  }

  /** The puts and deletes of a slot. */
  function CallMarks(calls: seq<Call>, s: Slot): (ms: seq<Mark>)
    ensures |ms| == |calls|
  {
    seq(|calls|, i requires 0 <= i < |calls| => CallMark(calls[i], s))
  }

  /** When the row a put writes expires. */
  function DueAt(put: Call): Option<int>
    requires put.op.Put?
  {
    if put.op.ttlSecs.None? then None else Some(Wrap64(put.now + SaturatingNanos(put.op.ttlSecs.value)))
  }

  /** What the slot holds is what this put wrote. */
  predicate HoldsPut(kv: Table, s: Slot, put: Call) {
    && PutsTo(put.op, s) && s in kv
    && kv[s].value == put.op.value.value && kv[s].updatedAt == put.now && kv[s].expiresAt == DueAt(put)
  }

  predicate SameAt(a: Table, b: Table, s: Slot) {
    (s in a <==> s in b) && (s in b ==> a[s] == b[s])
  }

  /** One call did to the slot what the mark says. */
  predicate Follows(kv: Table, kv': Table, call: Call, s: Slot, m: Mark) {
    if m == Wrote then HoldsPut(kv', s, call) && kv'[s].createdAt == (if s in kv then kv[s].createdAt else call.now)
    else if m == Gone then s !in kv'
    else SameAt(kv', kv, s)
  }

  predicate RunFollows(kv: Table, calls: seq<Call>, lazily: bool, s: Slot, ms: seq<Mark>)
    requires |ms| == |calls|
  {
    forall i :: 0 <= i < |calls| ==>
      Follows(TableAfter(kv, calls[..i], lazily), TableAfter(kv, calls[..i + 1], lazily), calls[i], s, ms[i])
  }

  lemma ShorterRunFollows(kv: Table, calls: seq<Call>, lazily: bool, s: Slot, ms: seq<Mark>)
    requires calls != [] && |ms| == |calls| && RunFollows(kv, calls, lazily, s, ms)
    ensures var n := |calls| - 1;
      && RunFollows(kv, calls[..n], lazily, s, ms[..n])
      && Follows(TableAfter(kv, calls[..n], lazily), TableAfter(kv, calls, lazily), calls[n], s, ms[n])
  {
    hide Follows, TableAfter;
    var n := |calls| - 1;
    forall i | 0 <= i < n
      ensures Follows(TableAfter(kv, calls[..n][..i], lazily), TableAfter(kv, calls[..n][..i + 1], lazily), calls[..n][i], s, ms[..n][i])
    {
      assert calls[..n][..i] == calls[..i] && calls[..n][..i + 1] == calls[..i + 1];
    }
    assert calls[..n + 1] == calls;
  }

  lemma {:induction false} RowAfterWrite(kv: Table, calls: seq<Call>, lazily: bool, s: Slot, ms: seq<Mark>, u: nat)
    requires |ms| == |calls| && RunFollows(kv, calls, lazily, s, ms) && LastWrite(ms, u)
    ensures HoldsPut(TableAfter(kv, calls, lazily), s, calls[u])
  {
    hide TableAfter, HoldsPut, RunFollows;
    var n := |calls| - 1;
    ShorterRunFollows(kv, calls, lazily, s, ms);
    if u < n {
      assert LastWrite(ms[..n], u);
      RowAfterWrite(kv, calls[..n], lazily, s, ms[..n], u);
      StillHolds(TableAfter(kv, calls[..n], lazily), TableAfter(kv, calls, lazily), s, calls[u]);
    }
  }

  lemma {:induction false} NoRowAfterRemoval(kv: Table, calls: seq<Call>, lazily: bool, s: Slot, ms: seq<Mark>, r: nat)
    requires |ms| == |calls| && RunFollows(kv, calls, lazily, s, ms) && LastRemoval(ms, r)
    ensures s !in TableAfter(kv, calls, lazily)
  {
    hide TableAfter, RunFollows;
    var n := |calls| - 1;
    ShorterRunFollows(kv, calls, lazily, s, ms);
    if r < n {
      assert LastRemoval(ms[..n], r);
      NoRowAfterRemoval(kv, calls[..n], lazily, s, ms[..n], r);
    }
  }

  lemma {:induction false} UntouchedRow(kv: Table, calls: seq<Call>, lazily: bool, s: Slot, ms: seq<Mark>)
    requires |ms| == |calls| && RunFollows(kv, calls, lazily, s, ms) && Untouched(ms)
    ensures SameAt(TableAfter(kv, calls, lazily), kv, s)
  {
    if calls != [] {
      hide TableAfter, RunFollows;
      var n := |calls| - 1;
      ShorterRunFollows(kv, calls, lazily, s, ms);
      UntouchedRow(kv, calls[..n], lazily, s, ms[..n]);
    }
  }

  lemma RowFollowsMarks(kv: Table, calls: seq<Call>, lazily: bool, s: Slot, ms: seq<Mark>)
    requires |ms| == |calls| && RunFollows(kv, calls, lazily, s, ms)
    ensures var kv' := TableAfter(kv, calls, lazily);
      && (forall u: nat :: LastWrite(ms, u) ==> HoldsPut(kv', s, calls[u]))
      && (forall r: nat :: LastRemoval(ms, r) ==> s !in kv')
      && (Untouched(ms) ==> SameAt(kv', kv, s))
  {
    hide TableAfter, HoldsPut, RunFollows;
    var kv' := TableAfter(kv, calls, lazily);
    forall u: nat | LastWrite(ms, u)
      ensures HoldsPut(kv', s, calls[u])
    {
      RowAfterWrite(kv, calls, lazily, s, ms, u);
    }
    forall r: nat | LastRemoval(ms, r)
      ensures s !in kv'
    {
      NoRowAfterRemoval(kv, calls, lazily, s, ms, r);
    }
    if Untouched(ms) { UntouchedRow(kv, calls, lazily, s, ms); }
  }

  lemma StillHolds(kv: Table, kv': Table, s: Slot, put: Call)
    requires HoldsPut(kv, s, put) && SameAt(kv', kv, s)
    ensures HoldsPut(kv', s, put)
  {
  }

  lemma {:induction false} RowSinceFirstWrite(kv: Table, calls: seq<Call>, lazily: bool, s: Slot, ms: seq<Mark>)
    requires |ms| == |calls| && RunFollows(kv, calls, lazily, s, ms) && s !in kv
    ensures var kv' := TableAfter(kv, calls, lazily);
      && (s in kv' <==> Present(ms))
      && (forall b: nat :: FirstWrite(ms, b) ==> s in kv' && kv'[s].createdAt == calls[b].now)
  {
    if calls != [] {
      hide TableAfter, RunFollows, FirstWrite, LastWrite;
      var n := |calls| - 1;
      ShorterRunFollows(kv, calls, lazily, s, ms);
      var ms0 := ms[..n];
      RowSinceFirstWrite(kv, calls[..n], lazily, s, ms0);
      assert ms == ms0 + [ms[n]];
      var kv' := TableAfter(kv, calls, lazily);
      forall b: nat | FirstWrite(ms, b)
        ensures s in kv' && kv'[s].createdAt == calls[b].now
      {
        InRun(ms, b);
        FirstWriteSnoc(ms0, ms[n], b);
        if b < n {
          assert FirstWrite(ms0, b);
        } else if Present(ms0) {
          WriteWhilePresent(ms0);
        }
      }
    } else {
      forall b: nat
        ensures !FirstWrite(ms, b)
      {
        if FirstWrite(ms, b) { InRun(ms, b); }
      }
    }
  }

  lemma InRun(ms: seq<Mark>, b: nat)
    requires FirstWrite(ms, b)
    ensures b < |ms|
  {
  }

  // ----- a read finds what was last written -----

  lemma NextTable(kv: Table, calls: seq<Call>, lazily: bool, i: nat)
    requires i < |calls|
    ensures TableAfter(kv, calls[..i + 1], lazily) == After(TableAfter(kv, calls[..i], lazily), calls[i].op, calls[i].now, lazily)
  {
    assert calls[..i + 1][..i] == calls[..i];
  }

  lemma FollowsCall(kv: Table, call: Call, s: Slot)
    ensures Follows(kv, After(kv, call.op, call.now, false), call, s, CallMark(call, s))
  {
  }

  lemma FullRunFollows(kv: Table, calls: seq<Call>, s: Slot)
    ensures RunFollows(kv, calls, false, s, CallMarks(calls, s))
  {
    hide Follows, TableAfter, After;
    forall i | 0 <= i < |calls|
      ensures Follows(TableAfter(kv, calls[..i], false), TableAfter(kv, calls[..i + 1], false), calls[i], s, CallMarks(calls, s)[i])
    {
      NextTable(kv, calls, false, i);
      FollowsCall(TableAfter(kv, calls[..i], false), calls[i], s);
    }
  }

  /** The read answers with the row this put wrote. */
  predicate AnswersWith(got: Reply, put: Call)
    requires put.op.Put? && put.op.value.Some?
  {
    got.Found? && got.value == put.op.value.value && got.updatedAt == put.now && got.expires == DueAt(put)
  }

  /** While the clock does not run backwards, a read finds its slot exactly when the
      last put or delete of that slot was a put that has not expired, and answers with
      what it put; a slot never put or deleted is as it was at the start. */
  lemma ReadFindsTheLastWrite(kv: Table, calls: seq<Call>, start: int, like: (string, string) -> bool, i: nat, s: Slot)
    requires ClockFrom(calls, start) && i < |calls| && calls[i].op == Get(s.ns, s.key) && s.ns != "" && s.key != ""
    ensures var ms := CallMarks(calls[..i], s);
      (exists u: nat :: LastWrite(ms, u)) || (exists r: nat :: LastRemoval(ms, r)) || Untouched(ms)
    ensures var ms, got, now := CallMarks(calls[..i], s), Replies(kv, calls, true, like)[i], calls[i].now;
      && (forall u: nat :: LastWrite(ms, u) ==>
            if DueAt(calls[u]).Some? && DueAt(calls[u]).value < now then got == NoSuchFile else AnswersWith(got, calls[u]))
      && (forall r: nat :: LastRemoval(ms, r) ==> got == NoSuchFile)
      && (Untouched(ms) ==>
            if s in kv && !(kv[s].expiresAt.Some? && kv[s].expiresAt.value < now)
            then got.Found? && got.value == kv[s].value && got.updatedAt == kv[s].updatedAt && got.expires == kv[s].expiresAt
            else got == NoSuchFile)
  {
    hide TableAfter, RunFollows, CallMarks, Replies;
    var before, now := calls[..i], calls[i].now;
    var full := TableAfter(kv, before, false);
    LazyExpiryIsInvisible(kv, calls, start, like, i);
    RepliesAt(kv, calls, false, like, i);
    FullRunFollows(kv, before, s);
    RowFollowsMarks(kv, before, false, s, CallMarks(before, s));
    NoOtherFailure(kv, calls, true, like, i);
    MarksArePuts(before, s);
    WrittenOrNot(CallMarks(before, s));
  }

  lemma MarksArePuts(calls: seq<Call>, s: Slot)
    ensures forall u: nat :: LastWrite(CallMarks(calls, s), u) ==> u < |calls| && PutsTo(calls[u].op, s)
  {
  }

  lemma NoOtherFailure(kv: Table, calls: seq<Call>, lazily: bool, like: (string, string) -> bool, i: nat)
    requires i < |calls| && calls[i].op.Get? && calls[i].op.ns != "" && calls[i].op.key != ""
    ensures var got := Replies(kv, calls, lazily, like)[i]; got.Found? || got == NoSuchFile
  {
    RepliesAt(kv, calls, lazily, like, i);
  }

  /** A put is answered with the size and the expiry time a read finds. */
  lemma PutSaysWhatIsStored(kv: Table, op: Op, s: Slot, now: int, like: (string, string) -> bool)
    requires PutsTo(op, s)
    ensures ReplyTo(kv, op, now, like) == Stored(|op.value.value|, DueAt(Call(op, now)))
  {
  }

  // ----- since when a row has been there -----

  /** What a call does to the slot of a store with lazy expiry, as its reply shows: a
      read that finds nothing leaves nothing. */
  function ReplyMark(call: Call, reply: Reply, s: Slot): Mark {
    if PutsTo(call.op, s) then Wrote
    else if Deletes(call.op, s) || (call.op == Get(s.ns, s.key) && reply == NoSuchFile) then Gone
    else Other
  }

  function ReplyMarks(calls: seq<Call>, replies: seq<Reply>, s: Slot): (ms: seq<Mark>)
    requires |replies| == |calls|
    ensures |ms| == |calls|
  {
    seq(|calls|, i requires 0 <= i < |calls| => ReplyMark(calls[i], replies[i], s))
  }

  lemma FollowsReply(kv: Table, call: Call, s: Slot, like: (string, string) -> bool)
    ensures Follows(kv, After(kv, call.op, call.now, true), call, s, ReplyMark(call, ReplyTo(kv, call.op, call.now, like), s))
  {
  }

  lemma LazyRunFollows(kv: Table, calls: seq<Call>, like: (string, string) -> bool, s: Slot)
    ensures RunFollows(kv, calls, true, s, ReplyMarks(calls, Replies(kv, calls, true, like), s))
  {
    hide Follows, TableAfter, After, Replies, ReplyTo;
    var replies := Replies(kv, calls, true, like);
    forall i | 0 <= i < |calls|
      ensures Follows(TableAfter(kv, calls[..i], true), TableAfter(kv, calls[..i + 1], true), calls[i], s,
                      ReplyMarks(calls, replies, s)[i])
    {
      NextTable(kv, calls, true, i);
      RepliesAt(kv, calls, true, like, i);
      FollowsReply(TableAfter(kv, calls[..i], true), calls[i], s, like);
    }
  }

  lemma {:induction false} EarlierReplies(kv: Table, calls: seq<Call>, lazily: bool, like: (string, string) -> bool, i: nat)
    requires i <= |calls|
    ensures Replies(kv, calls[..i], lazily, like) == Replies(kv, calls, lazily, like)[..i]
  {
    hide Replies;
    var a, b := Replies(kv, calls[..i], lazily, like), Replies(kv, calls, lazily, like)[..i];
    forall k | 0 <= k < i
      ensures a[k] == b[k]
    {
      RepliesAt(kv, calls[..i], lazily, like, k);
      RepliesAt(kv, calls, lazily, like, k);
      assert calls[..i][..k] == calls[..k];
    }
  }

  /** Over every run from an empty store, whatever the clock does: a slot is occupied
      exactly when it was put and not removed since, by a delete or by a read that found
      nothing. A delete says so, and a found row is as old as the first put since. */
  lemma RowsAreAsOldAsTheirFirstPut(calls: seq<Call>, like: (string, string) -> bool, i: nat, s: Slot)
    requires i < |calls| && s.ns != "" && s.key != ""
    ensures var replies := Replies(map[], calls, true, like);
      var ms := ReplyMarks(calls[..i], replies[..i], s);
      && (calls[i].op == Del(s.ns, s.key) ==> replies[i] == Deleted(exists b: nat :: FirstWrite(ms, b)))
      && (calls[i].op == Get(s.ns, s.key) && replies[i].Found? ==>
            (exists b: nat :: FirstWrite(ms, b)) && forall b: nat :: FirstWrite(ms, b) ==> replies[i].createdAt == calls[b].now)
  {
    hide TableAfter, RunFollows, Replies, ReplyMarks, FirstWrite;
    var before := calls[..i];
    var replies := Replies(map[], calls, true, like);
    EarlierReplies(map[], calls, true, like, i);
    RepliesAt(map[], calls, true, like, i);
    LazyRunFollows(map[], before, like, s);
    var ms := ReplyMarks(before, replies[..i], s);
    RowSinceFirstWrite(map[], before, true, s, ms);
    if Present(ms) { var b := PresentSinceSomeWrite(ms); }
    forall b: nat | FirstWrite(ms, b)
      ensures b < i
    {
      InRun(ms, b);
    }
  }

  // ----- refusals, listings and statistics -----

  /** Only missing arguments are refused, and a refused call changes nothing. */
  lemma RefusedExactlyWhenArgumentsAreMissing(kv: Table, op: Op, now: int, lazily: bool, like: (string, string) -> bool)
    ensures ReplyTo(kv, op, now, like) == BadArgs <==>
      || ((op.Put? || op.Get? || op.Del? || op.List?) && op.ns == "")
      || ((op.Put? || op.Get? || op.Del?) && op.key == "")
      || (op.Put? && op.value.None?)
    ensures ReplyTo(kv, op, now, like) == BadArgs ==> After(kv, op, now, lazily) == kv
  {
  }

  /** A listing holds the matching keys that have not expired, once each and in order,
      and their number. */
  lemma ListingIsExact(kv: Table, ns: string, prefix: string, now: int, like: (string, string) -> bool)
    requires ns != ""
    ensures var listed := ReplyTo(kv, List(ns, prefix), now, like);
      && listed.Keys? && Ascending(listed.keys) && listed.count == |listed.keys|
      && (forall i, j :: 0 <= i < j < |listed.keys| ==> listed.keys[i] != listed.keys[j])
      && forall k :: k in listed.keys <==>
           var s := Slot(ns, k);
           s in kv && !(kv[s].expiresAt.Some? && kv[s].expiresAt.value < now) && like(prefix, k)
  {
    var listed := ReplyTo(kv, List(ns, prefix), now, like);
    AscendingDistinct(listed.keys);
    forall k
      ensures k in listed.keys <==> k in LiveKeys(kv, ns, now) && like(prefix, k)
    {
      assert k in listed.keys <==> k in (set x | x in LiveKeys(kv, ns, now) && like(prefix, x));
    }
  }

  /** An empty store counts nothing. */
  lemma NothingCounted(ns: string, now: int, like: (string, string) -> bool)
    ensures ReplyTo(map[], StatsOf(ns), now, like) == NsStats(0, 0)
    ensures ReplyTo(map[], StatsAll, now, like) == AllStats(0, 0, 0)
  {
    assert LiveKeys(map[], ns, now) == {} && LiveNamespaces(map[], now) == {};
  }

  lemma {:induction false} TotalsMinus(kv: Table, namespaces: set<string>, now: int, ns: string)
    requires ns in namespaces
    ensures TotalKeys(kv, namespaces, now) == |LiveKeys(kv, ns, now)| + TotalKeys(kv, namespaces - {ns}, now)
    ensures TotalBytes(kv, namespaces, now)
      == ByteCount(kv, ns, LiveKeys(kv, ns, now)) + TotalBytes(kv, namespaces - {ns}, now)
  {
    var l := Least(namespaces);
    if l != ns {
      TotalsMinus(kv, namespaces - {l}, now, ns);
      var rest := namespaces - {ns};
      assert namespaces - {l} - {ns} == rest - {l};
      TotalsMinus(kv, rest, now, l);
    }
  }

  lemma OthersAreLive(kv: Table, s: Slot, now: int, ns: string)
    ensures LiveKeys(kv - {s}, ns, now) == if ns == s.ns then LiveKeys(kv, ns, now) - {s.key} else LiveKeys(kv, ns, now)
    ensures ns != s.ns ==> ByteCount(kv - {s}, ns, LiveKeys(kv - {s}, ns, now)) == ByteCount(kv, ns, LiveKeys(kv, ns, now))
  {
    if ns != s.ns { SameByteCount(kv - {s}, kv, ns, LiveKeys(kv, ns, now)); }
  }

  lemma NamespacesWithout(kv: Table, s: Slot, now: int)
    ensures var all, rest := LiveNamespaces(kv, now), LiveNamespaces(kv - {s}, now);
      && (s in kv && Live(kv[s], now) ==> s.ns in all)
      && (forall ns :: ns != s.ns ==> (ns in rest <==> ns in all))
      && (s.ns in rest <==> LiveKeys(kv - {s}, s.ns, now) != {})
      && (!(s in kv && Live(kv[s], now)) ==> rest == all)
  {
    var all, rest := LiveNamespaces(kv, now), LiveNamespaces(kv - {s}, now);
    forall ns
      ensures ns in all <==> exists t :: t in kv && Live(kv[t], now) && t.ns == ns
      ensures ns in rest <==> exists t :: t in kv && t != s && Live(kv[t], now) && t.ns == ns
    {
    }
    if k :| k in LiveKeys(kv - {s}, s.ns, now) { assert Slot(s.ns, k) in kv - {s}; }
    if t :| t in kv && t != s && Live(kv[t], now) && t.ns == s.ns { assert t.key in LiveKeys(kv - {s}, s.ns, now); }
    if !(s in kv && Live(kv[s], now)) {
      assert forall ns :: ns in rest <==> ns in all;
    }
  }

  /** The totals over the other namespaces, with and without the slot. */
  lemma OtherTotals(kv: Table, s: Slot, namespaces: set<string>, now: int)
    requires s.ns !in namespaces
    ensures TotalKeys(kv - {s}, namespaces, now) == TotalKeys(kv, namespaces, now)
    ensures TotalBytes(kv - {s}, namespaces, now) == TotalBytes(kv, namespaces, now)
  {
    forall n | n in namespaces
      ensures LiveKeys(kv - {s}, n, now) == LiveKeys(kv, n, now)
      ensures ByteCount(kv - {s}, n, LiveKeys(kv - {s}, n, now)) == ByteCount(kv, n, LiveKeys(kv, n, now))
    {
      OthersAreLive(kv, s, now, n);
    }
    SameTotals(kv - {s}, kv, namespaces, now);
  }

  /** The slot's own namespace, with and without it. */
  lemma OwnCounts(kv: Table, s: Slot, now: int)
    requires s in kv && Live(kv[s], now)
    ensures var live, left := LiveKeys(kv, s.ns, now), LiveKeys(kv - {s}, s.ns, now);
      && |live| == |left| + 1
      && ByteCount(kv, s.ns, live) == ByteCount(kv - {s}, s.ns, left) + |kv[s].value|
  {
    var live, left := LiveKeys(kv, s.ns, now), LiveKeys(kv - {s}, s.ns, now);
    OthersAreLive(kv, s, now, s.ns);
    assert live == left + {s.key};
    ByteCountMinus(kv, s.ns, live, s.key);
    SameByteCount(kv, kv - {s}, s.ns, left);
  }

  lemma TotalsSplit(kv: Table, namespaces: set<string>, now: int, ns: string)
    ensures TotalKeys(kv, namespaces, now)
      == (if ns in namespaces then |LiveKeys(kv, ns, now)| else 0) + TotalKeys(kv, namespaces - {ns}, now)
    ensures TotalBytes(kv, namespaces, now)
      == (if ns in namespaces then ByteCount(kv, ns, LiveKeys(kv, ns, now)) else 0) + TotalBytes(kv, namespaces - {ns}, now)
  {
    if ns in namespaces { TotalsMinus(kv, namespaces, now, ns); } else { assert namespaces - {ns} == namespaces; }
  }

  /** A row that has not expired is counted in the totals, its namespace once. */
  lemma TotalsWithoutLive(kv: Table, s: Slot, now: int)
    requires s in kv && Live(kv[s], now)
    ensures var all, rest := LiveNamespaces(kv, now), LiveNamespaces(kv - {s}, now);
      && TotalKeys(kv, all, now) == TotalKeys(kv - {s}, rest, now) + 1
      && TotalBytes(kv, all, now) == TotalBytes(kv - {s}, rest, now) + |kv[s].value|
      && |all| == |rest| + (if LiveKeys(kv - {s}, s.ns, now) == {} then 1 else 0)
  {
    hide TotalKeys, TotalBytes, ByteCount, LiveNamespaces, LiveKeys;
    var ns, without := s.ns, kv - {s};
    var all, rest := LiveNamespaces(kv, now), LiveNamespaces(without, now);
    NamespacesWithout(kv, s, now);
    OwnCounts(kv, s, now);
    OtherTotals(kv, s, all - {ns}, now);
    TotalsSplit(kv, all, now, ns);
    TotalsSplit(without, rest, now, ns);
    assert rest - {ns} == all - {ns};
    NoBytes(without, ns);
    NamespacesCounted(all, rest, ns);
  }

  lemma NamespacesCounted(all: set<string>, rest: set<string>, ns: string)
    requires ns in all && rest - {ns} == all - {ns}
    ensures |all| == |rest| + if ns in rest then 0 else 1
  {
    assert all == (all - {ns}) + {ns};
    if ns in rest { assert rest == (rest - {ns}) + {ns}; } else { assert rest == rest - {ns}; }
  }

  lemma NoBytes(kv: Table, ns: string)
    ensures ByteCount(kv, ns, {}) == 0
  {
  }

  /** An expired or missing row is not. */
  lemma TotalsWithoutDead(kv: Table, s: Slot, now: int)
    requires !(s in kv && Live(kv[s], now))
    ensures var all, rest := LiveNamespaces(kv, now), LiveNamespaces(kv - {s}, now);
      && all == rest && TotalKeys(kv, all, now) == TotalKeys(kv - {s}, rest, now)
      && TotalBytes(kv, all, now) == TotalBytes(kv - {s}, rest, now)
  {
    var ns, without := s.ns, kv - {s};
    var all := LiveNamespaces(kv, now);
    NamespacesWithout(kv, s, now);
    forall n
      ensures LiveKeys(without, n, now) == LiveKeys(kv, n, now)
      ensures ByteCount(without, n, LiveKeys(without, n, now)) == ByteCount(kv, n, LiveKeys(kv, n, now))
    {
      OthersAreLive(kv, s, now, n);
      assert LiveKeys(without, n, now) == LiveKeys(kv, n, now);
      SameByteCount(without, kv, n, LiveKeys(kv, n, now));
    }
    hide TotalKeys, TotalBytes, ByteCount, LiveNamespaces;
    SameTotals(kv, without, all, now);
  }

  /** The statistics over all namespaces count a row exactly while it can be found, its
      bytes with it, and its namespace while it holds such a row. */
  lemma FoundExactlyWhenCountedInAll(kv: Table, s: Slot, now: int, like: (string, string) -> bool)
    requires s.ns != "" && s.key != ""
    ensures var get := ReplyTo(kv, Get(s.ns, s.key), now, like);
      var before, after := ReplyTo(kv, StatsAll, now, like), ReplyTo(kv - {s}, StatsAll, now, like);
      && before.totalKeys == after.totalKeys + (if get.Found? then 1 else 0)
      && before.totalBytes == after.totalBytes + (if get.Found? then |get.value| else 0)
      && before.namespaceCount == after.namespaceCount
           + (if get.Found? && ReplyTo(kv - {s}, StatsOf(s.ns), now, like).keyCount == 0 then 1 else 0)
  {
    hide TotalKeys, TotalBytes, ByteCount, LiveNamespaces;
    if s in kv && Live(kv[s], now) { TotalsWithoutLive(kv, s, now); } else { TotalsWithoutDead(kv, s, now); }
  }
}
