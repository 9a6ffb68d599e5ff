/** What an artifact's row says about the run behind it, and which rows an age limit
    means. */
module ArtifactTimes {
  import opened Text
  import opened Marks
  import opened Artifacts
  import opened ArtifactRuns

  /** What an operation does to the row of a name. */
  function OpMark(op: Op, name: string): Mark {
    match op
    case OpPut(n, _, _) => if n == name then Wrote else Other
    case OpGet(n, _) => if n == name then Read else Other
    case OpGc(cutoff, cap, scan, sorted) => if name in Removed(scan, sorted, cutoff, cap) then Gone else Other
  }

  function OpMarks(ops: seq<Op>, name: string): (ms: seq<Mark>)
    ensures |ms| == |ops| && forall i :: 0 <= i < |ops| ==> ms[i] == OpMark(ops[i], name)
  {
    seq(|ops|, i requires 0 <= i < |ops| => OpMark(ops[i], name))
  }

  const NOTHING := Store(map[], map[])

  lemma StepRow(hash: Bytes -> string, s: Store, op: Op, name: string)
    ensures var rows, rows', m := s.rows, Step(hash, s, op).rows, OpMark(op, name);
      && (m == Wrote ==>
            && op.OpPut? && name in rows'
            && rows'[name].digest == hash(op.value) && rows'[name].bytes == |op.value| && rows'[name].updatedAt == op.now
            && rows'[name].createdAt == (if name in rows then rows[name].createdAt else op.now)
            && rows'[name].lastGetAt == (if name in rows then rows[name].lastGetAt else None))
      && (m == Gone ==> name !in rows')
      && (m == Read || m == Other ==> (name in rows' <==> name in rows))
      && (m == Read && name in rows ==> op.OpGet? && rows'[name] == rows[name].(lastGetAt := Some(op.now)))
      && (m == Other && name in rows ==> rows'[name] == rows[name])
  {
  }

  lemma {:induction false} RowExactlyWhilePresent(hash: Bytes -> string, ops: seq<Op>, name: string)
    ensures name in After(hash, NOTHING, ops).rows <==> Present(OpMarks(ops, name))
  {
    if ops != [] {
      hide Step;
      var n := |ops| - 1;
      RowExactlyWhilePresent(hash, ops[..n], name);
      StepRow(hash, After(hash, NOTHING, ops[..n]), ops[n], name);
      assert OpMarks(ops, name)[..n] == OpMarks(ops[..n], name);
    }
  }

  lemma {:induction false} RowIsTheLastPut(hash: Bytes -> string, ops: seq<Op>, name: string, u: nat)
    requires LastWrite(OpMarks(ops, name), u)
    ensures var rows := After(hash, NOTHING, ops).rows;
      && ops[u].OpPut? && name in rows
      && rows[name].digest == hash(ops[u].value) && rows[name].bytes == |ops[u].value| && rows[name].updatedAt == ops[u].now
  {
    hide Step;
    var n := |ops| - 1;
    StepRow(hash, After(hash, NOTHING, ops[..n]), ops[n], name);
    if u < n {
      assert OpMarks(ops, name)[..n] == OpMarks(ops[..n], name);
      assert LastWrite(OpMarks(ops[..n], name), u);
      RowIsTheLastPut(hash, ops[..n], name, u);
    }
  }

  /** The row as old as this put, and as unread. */
  ghost predicate AgesFrom(row: Row, ops: seq<Op>, ms: seq<Mark>, b: nat)
    requires |ms| == |ops| && b < |ops| && ops[b].OpPut?
  {
    && row.createdAt == ops[b].now
    && (UnreadSince(ms, b) ==> row.lastGetAt == None)
    && forall g: nat :: b < g && LastRead(ms, g) ==> g < |ops| && ops[g].OpGet? && row.lastGetAt == Some(ops[g].now)
  }

  lemma {:induction false} RowSinceItsFirstPut(hash: Bytes -> string, ops: seq<Op>, name: string, b: nat)
    requires FirstWrite(OpMarks(ops, name), b)
    ensures ops[b].OpPut? && name in After(hash, NOTHING, ops).rows
    ensures AgesFrom(After(hash, NOTHING, ops).rows[name], ops, OpMarks(ops, name), b)
  {
    hide Step, FirstWrite, Present;
    var n := |ops| - 1;
    var ms := OpMarks(ops, name);
    FirstWriteIsIn(ms, b);
    var init, ms0 := ops[..n], OpMarks(ops[..n], name);
    assert ms[..n] == ms0 && ms == ms0 + [ms[n]];
    StepRow(hash, After(hash, NOTHING, init), ops[n], name);
    FirstWriteSnoc(ms0, ms[n], b);
    if b < n {
      RowSinceItsFirstPut(hash, init, name, b);
      LaterStillAges(After(hash, NOTHING, init).rows[name], After(hash, NOTHING, ops).rows[name], ops, ms, b);
    } else {
      RowExactlyWhilePresent(hash, init, name);
      if Present(ms0) { WriteWhilePresent(ms0); }
    }
  }

  lemma FirstWriteIsIn(ms: seq<Mark>, b: nat)
    requires FirstWrite(ms, b)
    ensures b < |ms| && ms[b] == Wrote && forall j :: b < j < |ms| ==> ms[j] != Gone
  {
  }

  lemma LaterStillAges(before: Row, row: Row, ops: seq<Op>, ms: seq<Mark>, b: nat)
    requires |ms| == |ops| && b < |ops| - 1 && ops[b].OpPut?
    requires AgesFrom(before, ops[..|ops| - 1], ms[..|ops| - 1], b)
    requires var n := |ops| - 1;
      && ms[n] != Gone && row.createdAt == before.createdAt
      && (if ms[n] == Read then ops[n].OpGet? && row.lastGetAt == Some(ops[n].now) else row.lastGetAt == before.lastGetAt)
    ensures AgesFrom(row, ops, ms, b)
  {
    var n := |ops| - 1;
    if UnreadSince(ms, b) { assert ms[n] != Read && UnreadSince(ms[..n], b); }
    forall g: nat | b < g && LastRead(ms, g)
      ensures g < |ops| && ops[g].OpGet? && row.lastGetAt == Some(ops[g].now)
    {
      if g < n { assert LastRead(ms[..n], g); }
    }
  }

  /** After every run from an empty store a name has a row exactly when it was put and
      not collected since. The row holds what was put last and when, is as old as the
      first of those puts, and was last read when the name last was since then. */
  lemma RowTellsItsRun(hash: Bytes -> string, ops: seq<Op>, name: string)
    ensures var rows, ms := After(hash, NOTHING, ops).rows, OpMarks(ops, name);
      && (name in rows <==> exists u: nat :: LastWrite(ms, u))
      && (name in rows ==> exists b: nat :: FirstWrite(ms, b))
      && (forall u: nat :: LastWrite(ms, u) ==>
            && ops[u].OpPut? && name in rows
            && rows[name].digest == hash(ops[u].value) && rows[name].bytes == |ops[u].value| && rows[name].updatedAt == ops[u].now)
      && (forall b: nat :: FirstWrite(ms, b) ==> ops[b].OpPut? && name in rows && AgesFrom(rows[name], ops, ms, b))
  {
    hide LastWrite, AgesFrom, Present;
    var rows, ms := After(hash, NOTHING, ops).rows, OpMarks(ops, name);
    RowExactlyWhilePresent(hash, ops, name);
    PresentHasLastWrite(ms);
    if Present(ms) { var b := PresentSinceSomeWrite(ms); }
    forall u: nat | LastWrite(ms, u)
      ensures u < |ops| && ops[u].OpPut? && name in rows
      ensures rows[name].digest == hash(ops[u].value) && rows[name].bytes == |ops[u].value| && rows[name].updatedAt == ops[u].now
    {
      LastWriteIsIn(ms, u);
      RowIsTheLastPut(hash, ops, name, u);
    }
    forall b: nat | FirstWrite(ms, b)
      ensures ops[b].OpPut? && name in rows && AgesFrom(rows[name], ops, ms, b)
    {
      RowSinceItsFirstPut(hash, ops, name, b);
    }
  }

  lemma LastWriteIsIn(ms: seq<Mark>, u: nat)
    requires LastWrite(ms, u)
    ensures u < |ms|
  {
  }

  // ----- arguments -----

  /** An age limit takes what was touched longer ago than that; one too long for the
      clock saturates, none takes nothing. */
  lemma AgeLimitMeansAge(maxAgeSecs: Option<int>, now: int, touched: int)
    requires 0 <= now <= I64_MAX && (maxAgeSecs.Some? ==> maxAgeSecs.value >= 0)
    ensures AgedOut(touched, Cutoff(maxAgeSecs, now)) <==>
      maxAgeSecs.Some? &&
      var ns := maxAgeSecs.value * 1_000_000_000;
      now - touched > if ns <= I64_MAX then ns else I64_MAX
  {
    if maxAgeSecs.Some? { WrapNothing(now - SaturatingNanos(maxAgeSecs.value)); }
  }

  lemma WrapNothing(n: int)
    requires I64_MIN <= n <= I64_MAX
    ensures Wrap64(n) == n
  {
  }

  /** A digest argument is sixty-four hexadecimal digits, in either case. */
  lemma DigestsAreHexadecimal(d: string)
    ensures HexDigest(d) <==> |d| == 64 && forall i :: 0 <= i < |d| ==> d[i] in "0123456789abcdefABCDEF"
  {
    forall c: char
      ensures IsDigit(c) || 'a' <= c <= 'f' || 'A' <= c <= 'F' <==> c in "0123456789abcdefABCDEF"
    {
      HexDigitIs(c);
    }
  }

  lemma HexDigitIs(c: char)
    ensures IsDigit(c) || 'a' <= c <= 'f' || 'A' <= c <= 'F' <==> c in "0123456789abcdefABCDEF"
  {
    var all := "0123456789abcdefABCDEF";
    var i := if IsDigit(c) then c as int - '0' as int else if 'a' <= c <= 'f' then c as int - 'a' as int + 10
      else if 'A' <= c <= 'F' then c as int - 'A' as int + 16 else 0;
    if IsDigit(c) || 'a' <= c <= 'f' || 'A' <= c <= 'F' { assert all[i] == c; }
  }
}
