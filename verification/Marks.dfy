/** What a run of operations did to one entry of a store, operation by operation: when
    it was last written, and since when it has been there. */
module Marks {
  datatype Mark = Wrote | Gone | Read | Other

  /** The entry was last written at `u` and is still there. */
  predicate LastWrite(ms: seq<Mark>, u: nat) {
    u < |ms| && ms[u] == Wrote && forall j :: u < j < |ms| ==> ms[j] != Wrote && ms[j] != Gone
  }

  /** The entry was removed at `r` and not written since. */
  predicate LastRemoval(ms: seq<Mark>, r: nat) {
    r < |ms| && ms[r] == Gone && forall j :: r < j < |ms| ==> ms[j] != Wrote
  }

  predicate Untouched(ms: seq<Mark>) {
    forall j :: 0 <= j < |ms| ==> ms[j] != Wrote && ms[j] != Gone
  }

  predicate RemovedBetween(ms: seq<Mark>, k: nat, b: nat) {
    exists d :: k < d < b <= |ms| && ms[d] == Gone
  }

  /** The entry has been there since it was written at `b`, and was not there before. */
  predicate FirstWrite(ms: seq<Mark>, b: nat) {
    && b < |ms| && ms[b] == Wrote && (forall j :: b < j < |ms| ==> ms[j] != Gone)
    && forall k :: 0 <= k < b && ms[k] == Wrote ==> RemovedBetween(ms, k, b)
  }

  /** The entry was last read at `g` and not removed since. */
  predicate LastRead(ms: seq<Mark>, g: nat) {
    g < |ms| && ms[g] == Read && forall j :: g < j < |ms| ==> ms[j] != Read && ms[j] != Gone
  }

  predicate UnreadSince(ms: seq<Mark>, b: nat) {
    forall j :: b < j < |ms| ==> ms[j] != Read
  }

  /** Written and not removed since. */
  predicate Present(ms: seq<Mark>) {
    if ms == [] then false
    else
      var m := ms[|ms| - 1];
      m == Wrote || (m != Gone && Present(ms[..|ms| - 1]))
  }

  lemma WrittenOrNot(ms: seq<Mark>)
    ensures (exists u :: LastWrite(ms, u)) || (exists r :: LastRemoval(ms, r)) || Untouched(ms)
  {
    if ms != [] {
      var n := |ms| - 1;
      WrittenOrNot(ms[..n]);
      if ms[n] == Wrote {
        assert LastWrite(ms, n);
      } else if ms[n] == Gone {
        assert LastRemoval(ms, n);
      } else if u :| LastWrite(ms[..n], u) {
        assert LastWrite(ms, u);
      } else if r :| LastRemoval(ms[..n], r) {
        assert LastRemoval(ms, r);
      }
    }
  }

  lemma {:induction false} PresentHasLastWrite(ms: seq<Mark>)
    ensures Present(ms) <==> exists u :: LastWrite(ms, u)
  {
    if ms != [] {
      var n := |ms| - 1;
      PresentHasLastWrite(ms[..n]);
      if ms[n] == Wrote {
        assert LastWrite(ms, n);
      } else if ms[n] != Gone {
        if u :| LastWrite(ms[..n], u) { assert LastWrite(ms, u); }
        if u :| LastWrite(ms, u) { assert LastWrite(ms[..n], u); }
      }
    }
  }

  /** How the first write moves on with one more operation. */
  lemma FirstWriteSnoc(ms: seq<Mark>, m: Mark, b: nat)
    ensures b < |ms| && m != Gone ==> (FirstWrite(ms + [m], b) <==> FirstWrite(ms, b))
    ensures m == Gone ==> !FirstWrite(ms + [m], b)
    ensures m != Wrote ==> !FirstWrite(ms + [m], |ms|)
  {
    var all := ms + [m];
    assert all[|ms|] == m && forall j :: 0 <= j < |ms| ==> all[j] == ms[j];
    if b < |ms| {
      forall k | 0 <= k < b
        ensures RemovedBetween(all, k, b) <==> RemovedBetween(ms, k, b)
      {
        if d :| k < d < b && all[d] == Gone { assert ms[d] == Gone; }
        if d :| k < d < b && ms[d] == Gone { assert all[d] == Gone; }
      }
    }
  }

  /** With the entry absent, a write is the first. */
  lemma {:induction false} AbsentMeansRemoved(ms: seq<Mark>, k: nat)
    requires !Present(ms) && k < |ms| && ms[k] == Wrote
    ensures RemovedBetween(ms, k, |ms|)
  {
    var n := |ms| - 1;
    if ms[n] == Gone {
      assert k < n < |ms| && ms[n] == Gone;
    } else {
      AbsentMeansRemoved(ms[..n], k);
      var d :| k < d < n && ms[..n][d] == Gone;
      assert ms[d] == Gone;
    }
  }

  lemma WriteWhileAbsent(ms: seq<Mark>)
    requires !Present(ms)
    ensures FirstWrite(ms + [Wrote], |ms|)
  {
    var all := ms + [Wrote];
    forall k | 0 <= k < |ms| && all[k] == Wrote
      ensures RemovedBetween(all, k, |ms|)
    {
      AbsentMeansRemoved(ms, k);
      var d :| k < d < |ms| && ms[d] == Gone;
      assert all[d] == Gone;
    }
  }

  lemma WriteBehindWrite(ms: seq<Mark>, u: nat)
    requires LastWrite(ms, u)
    ensures !FirstWrite(ms + [Wrote], |ms|)
  {
    var all := ms + [Wrote];
    assert all[u] == Wrote && all[..|ms|] == ms;
    assert !RemovedBetween(all, u, |ms|) by {
      forall d | u < d < |ms|
        ensures all[d] != Gone
      {
        assert all[d] == ms[d];
      }
    }
  }

  lemma WriteWhilePresent(ms: seq<Mark>)
    requires Present(ms)
    ensures !FirstWrite(ms + [Wrote], |ms|)
  {
    hide LastWrite, FirstWrite;
    PresentHasLastWrite(ms);
    var u :| LastWrite(ms, u);
    WriteBehindWrite(ms, u);
  }

  /** A present entry has been there since some write. */
  lemma {:induction false} PresentSinceSomeWrite(ms: seq<Mark>) returns (b: nat)
    requires Present(ms)
    ensures FirstWrite(ms, b)
  {
    var n := |ms| - 1;
    assert ms == ms[..n] + [ms[n]];
    if Present(ms[..n]) {
      b := PresentSinceSomeWrite(ms[..n]);
      FirstWriteSnoc(ms[..n], ms[n], b);
    } else {
      b := n;
      WriteWhileAbsent(ms[..n]);
    }
  }
}
