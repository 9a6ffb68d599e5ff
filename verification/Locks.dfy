/** Named cross-process locks: an in-memory table from lock name to holder, with
    token-guarded release and release forced by the holder's death. */
module Locks {
  import opened Text

  datatype LockEntry = LockEntry(holderPid: int, token: nat, acquiredAt: int)

  type Table = map<string, LockEntry>

  const TWO32 := 0x1_0000_0000
  const TWO31 := 0x8000_0000

  /** The caller's process id: the JSON integer cast to `i32`, 0 when absent. */
  function CallerPid(arg: Option<int>): (pid: int)
    ensures -TWO31 <= pid < TWO31
    ensures arg.Some? ==> (pid - arg.value) % TWO32 == 0
    ensures arg.None? ==> pid == 0
  {
    match arg
    case None => 0
    case Some(n) => (n + TWO31) % TWO32 - TWO31
  }

  /** Signal 0 reaches the process: only positive ids are ever probed. */
  predicate PidAlive(pid: int, procs: set<int>) {
    pid > 0 && pid in procs
  }

  datatype ReleaseReply = Released | NotHeld | WrongToken

  /** What one acquire attempt does to the table, and the token it hands out. */
  function Attempt(t: Table, name: string, pid: int, token: nat, now: int, procs: set<int>): (Table, Option<nat>) {
    var kept := if name in t && !PidAlive(t[name].holderPid, procs) then t - {name} else t;
    if name in kept then (kept, None)
    else (kept[name := LockEntry(pid, token, now)], Some(token))
  }

  function Free(t: Table, name: string, token: nat): (Table, ReleaseReply) {
    if name !in t then (t, NotHeld)
    else if t[name].token == token then (t - {name}, Released)
    else (t, WrongToken)
  }

  /** A lock operation of some other client. */
  datatype Step =
    | OtherAcquire(name: string, pid: int, token: nat, now: int, procs: set<int>)
    | OtherRelease(name: string, token: nat)

  function Apply(t: Table, s: Step): Table {
    match s
    case OtherAcquire(name, pid, token, now, procs) => Attempt(t, name, pid, token, now, procs).0
    case OtherRelease(name, token) => Free(t, name, token).0
  }

  function ApplyAll(t: Table, steps: seq<Step>): Table
    decreases |steps|
  {
    if steps == [] then t else ApplyAll(Apply(t, steps[0]), steps[1..])
  }

  /** What the world shows one turn of the poll loop: the live processes, a fresh
      token and the time for the attempt, the reading of the monotonic clock after
      it, and what other clients did during the sleep. */
  datatype Round = Round(procs: set<int>, token: nat, now: int, clock: int, others: seq<Step>)

  /** The clock reaches `at` in some round. */
  predicate Reaches(rounds: seq<Round>, at: int) {
    exists i :: 0 <= i < |rounds| && rounds[i].clock >= at
  }

  lemma ReachesLater(rounds: seq<Round>, at: int)
    requires Reaches(rounds, at) && rounds[0].clock < at
    ensures Reaches(rounds[1..], at)
  {
    var i :| 0 <= i < |rounds| && rounds[i].clock >= at;
    assert rounds[1..][i - 1] == rounds[i];
  }

  datatype Reply = Granted(token: nat) | BadArgs | Busy | Timeout

  /** The poll loop as a function of the rounds it meets. */
  function Poll(t: Table, name: string, pid: int, deadline: Option<int>, rounds: seq<Round>): (Table, Reply)
    requires rounds != []
    requires deadline.Some? ==> Reaches(rounds, deadline.value)
    decreases |rounds|
  {
    var r := rounds[0];
    var (t1, got) := Attempt(t, name, pid, r.token, r.now, r.procs);
    if got.Some? then (t1, Granted(got.value))
    else if deadline.None? then (t1, Busy)
    else if r.clock >= deadline.value then (t1, Timeout)
    else
      ReachesLater(rounds, deadline.value);
      Poll(ApplyAll(t1, r.others), name, pid, deadline, rounds[1..])
  }

  class LockTable {
    var entries: Table

    constructor ()
      ensures entries == map[]
    {
      entries := map[];
    }

    method TryAcquireInner(name: string, pid: int, token: nat, now: int, procs: set<int>) returns (got: Option<nat>)
      modifies this
      ensures (entries, got) == Attempt(old(entries), name, pid, token, now, procs)
    {
      if name in entries {
        if !PidAlive(entries[name].holderPid, procs) {
          entries := entries - {name};
        }
      }
      if name in entries {
        return None;
      }
      entries := entries[name := LockEntry(pid, token, now)];
      return Some(token);
    }

    /** What other clients do while the caller sleeps. */
    method Others(steps: seq<Step>)
      modifies this
      ensures entries == ApplyAll(old(entries), steps)
    {
      for i := 0 to |steps|
        invariant ApplyAll(entries, steps[i..]) == ApplyAll(old(entries), steps)
      {
        entries := Apply(entries, steps[i]);
        assert steps[i..][1..] == steps[i + 1..];
      }
    }

    /** `lock_acquire`: poll until granted, out of time, or at once when no
        timeout is asked for. */
    method Acquire(name: string, pid: int, timeout: int, start: int, rounds: seq<Round>) returns (reply: Reply)
      requires rounds != []
      requires timeout > 0 ==> Reaches(rounds, start + timeout)
      modifies this
      ensures name == "" ==> reply == BadArgs && entries == old(entries)
      ensures name != "" ==>
        (entries, reply) == Poll(old(entries), name, pid, if timeout > 0 then Some(start + timeout) else None, rounds)
    {
      if name == "" { return BadArgs; }
      var deadline := if timeout > 0 then Some(start + timeout) else None;
      var i := 0;
      while true
        invariant 0 <= i < |rounds|
        invariant deadline.Some? ==> Reaches(rounds[i..], deadline.value)
        invariant Poll(entries, name, pid, deadline, rounds[i..]) == Poll(old(entries), name, pid, deadline, rounds)
        decreases |rounds| - i
      {
        var r := rounds[i];
        var got := TryAcquireInner(name, pid, r.token, r.now, r.procs);
        if got.Some? { return Granted(got.value); }
        match deadline {
          case None => return Busy;
          case Some(dl) => if r.clock >= dl { return Timeout; }
        }
        Others(r.others);
        ReachesLater(rounds[i..], deadline.value);
        assert rounds[i..][1..] == rounds[i + 1..];
        i := i + 1;
      }
    }

    method ReleaseLock(name: string, token: nat) returns (reply: ReleaseReply)
      modifies this
      ensures (entries, reply) == Free(old(entries), name, token)
    {
      if name !in entries { return NotHeld; }
      if entries[name].token == token {
        entries := entries - {name};
        return Released;
      }
      return WrongToken;
    }
  }

  /** The table as the attempt of round `k` finds it. */
  function TableAt(t: Table, name: string, pid: int, rounds: seq<Round>, k: nat): Table
    requires k < |rounds|
  {
    if k == 0 then t
    else
      var r := rounds[k - 1];
      ApplyAll(Attempt(TableAt(t, name, pid, rounds, k - 1), name, pid, r.token, r.now, r.procs).0, r.others)
  }

  predicate HeldAt(t: Table, name: string, pid: int, rounds: seq<Round>, k: nat)
    requires k < |rounds|
  {
    var u := TableAt(t, name, pid, rounds, k);
    name in u && PidAlive(u[name].holderPid, rounds[k].procs)
  }

  lemma {:induction false} TableAtShift(t: Table, name: string, pid: int, rounds: seq<Round>, k: nat)
    requires 0 < k < |rounds|
    ensures TableAt(t, name, pid, rounds, k) == TableAt(TableAt(t, name, pid, rounds, 1), name, pid, rounds[1..], k - 1)
  {
    if k > 1 {
      TableAtShift(t, name, pid, rounds, k - 1);
      assert rounds[1..][k - 2] == rounds[k - 1];
    }
  }

  /** The loop grants at the first round that finds the lock free or its holder
      dead, and not before; it times out only once the clock has passed the
      deadline with the lock held by a live process at every attempt made. */
  lemma {:induction false} PollStopsAtTheFirstFreeRound(t: Table, name: string, pid: int, dl: int, rounds: seq<Round>)
      returns (k: nat)
    requires Reaches(rounds, dl)
    ensures k < |rounds|
    ensures forall i :: 0 <= i < k ==> HeldAt(t, name, pid, rounds, i) && rounds[i].clock < dl
    ensures Poll(t, name, pid, Some(dl), rounds).1 ==
            if HeldAt(t, name, pid, rounds, k) then Timeout else Granted(rounds[k].token)
    ensures HeldAt(t, name, pid, rounds, k) ==> rounds[k].clock >= dl
    ensures !HeldAt(t, name, pid, rounds, k) ==>
      Poll(t, name, pid, Some(dl), rounds).0 ==
        TableAt(t, name, pid, rounds, k)[name := LockEntry(pid, rounds[k].token, rounds[k].now)]
    decreases |rounds|
  {
    hide ApplyAll;
    if !HeldAt(t, name, pid, rounds, 0) || rounds[0].clock >= dl {
      k := 0;
      var entry := LockEntry(pid, rounds[0].token, rounds[0].now);
      assert (t - {name})[name := entry] == t[name := entry];
    } else {
      ReachesLater(rounds, dl);
      var t1 := TableAt(t, name, pid, rounds, 1);
      assert t1 == ApplyAll(t, rounds[0].others);
      var j := PollStopsAtTheFirstFreeRound(t1, name, pid, dl, rounds[1..]);
      k := j + 1;
      forall i | 0 < i <= k
        ensures HeldAt(t, name, pid, rounds, i) == HeldAt(t1, name, pid, rounds[1..], i - 1)
      {
        TableAtShift(t, name, pid, rounds, i);
        assert rounds[1..][i - 1] == rounds[i];
      }
      TableAtShift(t, name, pid, rounds, k);
    }
  }

  /** With no timeout the loop answers after one attempt: busy, and nothing changed,
      exactly when a live process holds the lock. */
  lemma WithoutTimeoutOneAttempt(t: Table, name: string, pid: int, rounds: seq<Round>)
    requires rounds != []
    ensures Poll(t, name, pid, None, rounds) ==
      if name in t && PidAlive(t[name].holderPid, rounds[0].procs) then (t, Busy)
      else (t[name := LockEntry(pid, rounds[0].token, rounds[0].now)], Granted(rounds[0].token))
    ensures HeldAt(t, name, pid, rounds, 0) <==> Poll(t, name, pid, None, rounds) == (t, Busy)
  {
    var entry := LockEntry(pid, rounds[0].token, rounds[0].now);
    assert (t - {name})[name := entry] == t[name := entry];
  }

  /** Whatever the timeout, a grant is made at an attempt that finds the lock free or its
      holder dead, after attempts that all found it held, and writes the caller's entry
      over the table that attempt found. */
  lemma GrantedMeansItWasFree(t: Table, name: string, pid: int, deadline: Option<int>, rounds: seq<Round>) returns (k: nat)
    requires rounds != [] && (deadline.Some? ==> Reaches(rounds, deadline.value))
    requires Poll(t, name, pid, deadline, rounds).1.Granted?
    ensures k < |rounds| && !HeldAt(t, name, pid, rounds, k)
    ensures forall i :: 0 <= i < k ==> HeldAt(t, name, pid, rounds, i)
    ensures Poll(t, name, pid, deadline, rounds) ==
      (TableAt(t, name, pid, rounds, k)[name := LockEntry(pid, rounds[k].token, rounds[k].now)], Granted(rounds[k].token))
  {
    if deadline.Some? {
      k := PollStopsAtTheFirstFreeRound(t, name, pid, deadline.value, rounds);
    } else {
      k := 0;
      WithoutTimeoutOneAttempt(t, name, pid, rounds);
    }
  }

  /** A release gives the lock up exactly when it names a held lock and its token: then
      the next attempt on it is granted, and otherwise nothing changes. */
  lemma ReleaseFreesExactlyItsOwn(t: Table, name: string, token: nat, pid: int, next: nat, now: int, procs: set<int>)
    ensures var (t', reply) := Free(t, name, token);
      && (reply == Released <==> name in t && t[name].token == token)
      && (reply == NotHeld <==> name !in t)
      && (reply == Released ==> Attempt(t', name, pid, next, now, procs).1 == Some(next))
      && (reply != Released ==> t' == t)
      && forall n :: n != name ==> (n in t' <==> n in t) && (n in t ==> t'[n] == t[n])
  {
  }

  /** What other clients do between two rounds are the same operations. */
  lemma OthersDoTheSame(t: Table, step: Step)
    ensures match step
      case OtherAcquire(name, pid, token, now, procs) =>
        Apply(t, step) ==
          if name in t && PidAlive(t[name].holderPid, procs) then t else t[name := LockEntry(pid, token, now)]
      case OtherRelease(name, token) =>
        Apply(t, step) == if name in t && t[name].token == token then t - {name} else t
  {
    if step.OtherAcquire? {
      var entry := LockEntry(step.pid, step.token, step.now);
      assert (t - {step.name})[step.name := entry] == t[step.name := entry];
    }
  }
}
