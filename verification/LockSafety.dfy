/** Whole runs of the lock table among processes that start, die and reuse process
    ids: who holds a lock, and what an acquire attempt is refused for. */
module LockSafety {
  import opened Text
  import opened Locks

  /** A lock handed out: to which process id, and to which of the processes that
      have had that id. */
  datatype Grant = Grant(name: string, pid: int, process: nat, token: nat)

  /** `procs` maps a live process id to the process that has it now; processes are
      numbered from 0 as they start. `released` holds the tokens given back. */
  datatype World = World(table: Table, procs: map<int, nat>, started: nat, grants: seq<Grant>, released: set<nat>)

  datatype Event =
    | Acquire(name: string, pid: int, token: nat, now: int)
    | Release(name: string, token: nat)
    | Exit(pid: int)
    | Start(pid: int)

  function Initial(): World {
    World(map[], map[], 0, [], {})
  }

  /** Callers give their own live id and random tokens do not repeat; a process id
      is only given out while nobody has it. Releases may carry any token. */
  predicate Enabled(w: World, e: Event) {
    match e
    case Acquire(_, pid, token, _) =>
      PidAlive(pid, w.procs.Keys) && forall g :: g in w.grants ==> g.token != token
    case Release(_, _) => true
    case Exit(pid) => pid in w.procs
    case Start(pid) => pid > 0 && pid !in w.procs
  }

  function Next(w: World, e: Event): World
    requires Enabled(w, e)
  {
    match e
    case Acquire(name, pid, token, now) =>
      var (t, got) := Attempt(w.table, name, pid, token, now, w.procs.Keys);
      w.(table := t, grants := if got.Some? then w.grants + [Grant(name, pid, w.procs[pid], token)] else w.grants)
    case Release(name, token) =>
      var (t, reply) := Free(w.table, name, token);
      w.(table := t, released := if reply.Released? then w.released + {token} else w.released)
    case Exit(pid) => w.(procs := w.procs - {pid})
    case Start(pid) => w.(procs := w.procs[pid := w.started], started := w.started + 1)
  }

  predicate ValidRun(w: World, events: seq<Event>)
    decreases |events|
  {
    events == [] || (Enabled(w, events[0]) && ValidRun(Next(w, events[0]), events[1..]))
  }

  function Run(w: World, events: seq<Event>): World
    requires ValidRun(w, events)
    decreases |events|
  {
    if events == [] then w else Run(Next(w, events[0]), events[1..])
  }

  predicate Unreleased(w: World, i: nat)
    requires i < |w.grants|
  {
    w.grants[i].token !in w.released
  }

  /** Grant `i` has not been given back and the very process it was made to has
      stayed alive since. */
  predicate Holding(w: World, i: nat)
    requires i < |w.grants|
  {
    var g := w.grants[i];
    Unreleased(w, i) && g.pid in w.procs && w.procs[g.pid] == g.process
  }

  /** The table's entry for the grant's name is the one this grant made. */
  predicate Recorded(w: World, i: nat)
    requires i < |w.grants|
  {
    var g := w.grants[i];
    g.name in w.table && w.table[g.name].token == g.token && w.table[g.name].holderPid == g.pid
  }

  /** Some unreleased grant of `name` is the one the table records. */
  predicate Backed(w: World, name: string) {
    exists i :: 0 <= i < |w.grants| && w.grants[i].name == name && Recorded(w, i) && Unreleased(w, i)
  }

  predicate Issued(w: World, token: nat) {
    exists i :: 0 <= i < |w.grants| && w.grants[i].token == token
  }

  predicate TokensDistinct(w: World) {
    forall i, j :: 0 <= i < j < |w.grants| ==> w.grants[i].token != w.grants[j].token
  }

  predicate Numbered(w: World) {
    && (forall i :: 0 <= i < |w.grants| ==> w.grants[i].pid > 0 && w.grants[i].process < w.started)
    && (forall p :: p in w.procs ==> w.procs[p] < w.started)
  }

  predicate Inv(w: World) {
    && TokensDistinct(w)
    && Numbered(w)
    && (forall i :: 0 <= i < |w.grants| && Holding(w, i) ==> Recorded(w, i))
    && (forall n :: n in w.table ==> Backed(w, n))
    && (forall t :: t in w.released ==> Issued(w, t))
  }

  /** The table has an entry for the name whose holder is alive. */
  predicate Taken(w: World, name: string) {
    name in w.table && PidAlive(w.table[name].holderPid, w.procs.Keys)
  }

  predicate SameEntry(w: World, w': World, name: string) {
    (name in w'.table <==> name in w.table) && (name in w.table ==> w'.table[name] == w.table[name])
  }

  /** An attempt either changes nothing or records a new grant under its name. */
  lemma AcquireStep(w: World, e: Event)
    requires e.Acquire? && Enabled(w, e)
    ensures var w' := Next(w, e);
      && w'.released == w.released && w'.procs == w.procs && w'.started == w.started
      && (forall n :: n != e.name ==> SameEntry(w, w', n))
      && (Taken(w, e.name) ==> w'.grants == w.grants && SameEntry(w, w', e.name))
      && (!Taken(w, e.name) ==> w'.grants == w.grants + [Grant(e.name, e.pid, w.procs[e.pid], e.token)])
      && (!Taken(w, e.name) ==> e.name in w'.table && w'.table[e.name].token == e.token && w'.table[e.name].holderPid == e.pid)
  {
  }

  lemma AcquireKeepsGrant(w: World, e: Event, i: nat)
    requires e.Acquire? && Enabled(w, e) && i < |w.grants|
    ensures var w' := Next(w, e);
      && i < |w'.grants| && w'.grants[i] == w.grants[i]
      && (Unreleased(w', i) <==> Unreleased(w, i)) && (Holding(w', i) <==> Holding(w, i))
      && (w.grants[i].pid > 0 && Recorded(w, i) && (Holding(w, i) || w.grants[i].name != e.name || Taken(w, e.name))
          ==> Recorded(w', i))
  {
    hide Next;
    AcquireStep(w, e);
    var n := w.grants[i].name;
    assert n != e.name ==> SameEntry(w, Next(w, e), n);
  }

  lemma AcquireBacks(w: World, e: Event, n: string)
    requires Inv(w) && e.Acquire? && Enabled(w, e) && n in Next(w, e).table
    ensures Backed(Next(w, e), n)
  {
    hide Next, Recorded, Unreleased, Holding, TokensDistinct, Numbered;
    var w' := Next(w, e);
    AcquireStep(w, e);
    if n == e.name && !Taken(w, n) {
      NewGrant(w, e);
    } else {
      assert SameEntry(w, w', n);
      assert Backed(w, n);
      var i :| 0 <= i < |w.grants| && w.grants[i].name == n && Recorded(w, i) && Unreleased(w, i);
      assert w.grants[i].pid > 0 by { assert Numbered(w); GrantPids(w, i); }
      AcquireKeepsGrant(w, e, i);
      assert Recorded(w', i) && Unreleased(w', i);
    }
  }

  lemma GrantPids(w: World, i: nat)
    requires Numbered(w) && i < |w.grants|
    ensures w.grants[i].pid > 0
  {
  }

  lemma NewGrant(w: World, e: Event)
    requires Inv(w) && e.Acquire? && Enabled(w, e) && !Taken(w, e.name)
    ensures var w', k := Next(w, e), |w.grants|;
      && |w'.grants| == k + 1 && w'.grants[k].name == e.name && Recorded(w', k) && Unreleased(w', k)
      && !Issued(w, e.token) && TokensDistinct(w') && Numbered(w')
  {
    hide Next;
    AcquireStep(w, e);
    assert !Issued(w, e.token);
  }

  lemma AcquireKeepsInv(w: World, e: Event)
    requires Inv(w) && e.Acquire? && Enabled(w, e)
    ensures Inv(Next(w, e))
  {
    hide Next, Recorded, Unreleased, Holding, Backed;
    var w' := Next(w, e);
    AcquireStep(w, e);
    if !Taken(w, e.name) { NewGrant(w, e); }
    forall n | n in w'.table
      ensures Backed(w', n)
    {
      AcquireBacks(w, e, n);
    }
    forall i | 0 <= i < |w'.grants| && Holding(w', i)
      ensures Recorded(w', i)
    {
      if i < |w.grants| { AcquireKeepsGrant(w, e, i); }
    }
    forall t | t in w'.released
      ensures Issued(w', t)
    {
      var i :| 0 <= i < |w.grants| && w.grants[i].token == t;
      assert w'.grants[i].token == t;
    }
  }

  /** A release with the entry's token removes the entry, any other changes nothing. */
  lemma ReleaseStep(w: World, e: Event)
    requires e.Release? && Enabled(w, e)
    ensures var w', hit := Next(w, e), e.name in w.table && w.table[e.name].token == e.token;
      && w'.grants == w.grants && w'.procs == w.procs && w'.started == w.started
      && w'.table == (if hit then w.table - {e.name} else w.table)
      && w'.released == (if hit then w.released + {e.token} else w.released)
  {
  }

  /** A grant that is not under the released token is not affected. */
  lemma ReleaseKeepsGrant(w: World, e: Event, i: nat)
    requires Inv(w) && e.Release? && Enabled(w, e) && i < |w.grants|
    ensures var w' := Next(w, e);
      && w'.grants == w.grants && (Unreleased(w', i) ==> Unreleased(w, i)) && (Holding(w', i) ==> Holding(w, i))
      && (Recorded(w, i) && (Unreleased(w', i) || w.grants[i].name in w'.table) ==> Recorded(w', i))
      && (Unreleased(w, i) && w.grants[i].token != e.token ==> Unreleased(w', i))
  {
    hide Next;
    ReleaseStep(w, e);
  }

  lemma ReleaseBacks(w: World, e: Event, n: string)
    requires Inv(w) && e.Release? && Enabled(w, e) && n in Next(w, e).table
    ensures Backed(Next(w, e), n)
  {
    hide Next, Unreleased, Holding;
    ReleaseStep(w, e);
    assert Backed(w, n);
    var i :| 0 <= i < |w.grants| && w.grants[i].name == n && Recorded(w, i) && Unreleased(w, i);
    ReleaseKeepsGrant(w, e, i);
    if e.name in w.table && w.table[e.name].token == e.token {
      var j :| 0 <= j < |w.grants| && w.grants[j].name == e.name && Recorded(w, j) && Unreleased(w, j);
      assert i != j;
    } else {
      assert Next(w, e) == w;
    }
    assert Recorded(Next(w, e), i) && Unreleased(Next(w, e), i);
  }

  lemma ReleaseKeepsInv(w: World, e: Event)
    requires Inv(w) && e.Release? && Enabled(w, e)
    ensures Inv(Next(w, e))
  {
    hide Next, Recorded, Unreleased, Holding, Backed;
    var w' := Next(w, e);
    ReleaseStep(w, e);
    forall n | n in w'.table
      ensures Backed(w', n)
    {
      ReleaseBacks(w, e, n);
    }
    forall i | 0 <= i < |w'.grants| && Holding(w', i)
      ensures Recorded(w', i)
    {
      ReleaseKeepsGrant(w, e, i);
      HoldingIsUnreleased(w', i);
    }
    forall t | t in w'.released
      ensures Issued(w', t)
    {
      if t !in w.released { ReleasedWasIssued(w, e); } else { assert Issued(w, t); }
    }
  }

  lemma HoldingIsUnreleased(w: World, i: nat)
    requires i < |w.grants| && Holding(w, i)
    ensures Unreleased(w, i)
  {
  }

  lemma ReleasedWasIssued(w: World, e: Event)
    requires Inv(w) && e.Release? && e.name in w.table && w.table[e.name].token == e.token
    ensures Issued(w, e.token)
  {
    assert Backed(w, e.name);
    var j :| 0 <= j < |w.grants| && w.grants[j].name == e.name && Recorded(w, j) && Unreleased(w, j);
    assert w.grants[j].token == e.token;
  }

  lemma ProcessStepKeepsInv(w: World, e: Event)
    requires Inv(w) && (e.Exit? || e.Start?) && Enabled(w, e)
    ensures Inv(Next(w, e))
  {
    var w' := Next(w, e);
    forall i | 0 <= i < |w.grants|
      ensures Recorded(w, i) == Recorded(w', i) && Unreleased(w, i) == Unreleased(w', i)
      ensures Holding(w', i) ==> Holding(w, i)
    {
    }
    forall n | n in w'.table
      ensures Backed(w', n)
    {
      var i :| 0 <= i < |w.grants| && w.grants[i].name == n && Recorded(w, i) && Unreleased(w, i);
      assert Recorded(w', i);
    }
    forall t | t in w'.released
      ensures Issued(w', t)
    {
      assert Issued(w, t);
    }
  }

  lemma StepKeepsInv(w: World, e: Event)
    requires Inv(w) && Enabled(w, e)
    ensures Inv(Next(w, e))
  {
    match e
    case Acquire(_, _, _, _) => AcquireKeepsInv(w, e);
    case Release(_, _) => ReleaseKeepsInv(w, e);
    case Exit(_) => ProcessStepKeepsInv(w, e);
    case Start(_) => ProcessStepKeepsInv(w, e);
  }

  lemma {:induction false} RunKeepsInv(w: World, events: seq<Event>)
    requires Inv(w) && ValidRun(w, events)
    ensures Inv(Run(w, events))
    decreases |events|
  {
    if events != [] {
      StepKeepsInv(w, events[0]);
      RunKeepsInv(Next(w, events[0]), events[1..]);
    }
  }

  /** Mutual exclusion over whole runs: however acquires, releases, deaths and
      reused process ids interleave, no name is held twice. */
  lemma MutualExclusion(events: seq<Event>, i: nat, j: nat)
    requires ValidRun(Initial(), events)
    requires i < |Run(Initial(), events).grants| && j < |Run(Initial(), events).grants|
    requires Holding(Run(Initial(), events), i) && Holding(Run(Initial(), events), j)
    requires Run(Initial(), events).grants[i].name == Run(Initial(), events).grants[j].name
    ensures i == j
  {
    RunKeepsInv(Initial(), events);
    var w := Run(Initial(), events);
    assert Recorded(w, i) && Recorded(w, j);
  }

  /** The two ways a holder loses its lock. */
  predicate Ends(e: Event, g: Grant) {
    e == Release(g.name, g.token) || e == Exit(g.pid)
  }

  lemma StepKeepsHolding(w: World, e: Event, i: nat)
    requires Inv(w) && Enabled(w, e) && i < |w.grants| && Holding(w, i) && !Ends(e, w.grants[i])
    ensures i < |Next(w, e).grants| && Next(w, e).grants[i] == w.grants[i] && Holding(Next(w, e), i)
  {
    hide Inv, Numbered, TokensDistinct, Backed, Recorded;
    match e
    case Acquire(_, _, _, _) => AcquireKeepsGrant(w, e, i);
    case Release(_, _) => ReleaseKeepsHolding(w, e, i);
    case Exit(_) =>
    case Start(_) =>
  }

  lemma ReleaseKeepsHolding(w: World, e: Event, i: nat)
    requires Inv(w) && e.Release? && i < |w.grants| && Holding(w, i) && !Ends(e, w.grants[i])
    ensures Next(w, e).grants == w.grants && Holding(Next(w, e), i)
  {
    hide Next;
    ReleaseStep(w, e);
    assert Recorded(w, i);
  }

  /** Only the holder's own token on its own name, or its death, ends a hold: no
      stale token and no other client's acquire ever takes the lock away. */
  lemma {:induction false} HolderKeepsItsLock(w: World, events: seq<Event>, i: nat)
    requires Inv(w) && ValidRun(w, events)
    requires i < |w.grants| && Holding(w, i)
    requires forall e :: e in events ==> !Ends(e, w.grants[i])
    ensures i < |Run(w, events).grants| && Run(w, events).grants[i] == w.grants[i]
    ensures Holding(Run(w, events), i) && Recorded(Run(w, events), i)
    decreases |events|
  {
    if events != [] {
      hide Inv, Holding, Recorded, Ends, Enabled, Next;
      StepKeepsInv(w, events[0]);
      StepKeepsHolding(w, events[0], i);
      HolderKeepsItsLock(Next(w, events[0]), events[1..], i);
    } else {
      assert Holding(w, i) && Recorded(w, i);
    }
  }

  /** An attempt on `name` would be refused now. */
  predicate Refused(w: World, name: string) {
    name in w.table && PidAlive(w.table[name].holderPid, w.procs.Keys)
  }

  /** Why an acquire is refused: somebody holds the lock, or the grantee has died
      and its process id has since been given to another process. */
  lemma RefusedExactlyWhen(events: seq<Event>, name: string)
    requires ValidRun(Initial(), events)
    ensures var w := Run(Initial(), events);
      Refused(w, name) <==>
        exists i :: 0 <= i < |w.grants| && w.grants[i].name == name && Recorded(w, i) && w.grants[i].pid in w.procs
          && (Holding(w, i) || w.procs[w.grants[i].pid] != w.grants[i].process)
  {
    RunKeepsInv(Initial(), events);
    var w := Run(Initial(), events);
    if Refused(w, name) {
      assert Backed(w, name);
      var i :| 0 <= i < |w.grants| && w.grants[i].name == name && Recorded(w, i) && Unreleased(w, i);
      assert w.grants[i].pid in w.procs;
    }
  }

  /** While no process id is reused, a lock is refused exactly when it is held. */
  lemma WithoutReuseRefusedMeansHeld(events: seq<Event>, name: string)
    requires ValidRun(Initial(), events)
    requires forall g :: g in Run(Initial(), events).grants && g.pid in Run(Initial(), events).procs ==>
      Run(Initial(), events).procs[g.pid] == g.process
    ensures var w := Run(Initial(), events);
      Refused(w, name) <==> exists i :: 0 <= i < |w.grants| && w.grants[i].name == name && Holding(w, i)
  {
    RunKeepsInv(Initial(), events);
    var w := Run(Initial(), events);
    if Refused(w, name) {
      assert Backed(w, name);
      var i :| 0 <= i < |w.grants| && w.grants[i].name == name && Recorded(w, i) && Unreleased(w, i);
      assert w.grants[i] in w.grants;
      assert Holding(w, i);
    }
    if i :| 0 <= i < |w.grants| && w.grants[i].name == name && Holding(w, i) {
      assert Recorded(w, i);
    }
  }

  /** With reuse it can be refused though every process ever granted it is dead. */
  lemma ReusedPidKeepsADeadLock()
    ensures exists events :: ValidRun(Initial(), events) && var w := Run(Initial(), events);
      Refused(w, "deploy") && forall i :: 0 <= i < |w.grants| ==> !Holding(w, i)
  {
    var e0, e1, e2, e3 := Start(7), Acquire("deploy", 7, 1, 0), Exit(7), Start(7);
    var w0 := Initial();
    var w1 := Next(w0, e0);
    var w2 := Next(w1, e1);
    var w3 := Next(w2, e2);
    var w4 := Next(w3, e3);
    var events := [e0, e1, e2, e3];
    assert ValidRun(w4, []) && Run(w4, []) == w4;
    assert events[1..] == [e1, e2, e3] && [e1, e2, e3][1..] == [e2, e3] && [e2, e3][1..] == [e3] && [e3][1..] == [];
    assert ValidRun(w3, [e3]) && Run(w3, [e3]) == w4;
    assert ValidRun(w2, [e2, e3]) && Run(w2, [e2, e3]) == w4;
    assert ValidRun(w1, [e1, e2, e3]) && Run(w1, [e1, e2, e3]) == w4;
    assert ValidRun(w0, events) && Run(w0, events) == w4;
    assert w4.procs[7] == 1 && w4.grants == [Grant("deploy", 7, 0, 1)];
  }

  /** Whatever the caller's process id, a lock just granted to it is refused to the
      next caller exactly when that id names a live process. A caller that leaves
      its id out (0) is therefore never protected. */
  lemma ProtectedExactlyWhenAlive(t: Table, name: string, pid: int, token: nat, now: int, procs: set<int>,
                                  pid2: int, token2: nat, now2: int)
    requires Attempt(t, name, pid, token, now, procs).1.Some?
    ensures var t' := Attempt(t, name, pid, token, now, procs).0;
      Attempt(t', name, pid2, token2, now2, procs).1.None? <==> PidAlive(pid, procs)
  {
  }
}
