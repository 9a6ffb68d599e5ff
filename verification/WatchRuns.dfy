/** Runs of the subscription table: refcounts against live subscriptions, and what
    one failed watch call does to its path for good. */
module WatchRuns {
  import opened Text
  import opened Watch

  /** The live subscriptions to a path. */
  function Ids(subscriptions: map<int, Path>, path: Path): set<int> {
    set id | id in subscriptions && subscriptions[id] == path
  }

  /** What the tables say about one path. `lost`: paths whose watch call once failed.
      `unseen`: paths registered since before the watcher's last start. */
  predicate PathInv(t: Table, lost: set<Path>, unseen: set<Path>, p: Path) {
    && (p in t.subRefcount ==> t.subRefcount[p] == |Ids(t.subscriptions, p)| + (if p in lost then 1 else 0) > 0)
    && (p !in t.subRefcount ==> |Ids(t.subscriptions, p)| == 0 && p !in lost)
    && (p in t.registered <==> p in t.subRefcount && p !in lost)
    && (p in t.osWatched <==> p in t.registered && p !in unseen)
    && (p in unseen ==> p in t.registered)
    && (!t.running && p in t.subRefcount ==> p in unseen)
  }

  ghost predicate Inv(t: Table, lost: set<Path>, unseen: set<Path>) {
    && (forall p :: PathInv(t, lost, unseen, p))
    && (forall id :: id in t.subscriptions ==> id < t.nextId)
    && t.watchedPathCount == |t.registered|
  }

  function Lost(t: Table, lost: set<Path>, e: Event): set<Path> {
    if e.Subscribe? && SubscribeTo(t, e.wp, e.osOk).1.None? then lost + {e.wp.path} else lost
  }

  function Unseen(t: Table, unseen: set<Path>, e: Event): set<Path> {
    set p | p in Step(t, e).registered && (p in unseen || !t.running || e == Start(true))
  }

  lemma AddId(m: map<int, Path>, id: int, path: Path, p: Path)
    requires id !in m
    ensures |Ids(m[id := path], p)| == |Ids(m, p)| + if p == path then 1 else 0
  {
    assert id !in Ids(m, p);
    assert Ids(m[id := path], p) == if p == path then Ids(m, p) + {id} else Ids(m, p);
  }

  lemma DropId(m: map<int, Path>, id: int, p: Path)
    requires id in m
    ensures |Ids(m - {id}, p)| == |Ids(m, p)| - if p == m[id] then 1 else 0
  {
    assert Ids(m - {id}, p) == Ids(m, p) - {id};
    assert id in Ids(m, p) <==> p == m[id];
  }

  lemma SubscribeKeepsPathInv(t: Table, lost: set<Path>, unseen: set<Path>, e: Event, p: Path)
    requires PathInv(t, lost, unseen, p) && e.Subscribe? && t.nextId !in t.subscriptions
    ensures PathInv(Step(t, e), Lost(t, lost, e), Unseen(t, unseen, e), p)
  {
    AddId(t.subscriptions, t.nextId, e.wp.path, p);
  }

  lemma UnsubscribeKeepsPathInv(t: Table, lost: set<Path>, unseen: set<Path>, e: Event, p: Path)
    requires PathInv(t, lost, unseen, p) && e.Unsubscribe? && e.id in t.subscriptions
    requires PathInv(t, lost, unseen, t.subscriptions[e.id])
    ensures PathInv(Step(t, e), Lost(t, lost, e), Unseen(t, unseen, e), p)
  {
    var path := t.subscriptions[e.id];
    assert e.id in Ids(t.subscriptions, path);
    DropId(t.subscriptions, e.id, p);
  }

  lemma StartKeepsPathInv(t: Table, lost: set<Path>, unseen: set<Path>, e: Event, p: Path)
    requires PathInv(t, lost, unseen, p) && (e.Start? || (e.Unsubscribe? && e.id !in t.subscriptions))
    ensures PathInv(Step(t, e), Lost(t, lost, e), Unseen(t, unseen, e), p)
  {
  }

  /** Ids stay below the next one, and the count of watched paths is kept. */
  lemma StepKeepsIds(t: Table, e: Event)
    requires forall id :: id in t.subscriptions ==> id < t.nextId
    requires t.watchedPathCount == |t.registered|
    ensures forall id :: id in Step(t, e).subscriptions ==> id < Step(t, e).nextId
    ensures Step(t, e).watchedPathCount == |Step(t, e).registered|
  {
  }

  lemma StepKeepsInv(t: Table, lost: set<Path>, unseen: set<Path>, e: Event)
    requires Inv(t, lost, unseen)
    ensures Inv(Step(t, e), Lost(t, lost, e), Unseen(t, unseen, e))
  {
    hide PathInv, Step, Lost, Unseen;
    StepKeepsIds(t, e);
    forall p
      ensures PathInv(Step(t, e), Lost(t, lost, e), Unseen(t, unseen, e), p)
    {
      assert PathInv(t, lost, unseen, p);
      if e.Subscribe? {
        SubscribeKeepsPathInv(t, lost, unseen, e, p);
      } else if e.Unsubscribe? && e.id in t.subscriptions {
        assert PathInv(t, lost, unseen, t.subscriptions[e.id]);
        UnsubscribeKeepsPathInv(t, lost, unseen, e, p);
      } else {
        StartKeepsPathInv(t, lost, unseen, e, p);
      }
    }
  }

  /** The paths whose watch call failed at some point of a run. */
  function LostIn(t: Table, lost: set<Path>, events: seq<Event>): set<Path>
    decreases |events|
  {
    if events == [] then lost else LostIn(Step(t, events[0]), Lost(t, lost, events[0]), events[1..])
  }

  function UnseenIn(t: Table, unseen: set<Path>, events: seq<Event>): set<Path>
    decreases |events|
  {
    if events == [] then unseen else UnseenIn(Step(t, events[0]), Unseen(t, unseen, events[0]), events[1..])
  }

  lemma {:induction false} RunKeepsInv(t: Table, lost: set<Path>, unseen: set<Path>, events: seq<Event>)
    requires Inv(t, lost, unseen)
    ensures Inv(Run(t, events), LostIn(t, lost, events), UnseenIn(t, unseen, events))
    ensures lost <= LostIn(t, lost, events)
    decreases |events|
  {
    if events != [] {
      StepKeepsInv(t, lost, unseen, events[0]);
      RunKeepsInv(Step(t, events[0]), Lost(t, lost, events[0]), Unseen(t, unseen, events[0]), events[1..]);
    }
  }

  lemma EmptyInv()
    ensures Inv(Empty(), {}, {})
  {
    forall p
      ensures PathInv(Empty(), {}, {}, p)
    {
      assert Ids(Empty().subscriptions, p) == {};
    }
  }

  /** After any run, starts and failures wherever they come: a path's refcount is the
      number of its live subscriptions, and it is registered exactly when that number
      is positive, if and only if its watch call never failed while nobody was
      subscribed to it. */
  lemma CountsAgreeExactlyUnlessWatchFailed(events: seq<Event>, path: Path)
    ensures var t := Run(Empty(), events);
      && t.watchedPathCount == |t.registered|
      && (path in t.osWatched ==> path in t.registered)
      && (path !in LostIn(Empty(), {}, events) <==> Count(t, path) == |Ids(t.subscriptions, path)|)
      && (path !in LostIn(Empty(), {}, events) ==> (path in t.registered <==> |Ids(t.subscriptions, path)| > 0))
  {
    EmptyInv();
    RunKeepsInv(Empty(), {}, {}, events);
    assert PathInv(Run(Empty(), events), LostIn(Empty(), {}, events), UnseenIn(Empty(), {}, events), path);
  }

  /** Whether the path is unregistered at some point of a run, its ends included. */
  predicate OnceUnregistered(t: Table, events: seq<Event>, path: Path)
    decreases |events|
  {
    path !in t.registered || (events != [] && OnceUnregistered(Step(t, events[0]), events[1..], path))
  }

  predicate NoStart(events: seq<Event>) {
    forall i :: 0 <= i < |events| ==> events[i] != Start(true)
  }

  /** Since the last start the operating system watches what is registered, but for
      what has been registered all along: a start asks for no watch. So a path
      subscribed to before it goes unnoticed until its last subscription is gone and a
      new one comes. */
  lemma WatchedExactlyWhenRegisteredSinceTheStart(before: seq<Event>, after: seq<Event>, path: Path)
    requires NoStart(after)
    ensures var t0 := Step(Run(Empty(), before), Start(true));
      var t := Run(t0, after);
      path in t.osWatched <==> path in t.registered && OnceUnregistered(t0, after, path)
  {
    EmptyInv();
    RunKeepsInv(Empty(), {}, {}, before);
    var t, lost, unseen := Run(Empty(), before), LostIn(Empty(), {}, before), UnseenIn(Empty(), {}, before);
    StepKeepsInv(t, lost, unseen, Start(true));
    var t0, unseen0 := Step(t, Start(true)), Unseen(t, unseen, Start(true));
    UnseenAllAlong(t0, unseen0, after, path);
    RunKeepsInv(t0, lost, unseen0, after);
    assert PathInv(Run(t0, after), LostIn(t0, lost, after), UnseenIn(t0, unseen0, after), path);
  }

  lemma {:induction false} UnseenAllAlong(t: Table, unseen: set<Path>, events: seq<Event>, path: Path)
    requires t.running && NoStart(events) && unseen <= t.registered.Keys
    ensures path in UnseenIn(t, unseen, events) <==> path in unseen && !OnceUnregistered(t, events, path)
    decreases |events|
  {
    if events != [] {
      UnseenAllAlong(Step(t, events[0]), Unseen(t, unseen, events[0]), events[1..], path);
    }
  }

  /** A second start with no subscription in between: what was watched no longer is. */
  lemma SecondStartLosesWatches(wp: WatchedPath)
    ensures var t := Run(Empty(), [Start(true), Subscribe(wp, true)]);
      wp.path in t.osWatched && wp.path in t.registered
    ensures var t := Run(Empty(), [Start(true), Subscribe(wp, true), Start(true)]);
      wp.path !in t.osWatched && wp.path in t.registered
  {
    var e, again := Subscribe(wp, true), [Start(true)];
    var t := Step(Empty(), Start(true));
    assert [Start(true), e][1..] == [e] && [Start(true), e, Start(true)][1..] == [e] + again;
    RunAfter(t, e, []);
    RunAfter(t, e, again);
    assert [e] + [] == [e] && again[1..] == [];
  }

  lemma RunAfter(t: Table, e: Event, later: seq<Event>)
    ensures Run(t, [e] + later) == Run(Step(t, e), later)
  {
    assert ([e] + later)[1..] == later;
  }

  /** The listing accounts for itself: the count shown beside a subscription is the
      number of subscriptions listed for its path, unless that path's watch failed. */
  lemma ListingCountsItself(watcher: FsWatcher, events: seq<Event>, id: int)
    requires watcher.State() == Run(Empty(), events) && id in watcher.ListSubscriptions()
    ensures var listed := watcher.ListSubscriptions();
      listed[id].1 == |set i | i in listed && listed[i].0 == listed[id].0|
      <==> listed[id].0 !in LostIn(Empty(), {}, events)
  {
    var t, listed := watcher.State(), watcher.ListSubscriptions();
    var path := t.subscriptions[id];
    CountsAgreeExactlyUnlessWatchFailed(events, path);
    assert (set i | i in listed && listed[i].0 == path) == Ids(t.subscriptions, path);
  }

  lemma LostPathIsUnwatched(t: Table, lost: set<Path>, unseen: set<Path>, path: Path)
    requires Inv(t, lost, unseen) && path in lost
    ensures path !in t.registered && path !in t.osWatched
    ensures Count(t, path) == |Ids(t.subscriptions, path)| + 1
  {
    assert PathInv(t, lost, unseen, path);
  }

  /** A path whose first watch call failed is never watched again, however often
      it is subscribed to later: every later run leaves it unregistered. */
  lemma FailedWatchIsForever(t: Table, lost: set<Path>, unseen: set<Path>, wp: WatchedPath, later: seq<Event>)
    requires Inv(t, lost, unseen) && t.running && Ids(t.subscriptions, wp.path) == {}
    ensures var t' := Run(Step(t, Subscribe(wp, false)), later);
      wp.path !in t'.registered && wp.path !in t'.osWatched && Count(t', wp.path) == |Ids(t'.subscriptions, wp.path)| + 1
  {
    var e := Subscribe(wp, false);
    StepKeepsInv(t, lost, unseen, e);
    assert PathInv(t, lost, unseen, wp.path);
    assert wp.path in Lost(t, lost, e);
    var t1, lost1, unseen1 := Step(t, e), Lost(t, lost, e), Unseen(t, unseen, e);
    RunKeepsInv(t1, lost1, unseen1, later);
    LostPathIsUnwatched(Run(t1, later), LostIn(t1, lost1, later), UnseenIn(t1, unseen1, later), wp.path);
  }

  /** No event of a run gives the subscription up. */
  predicate Keeps(events: seq<Event>, id: int) {
    forall i :: 0 <= i < |events| ==> events[i] != Unsubscribe(id)
  }

  lemma {:induction false} StaysSubscribed(t: Table, events: seq<Event>, id: int)
    requires id in t.subscriptions && id < t.nextId && Keeps(events, id)
    ensures var t' := Run(t, events);
      id in t'.subscriptions && t'.subscriptions[id] == t.subscriptions[id]
    decreases |events|
  {
    if events != [] {
      hide Step;
      StepKeepsSubscription(t, events[0], id);
      LaterKeeps(events, id);
      StaysSubscribed(Step(t, events[0]), events[1..], id);
    }
  }

  lemma LaterKeeps(events: seq<Event>, id: int)
    requires events != [] && Keeps(events, id)
    ensures Keeps(events[1..], id)
  {
  }

  lemma StepKeepsSubscription(t: Table, e: Event, id: int)
    requires id in t.subscriptions && id < t.nextId && e != Unsubscribe(id)
    ensures var t' := Step(t, e);
      id in t'.subscriptions && t'.subscriptions[id] == t.subscriptions[id] && id < t'.nextId
  {
  }

  lemma Unsubscribed(t: Table, id: int)
    requires id in t.subscriptions && Count(t, t.subscriptions[id]) > 0
    ensures var (t', existed) := UnsubscribeFrom(t, id);
      var path := t.subscriptions[id];
      && existed && t'.subscriptions == t.subscriptions - {id} && Count(t', path) == Count(t, path) - 1
      && forall p :: p != path ==>
           Count(t', p) == Count(t, p) && (p in t'.registered <==> p in t.registered) && (p in t'.osWatched <==> p in t.osWatched)
  {
    forall p | p != t.subscriptions[id] {
      OtherPathsStay(t, id, p);
    }
  }

  lemma OtherPathsStay(t: Table, id: int, p: Path)
    requires id in t.subscriptions && p != t.subscriptions[id]
    ensures var t' := UnsubscribeFrom(t, id).0;
      Count(t', p) == Count(t, p) && (p in t'.registered <==> p in t.registered) && (p in t'.osWatched <==> p in t.osWatched)
  {
  }

  lemma NewlySubscribed(t: Table, lost: set<Path>, unseen: set<Path>, wp: WatchedPath, osOk: bool)
    requires Inv(t, lost, unseen) && SubscribeTo(t, wp, osOk).1.Some?
    ensures var (t1, got) := SubscribeTo(t, wp, osOk);
      && got.value !in t.subscriptions && got.value in t1.subscriptions && got.value < t1.nextId
      && t1.subscriptions[got.value] == wp.path && t1 == Step(t, Subscribe(wp, osOk))
  {
  }

  /** The id a subscription is answered with is new, stands for that path in every later
      run until it is given up, and giving it up takes back exactly that subscription:
      one off its path's count, nothing of any other path. */
  lemma IdStandsForItsSubscription(before: seq<Event>, wp: WatchedPath, osOk: bool, later: seq<Event>)
    requires var id := SubscribeTo(Run(Empty(), before), wp, osOk).1; id.Some? && Keeps(later, id.value)
    ensures var t0 := Run(Empty(), before);
      var (t1, got) := SubscribeTo(t0, wp, osOk);
      var id, t := got.value, Run(t1, later);
      var (t', existed) := UnsubscribeFrom(t, id);
      && id !in t0.subscriptions
      && id in Listed(t) && Listed(t)[id] == (wp.path, Count(t, wp.path))
      && existed && t'.subscriptions == t.subscriptions - {id}
      && Count(t', wp.path) == Count(t, wp.path) - 1
      && forall p :: p != wp.path ==>
           Count(t', p) == Count(t, p) && (p in t'.registered <==> p in t.registered) && (p in t'.osWatched <==> p in t.osWatched)
  {
    EmptyInv();
    RunKeepsInv(Empty(), {}, {}, before);
    var t0, lost, unseen := Run(Empty(), before), LostIn(Empty(), {}, before), UnseenIn(Empty(), {}, before);
    var e := Subscribe(wp, osOk);
    var (t1, got) := SubscribeTo(t0, wp, osOk);
    StepKeepsInv(t0, lost, unseen, e);
    NewlySubscribed(t0, lost, unseen, wp, osOk);
    hide Inv, Step, SubscribeTo, UnsubscribeFrom, Run, Lost, LostIn, Unseen, UnseenIn;
    StaysSubscribed(t1, later, got.value);
    RunKeepsInv(t1, Lost(t0, lost, e), Unseen(t0, unseen, e), later);
    var t := Run(t1, later);
    LivePathIsCounted(t, LostIn(t1, Lost(t0, lost, e), later), UnseenIn(t1, Unseen(t0, unseen, e), later), got.value);
    Unsubscribed(t, got.value);
  }

  lemma LivePathIsCounted(t: Table, lost: set<Path>, unseen: set<Path>, id: int)
    requires Inv(t, lost, unseen) && id in t.subscriptions
    ensures Count(t, t.subscriptions[id]) > 0
  {
    var path := t.subscriptions[id];
    assert PathInv(t, lost, unseen, path);
    assert id in Ids(t.subscriptions, path);
  }

  /** An unsubscribe answers whether the subscription was live, and changes nothing if it
      was not. */
  lemma UnsubscribeAnswers(t: Table, id: int)
    ensures var (t', existed) := UnsubscribeFrom(t, id);
      && (existed <==> id in Listed(t))
      && (id in Listed(t) ==> Listed(t').Keys == Listed(t).Keys - {id})
      && (id !in Listed(t) ==> t' == t)
  {
  }

  /** What is registered for a path is what the subscriber that got it registered asked
      for, and stays so until the path is dropped. */
  lemma RegisteredAsAskedFor(t: Table, e: Event, p: Path)
    requires p in Step(t, e).registered
    ensures var now := Step(t, e).registered[p];
      (e.Subscribe? && e.wp.path == p && Count(t, p) == 0 && now == e.wp) || (p in t.registered && now == t.registered[p])
  {
  }

  /** An id handed out is never handed out again. */
  lemma {:induction false} IdsAreNeverReused(t: Table, events: seq<Event>, id: int)
    requires id < t.nextId
    ensures id < Run(t, events).nextId
    ensures forall wp, osOk :: SubscribeTo(Run(t, events), wp, osOk).1 != Some(id)
    decreases |events|
  {
    if events != [] {
      IdsAreNeverReused(Step(t, events[0]), events[1..], id);
    }
  }
}
