/** The file watcher's subscription table: one operating-system watch per path,
    shared by refcount among the subscriptions to that path. */
module Watch {
  import opened Text

  datatype WatchKind = Generic | ZshrcSource | FpathDir

  /** A canonical absolute path. */
  datatype Path = Path(text: string)

  datatype WatchedPath = WatchedPath(path: Path, shardSlug: string, sourceRoot: string, kind: WatchKind)

  /** The watcher's fields, the set of paths the operating system watches, and (for
      stating what holds) how many watches have been asked for since the start. */
  datatype Table = Table(
    running: bool,
    registered: map<Path, WatchedPath>,
    subRefcount: map<Path, int>,
    subscriptions: map<int, Path>,
    nextId: int,
    watchedPathCount: int,
    osWatched: set<Path>)

  function Empty(): Table {
    Table(false, map[], map[], map[], 1, 0, {})
  }

  /** Path arguments are already canonical. `osOk` is the operating system's answer
      if it is asked to watch the path, `ok` whether a new watcher could be made. */
  datatype Event =
    | Start(ok: bool)
    | Subscribe(wp: WatchedPath, osOk: bool)
    | Unsubscribe(id: int)

  function Count(t: Table, path: Path): int {
    if path in t.subRefcount then t.subRefcount[path] else 0
  }

  /** The new table and the subscription id, none when the watch call failed. */
  function SubscribeTo(t: Table, wp: WatchedPath, osOk: bool): (Table, Option<int>) {
    var n := Count(t, wp.path) + 1;
    var counts := t.subRefcount[wp.path := n];
    if n == 1 && t.running && !osOk then
      (Table(t.running, t.registered, counts, t.subscriptions, t.nextId, t.watchedPathCount, t.osWatched), None)
    else
      var registered := if n == 1 then t.registered[wp.path := wp] else t.registered;
      var osWatched := if n == 1 && t.running then t.osWatched + {wp.path} else t.osWatched;
      (Table(t.running, registered, counts, t.subscriptions[t.nextId := wp.path], t.nextId + 1, |registered|, osWatched),
       Some(t.nextId))
  }

  function UnsubscribeFrom(t: Table, id: int): (Table, bool) {
    if id !in t.subscriptions then (t, false)
    else
      var path := t.subscriptions[id];
      var subscriptions := t.subscriptions - {id};
      var left := if Count(t, path) > 0 then Count(t, path) - 1 else 0;
      if left > 0 then
        (Table(t.running, t.registered, t.subRefcount[path := left], subscriptions, t.nextId, t.watchedPathCount, t.osWatched), true)
      else
        (Table(t.running, t.registered - {path}, t.subRefcount - {path}, subscriptions, t.nextId,
               |t.registered - {path}|, if t.running then t.osWatched - {path} else t.osWatched), true)
  }

  /** Every live subscription with its path and that path's refcount. */
  function Listed(t: Table): map<int, (Path, int)> {
    map id | id in t.subscriptions :: (t.subscriptions[id], Count(t, t.subscriptions[id]))
  }

  /** A start replaces the operating system's watcher, and with it all it watched. */
  function StartOver(t: Table, ok: bool): Table {
    if ok then t.(running := true, osWatched := {}) else t
  }

  function Step(t: Table, e: Event): Table {
    match e
    case Start(ok) => StartOver(t, ok)
    case Subscribe(wp, osOk) => SubscribeTo(t, wp, osOk).0
    case Unsubscribe(id) => UnsubscribeFrom(t, id).0
  }

  function Run(t: Table, events: seq<Event>): Table
    decreases |events|
  {
    if events == [] then t else Run(Step(t, events[0]), events[1..])
  }

  class FsWatcher {
    var running: bool
    var registered: map<Path, WatchedPath>
    var subRefcount: map<Path, int>
    var subscriptions: map<int, Path>
    var nextSubscriptionId: int
    var watchedPathCount: int
    var osWatched: set<Path>

    constructor ()
      ensures State() == Empty()
    {
      running, registered, subRefcount, subscriptions := false, map[], map[], map[];
      nextSubscriptionId, watchedPathCount, osWatched := 1, 0, {};
    }

    function State(): Table
      reads this
    {
      Table(running, registered, subRefcount, subscriptions, nextSubscriptionId, watchedPathCount, osWatched)
    }

    method StartWatching(ok: bool) returns (started: bool)
      modifies this
      ensures State() == StartOver(old(State()), ok) && started == ok
    {
      if !ok { return false; }
      running, osWatched := true, {};
      return true;
    }

    method SubscribePath(wp: WatchedPath, osOk: bool) returns (id: Option<int>)
      modifies this
      ensures (State(), id) == SubscribeTo(old(State()), wp, osOk)
    {
      var count := if wp.path in subRefcount then subRefcount[wp.path] else 0;
      count := count + 1;
      subRefcount := subRefcount[wp.path := count];
      if count == 1 {
        if running {
          if !osOk { return None; }
          osWatched := osWatched + {wp.path};
        }
        registered := registered[wp.path := wp];
      }
      var subId := nextSubscriptionId;
      nextSubscriptionId := nextSubscriptionId + 1;
      subscriptions := subscriptions[subId := wp.path];
      watchedPathCount := |registered|;
      return Some(subId);
    }

    method UnsubscribeId(id: int) returns (existed: bool)
      modifies this
      ensures State() == UnsubscribeFrom(old(State()), id).0
      ensures existed == UnsubscribeFrom(old(State()), id).1
    {
      if id !in subscriptions { return false; }
      var path := subscriptions[id];
      subscriptions := subscriptions - {id};
      var count := if path in subRefcount && subRefcount[path] > 0 then subRefcount[path] - 1 else 0;
      if count > 0 {
        subRefcount := subRefcount[path := count];
      } else {
        subRefcount := subRefcount - {path};
        if running { osWatched := osWatched - {path}; }
        registered := registered - {path};
        watchedPathCount := |registered|;
      }
      return true;
    }

    function ListSubscriptions(): map<int, (Path, int)>
      reads this
    {
      Listed(State())
    }
  }
}
