/** The loops behind persisting: a shard filled row by row, and a catalog filled from
    a shard, against the shard and the catalog they are meant to produce. */
module CatalogPersist {
  import opened Text
  import opened CatalogShard
  import Reload = CatalogReload

  // ----- filling a shard -----

  method PushIndexedInto(target: seq<string>, key: string, value: string) returns (r: seq<string>)
    ensures r == PushIndexed(target, key, value)
  {
    var idx := ParseUnsigned(key, USIZE_MAX);
    r := target;
    if idx.Some? {
      while |r| <= idx.value
        invariant |r| >= |target| && Padded(r, idx.value + 1) == Padded(target, idx.value + 1)
        decreases idx.value + 1 - |r|
      {
        r := r + [""];
      }
      r := r[idx.value := value];
    } else {
      r := r + [value];
    }
  }

  function EmptyShard(): Shard {
    Shard(map f: Field | true :: NoStrings(f), [], [], [], map d: DirList | true :: NoDirs(d), [], map[])
  }

  function NoStrings(f: Field): map<string, string> { map[] }

  function NoDirs(d: DirList): seq<string> { [] }

  function AddedRow(c: Codec, s: Shard, sub: Subsystem, k: string, value: string): Shard
    requires Typed(s)
  {
    match sub
    case Strings(f) => s.(strings := s.strings[f := s.strings[f][k := c.decode(value)]])
    case Setopt => if TurnsOn(c, value) then s.(setopts := s.setopts + [k]) else s.(unsetopts := s.unsetopts + [k])
    case Zmodload => s.(zmodload := s.zmodload + [k])
    case Dirs(d) => s.(dirs := s.dirs[d := PushIndexed(s.dirs[d], k, c.decode(value))])
    case Zstyle => s.(zstyle := s.zstyle + [(k, c.decode(value))])
    case Other(name) => s.(extras := s.extras[name := (if name in s.extras then s.extras[name] else map[])[k := value]])
  }

  /** What a shard holds for one subsystem. */
  datatype Held =
    | HeldStrings(m: map<string, string>)
    | HeldOptions(on: seq<string>, off: seq<string>)
    | HeldModules(names: seq<string>)
    | HeldDirs(dirs: seq<string>)
    | HeldStyles(styles: Pairs)
    | HeldExtra(extra: Option<map<string, string>>)

  function HeldFor(s: Shard, sub: Subsystem): Held
    requires Typed(s)
  {
    match sub
    case Strings(f) => HeldStrings(s.strings[f])
    case Setopt => HeldOptions(s.setopts, s.unsetopts)
    case Zmodload => HeldModules(s.zmodload)
    case Dirs(d) => HeldDirs(s.dirs[d])
    case Zstyle => HeldStyles(s.zstyle)
    case Other(name) => HeldExtra(if name in s.extras then Some(s.extras[name]) else None)
  }

  /** What it should hold once the rows of the subsystem have been added. */
  function Expected(c: Codec, sub: Subsystem, rows: Pairs): Held {
    match sub
    case Strings(_) => HeldStrings(PushAll(map[], Decoded(c, rows)))
    case Setopt => HeldOptions(Options(c, rows, true), Options(c, rows, false))
    case Zmodload => HeldModules(Keys(rows))
    case Dirs(_) => HeldDirs(Placed(c, rows))
    case Zstyle => HeldStyles(Decoded(c, rows))
    case Other(_) => HeldExtra(if rows == [] then None else Some(PushAll(map[], rows)))
  }

  lemma KeysSnoc(rows: Pairs, k: string, value: string)
    ensures Keys(rows + [(k, value)]) == Keys(rows) + [k]
  {
  }

  lemma DecodedSnoc(c: Codec, rows: Pairs, k: string, value: string)
    ensures Decoded(c, rows + [(k, value)]) == Decoded(c, rows) + [(k, c.decode(value))]
  {
  }

  lemma OptionsSnoc(c: Codec, rows: Pairs, k: string, value: string, on: bool)
    ensures Options(c, rows + [(k, value)], on) == Options(c, rows, on) + (if TurnsOn(c, value) == on then [k] else [])
  {
    assert (rows + [(k, value)])[..|rows|] == rows;
  }

  lemma PlacedSnoc(c: Codec, rows: Pairs, k: string, value: string)
    ensures Placed(c, rows + [(k, value)]) == PushIndexed(Placed(c, rows), k, c.decode(value))
  {
    assert (rows + [(k, value)])[..|rows|] == rows;
  }

  lemma PushAllSnoc(rows: Pairs, k: string, value: string)
    ensures PushAll(map[], rows + [(k, value)]) == PushAll(map[], rows)[k := value]
  {
    assert (rows + [(k, value)])[..|rows|] == rows;
  }

  lemma ExpectedSnoc(c: Codec, s: Shard, sub: Subsystem, rows: Pairs, k: string, value: string)
    requires Typed(s) && HeldFor(s, sub) == Expected(c, sub, rows)
    ensures HeldFor(AddedRow(c, s, sub, k, value), sub) == Expected(c, sub, rows + [(k, value)])
  {
    hide PushAll, Options, Placed, Decoded, Keys, PushIndexed, TurnsOn;
    match sub
    case Strings(_) =>
      DecodedSnoc(c, rows, k, value);
      PushAllSnoc(Decoded(c, rows), k, c.decode(value));
    case Setopt =>
      OptionsSnoc(c, rows, k, value, true);
      OptionsSnoc(c, rows, k, value, false);
    case Zmodload => KeysSnoc(rows, k, value);
    case Dirs(_) => PlacedSnoc(c, rows, k, value);
    case Zstyle => DecodedSnoc(c, rows, k, value);
    case Other(_) =>
      PushAllSnoc(rows, k, value);
      NothingPushed();
  }

  lemma NothingPushed()
    ensures PushAll(map[], []) == map[]
  {
  }

  lemma OthersUntouched(c: Codec, s: Shard, sub: Subsystem, k: string, value: string, other: Subsystem)
    requires Typed(s) && other != sub
    ensures Typed(AddedRow(c, s, sub, k, value))
    ensures HeldFor(AddedRow(c, s, sub, k, value), other) == HeldFor(s, other)
  {
  }

  /** The match on the subsystem's name. */
  method AddRow(c: Codec, s: Shard, sub: Subsystem, k: string, value: string) returns (s': Shard)
    requires Typed(s)
    ensures s' == AddedRow(c, s, sub, k, value) && Typed(s')
  {
    var plain := c.decode(value);
    match sub {
      case Strings(f) => s' := s.(strings := s.strings[f := s.strings[f][k := plain]]);
      case Setopt =>
        if plain == "on" || plain == "true" || plain == "1" {
          s' := s.(setopts := s.setopts + [k]);
        } else {
          s' := s.(unsetopts := s.unsetopts + [k]);
        }
      case Zmodload => s' := s.(zmodload := s.zmodload + [k]);
      case Dirs(d) =>
        var dirs := PushIndexedInto(s.dirs[d], k, plain);
        s' := s.(dirs := s.dirs[d := dirs]);
      case Zstyle => s' := s.(zstyle := s.zstyle + [(k, plain)]);
      case Other(name) =>
        s' := s.(extras := s.extras[name := (if name in s.extras then s.extras[name] else map[])[k := value]]);
    }
  }

  /** The inner loop: one subsystem's rows, in key order. */
  method AddSubsystem(c: Codec, s: Shard, sub: Subsystem, rows: Pairs) returns (s': Shard)
    requires Typed(s) && HeldFor(s, sub) == Expected(c, sub, [])
    ensures Typed(s') && HeldFor(s', sub) == Expected(c, sub, rows)
    ensures forall other :: other != sub ==> HeldFor(s', other) == HeldFor(s, other)
  {
    hide HeldFor, Expected, AddedRow;
    s' := s;
    assert rows[..0] == [];
    for i := 0 to |rows|
      invariant Typed(s') && HeldFor(s', sub) == Expected(c, sub, rows[..i])
      invariant forall other :: other != sub ==> HeldFor(s', other) == HeldFor(s, other)
    {
      ghost var before := s';
      s' := AddRow(c, s', sub, rows[i].0, rows[i].1);
      ExpectedSnoc(c, before, sub, rows[..i], rows[i].0, rows[i].1);
      assert rows[..i + 1] == rows[..i] + [(rows[i].0, rows[i].1)];
      forall other | other != sub
        ensures HeldFor(s', other) == HeldFor(before, other)
      {
        OthersUntouched(c, before, sub, rows[i].0, rows[i].1, other);
      }
    }
    assert rows[..|rows|] == rows;
  }

  ghost predicate FilledFrom(c: Codec, s: Shard, v: Values, done: seq<Subsystem>) {
    Typed(s) && forall sub :: HeldFor(s, sub) == Expected(c, sub, if sub in done then Listing(Sub(v, sub)) else [])
  }

  /** The loop over subsystems, whatever order their names come in. */
  method SnapshotShard(c: Codec, v: Values, subs: seq<Subsystem>) returns (s: Shard)
    requires forall sub :: sub in subs <==> sub in v
    requires forall i, j :: 0 <= i < j < |subs| ==> subs[i] != subs[j]
    ensures s == Snapshot(c, v)
  {
    s := EmptyShard();
    NothingHeld(c, v);
    for i := 0 to |subs|
      invariant FilledFrom(c, s, v, subs[..i])
    {
      ghost var before := s;
      assert subs[i] !in subs[..i];
      assert subs[i] in v;
      s := AddSubsystem(c, s, subs[i], Listing(v[subs[i]]));
      FilledMore(c, before, s, v, subs, i);
    }
    assert subs[..|subs|] == subs;
    FilledIsSnapshot(c, s, v, subs);
  }

  lemma NothingHeld(c: Codec, v: Values)
    ensures FilledFrom(c, EmptyShard(), v, [])
  {
    forall sub
      ensures HeldFor(EmptyShard(), sub) == Expected(c, sub, [])
    {
    }
  }

  lemma FilledMore(c: Codec, before: Shard, after: Shard, v: Values, subs: seq<Subsystem>, i: nat)
    requires i < |subs| && subs[i] in v && FilledFrom(c, before, v, subs[..i])
    requires Typed(after) && HeldFor(after, subs[i]) == Expected(c, subs[i], Listing(v[subs[i]]))
    requires forall other :: other != subs[i] ==> HeldFor(after, other) == HeldFor(before, other)
    ensures FilledFrom(c, after, v, subs[..i + 1])
  {
    hide HeldFor, Expected, Listing, Sub;
    assert Sub(v, subs[i]) == v[subs[i]] by { SubAt(v, subs[i]); }
    forall sub
      ensures HeldFor(after, sub) == Expected(c, sub, if sub in subs[..i + 1] then Listing(Sub(v, sub)) else [])
    {
      assert subs[..i + 1] == subs[..i] + [subs[i]];
      assert HeldFor(before, sub) == Expected(c, sub, if sub in subs[..i] then Listing(Sub(v, sub)) else []);
    }
  }

  lemma SubAt(v: Values, sub: Subsystem)
    ensures Sub(v, sub) == if sub in v then v[sub] else map[]
  {
  }

  /** Listing a map and putting its pairs, each value changed by `f`, one by one. */
  lemma PushMapped(m: map<string, string>, f: string -> string, pairs: Pairs)
    requires |pairs| == |Listing(m)|
    requires forall i :: 0 <= i < |pairs| ==> pairs[i] == (Listing(m)[i].0, f(Listing(m)[i].1))
    ensures PushAll(map[], pairs) == Mapped(m, f)
  {
    hide PushAll, Listing;
    Reload.ListingRows(m);
    var want := Mapped(m, f);
    assert want.Keys == m.Keys;
    Reload.PushListing(m, pairs, want);
  }

  function Mapped(m: map<string, string>, f: string -> string): map<string, string> {
    map k | k in m :: f(m[k])
  }

  lemma PushSame(m: map<string, string>)
    ensures PushAll(map[], Listing(m)) == m
  {
    hide PushAll, Listing;
    PushMapped(m, x => x, Listing(m));
    assert Mapped(m, x => x) == m;
  }

  lemma ExtraHolds(c: Codec, v: Values, name: string)
    ensures Typed(Snapshot(c, v))
    ensures HeldFor(Snapshot(c, v), Other(name)) == Expected(c, Other(name), Listing(Sub(v, Other(name))))
  {
    hide PushAll, Listing, Snapshot, Sub;
    Reload.SnapshotTyped(c, v);
    Reload.ExtrasOfSnapshot(c, v, name);
    PushSame(Sub(v, Other(name)));
    assert |Listing(Sub(v, Other(name)))| == |Sub(v, Other(name))|;
  }

  lemma SnapshotHolds(c: Codec, v: Values, sub: Subsystem)
    ensures Typed(Snapshot(c, v)) && HeldFor(Snapshot(c, v), sub) == Expected(c, sub, Listing(Sub(v, sub)))
  {
    hide PushAll, Listing, Options, Placed, Decoded, Keys;
    match sub
    case Strings(f) => PushMapped(Sub(v, sub), c.decode, Decoded(c, Listing(Sub(v, sub))));
    case Other(name) => ExtraHolds(c, v, name);
    case _ =>
  }

  lemma SameHoldings(s: Shard, t: Shard)
    requires Typed(s) && Typed(t) && forall sub :: HeldFor(s, sub) == HeldFor(t, sub)
    ensures s == t
  {
    forall f: Field
      ensures s.strings[f] == t.strings[f]
    {
      assert HeldFor(s, Strings(f)) == HeldFor(t, Strings(f));
    }
    assert s.strings == t.strings;
    forall d: DirList
      ensures s.dirs[d] == t.dirs[d]
    {
      assert HeldFor(s, Dirs(d)) == HeldFor(t, Dirs(d));
    }
    assert s.dirs == t.dirs;
    forall name: string
      ensures (name in s.extras <==> name in t.extras) && (name in s.extras ==> s.extras[name] == t.extras[name])
    {
      assert HeldFor(s, Other(name)) == HeldFor(t, Other(name));
    }
    assert s.extras == t.extras;
    assert HeldFor(s, Setopt) == HeldFor(t, Setopt) && HeldFor(s, Zmodload) == HeldFor(t, Zmodload) && HeldFor(s, Zstyle) == HeldFor(t, Zstyle);
  }

  lemma FilledIsSnapshot(c: Codec, s: Shard, v: Values, subs: seq<Subsystem>)
    requires FilledFrom(c, s, v, subs) && forall sub :: sub in subs <==> sub in v
    ensures s == Snapshot(c, v)
  {
    hide HeldFor, Expected, Snapshot;
    SnapshotHolds(c, v, Setopt);
    forall sub
      ensures HeldFor(s, sub) == HeldFor(Snapshot(c, v), sub)
    {
      SnapshotHolds(c, v, sub);
      if sub !in v { assert Listing(Sub(v, sub)) == []; }
    }
    SameHoldings(s, Snapshot(c, v));
  }

  // ----- filling a catalog -----

  function Filled(rows: Values, sub: Subsystem, content: map<string, string>): Values {
    if content == map[] then rows else rows[sub := content]
  }

  /** `push`, for each of a list of pairs. */
  method PushPairs(rows: Values, sub: Subsystem, pairs: Pairs) returns (r: Values)
    ensures r == if pairs == [] then rows else rows[sub := PushAll(Sub(rows, sub), pairs)]
  {
    r := rows;
    for i := 0 to |pairs|
      invariant r == if i == 0 then rows else rows[sub := PushAll(Sub(rows, sub), pairs[..i])]
    {
      assert pairs[..i + 1][..i] == pairs[..i];
      var m := if sub in r then r[sub] else map[];
      r := r[sub := m[pairs[i].0 := pairs[i].1]];
    }
    assert pairs[..|pairs|] == pairs;
  }

  /** The entries put so far, and the ones still to come. */
  ghost predicate PartOf(done: map<string, string>, todo: set<string>, all: map<string, string>) {
    && todo <= all.Keys && done.Keys == all.Keys - todo
    && forall k :: k in done ==> done[k] == all[k]
  }

  /** Entries laid over what a subsystem holds. */
  function Merged(rows: Values, sub: Subsystem, more: map<string, string>): Values {
    if more == map[] then rows else rows[sub := Sub(rows, sub) + more]
  }

  /** `push`, for each entry of a map the shard keeps, visited in any order. */
  method PushMap(rows: Values, sub: Subsystem, m: map<string, string>, f: string -> string) returns (r: Values)
    ensures r == Merged(rows, sub, Mapped(m, f))
  {
    r := rows;
    var todo := m.Keys;
    ghost var done: map<string, string> := map[];
    while todo != {}
      invariant PartOf(done, todo, Mapped(m, f))
      invariant r == Merged(rows, sub, done)
      decreases todo
    {
      var k :| k in todo;
      var value := f(m[k]);
      r := r[sub := (if sub in r then r[sub] else map[])[k := value]];
      MergedOneMore(rows, sub, done, k, value);
      PartGrows(done, todo, Mapped(m, f), k);
      done := done[k := value];
      todo := todo - {k};
    }
    assert done == Mapped(m, f);
  }

  lemma MergedOneMore(rows: Values, sub: Subsystem, done: map<string, string>, k: string, value: string)
    ensures var r := Merged(rows, sub, done);
      r[sub := (if sub in r then r[sub] else map[])[k := value]] == Merged(rows, sub, done[k := value])
  {
    var r := Merged(rows, sub, done);
    assert k in done[k := value];
    assert (if sub in r then r[sub] else map[])[k := value] == Sub(rows, sub) + done[k := value];
  }

  lemma PartGrows(done: map<string, string>, todo: set<string>, all: map<string, string>, k: string)
    requires PartOf(done, todo, all) && k in todo
    ensures PartOf(done[k := all[k]], todo - {k}, all)
  {
  }

  /** The catalog holds exactly this in a subsystem. */
  predicate Holds(rows: Values, sub: Subsystem, content: map<string, string>) {
    (sub in rows <==> content != map[]) && (sub in rows ==> rows[sub] == content)
  }

  /** Some of the subsystems are filled from the shard's own fields, the others are
      absent. */
  ghost predicate Ready(c: Codec, s: Shard, rows: Values, done: set<Subsystem>)
    requires Typed(s)
  {
    forall sub :: Holds(rows, sub, if sub in done then Own(c, s, sub) else map[])
  }

  lemma ReadyMore(c: Codec, s: Shard, rows: Values, rows': Values, done: set<Subsystem>, sub: Subsystem)
    requires Typed(s) && Ready(c, s, rows, done) && sub !in done && rows' == Filled(rows, sub, Own(c, s, sub))
    ensures Ready(c, s, rows', done + {sub})
  {
    hide Own;
    forall x
      ensures Holds(rows', x, if x in done + {sub} then Own(c, s, x) else map[])
    {
      assert Holds(rows, x, if x in done then Own(c, s, x) else map[]);
    }
  }

  lemma AbsentUntilDone(c: Codec, s: Shard, rows: Values, done: set<Subsystem>, sub: Subsystem)
    requires Typed(s) && Ready(c, s, rows, done) && sub !in done
    ensures sub !in rows
  {
    assert Holds(rows, sub, map[]);
  }

  lemma MergedIntoAbsent(rows: Values, sub: Subsystem, content: map<string, string>)
    requires sub !in rows
    ensures Merged(rows, sub, content) == Filled(rows, sub, content)
  {
    assert map[] + content == content;
  }

  /** The loop over one of the string maps. */
  method IngestField(c: Codec, s: Shard, rows: Values, f: Field, ghost done: set<Subsystem>) returns (r: Values)
    requires Typed(s) && Ready(c, s, rows, done) && Strings(f) !in done
    ensures Ready(c, s, r, done + {Strings(f)})
  {
    AbsentUntilDone(c, s, rows, done, Strings(f));
    r := PushMap(rows, Strings(f), s.strings[f], c.encode);
    MergedIntoAbsent(rows, Strings(f), Mapped(s.strings[f], c.encode));
    PushMapped(s.strings[f], c.encode, Encoded(c, Listing(s.strings[f])));
    ReadyMore(c, s, rows, r, done, Strings(f));
  }

  /** The loops over the aliases and functions. */
  method IngestCode(c: Codec, s: Shard) returns (r: Values)
    requires Typed(s)
    ensures Ready(c, s, r, {Strings(Alias), Strings(Galias), Strings(Salias), Strings(Function), Strings(FunctionAutoload)})
  {
    hide Ready;
    ghost var done: set<Subsystem> := {};
    r := map[];
    NothingRead(c, s);
    r := IngestField(c, s, r, Alias, done);
    done := done + {Strings(Alias)};
    r := IngestField(c, s, r, Galias, done);
    done := done + {Strings(Galias)};
    r := IngestField(c, s, r, Salias, done);
    done := done + {Strings(Salias)};
    r := IngestField(c, s, r, Function, done);
    done := done + {Strings(Function)};
    r := IngestField(c, s, r, FunctionAutoload, done);
    done := done + {Strings(FunctionAutoload)};
    assert done == {Strings(Alias), Strings(Galias), Strings(Salias), Strings(Function), Strings(FunctionAutoload)};
  }

  /** The loops over all the string maps. */
  method IngestStrings(c: Codec, s: Shard) returns (r: Values)
    requires Typed(s)
    ensures Ready(c, s, r, AllStrings())
  {
    hide Ready;
    r := IngestCode(c, s);
    ghost var done := {Strings(Alias), Strings(Galias), Strings(Salias), Strings(Function), Strings(FunctionAutoload)};
    r := IngestField(c, s, r, Bindkey, done);
    done := done + {Strings(Bindkey)};
    r := IngestField(c, s, r, NamedDir, done);
    done := done + {Strings(NamedDir)};
    r := IngestField(c, s, r, Compdef, done);
    done := done + {Strings(Compdef)};
    r := IngestField(c, s, r, Env, done);
    done := done + {Strings(Env)};
    r := IngestField(c, s, r, Params, done);
    done := done + {Strings(Params)};
    forall f: Field
      ensures Strings(f) in done
    {
      assert f == Alias || f == Galias || f == Salias || f == Function || f == FunctionAutoload
        || f == Bindkey || f == NamedDir || f == Compdef || f == Env || f == Params;
    }
    assert done == AllStrings();
  }

  function AllStrings(): set<Subsystem> {
    set f: Field | true :: Strings(f)
  }

  lemma NothingRead(c: Codec, s: Shard)
    requires Typed(s)
    ensures Ready(c, s, map[], {})
  {
  }

  lemma {:induction false} PushAllKeeps(m: map<string, string>, pairs: Pairs)
    ensures m.Keys <= PushAll(m, pairs).Keys
    ensures pairs != [] ==> PushAll(m, pairs) != map[]
  {
    if pairs != [] {
      var n := |pairs| - 1;
      PushAllKeeps(m, pairs[..n]);
      assert pairs[n].0 in PushAll(m, pairs);
    }
  }

  /** One of the loops over a list, into a subsystem no other loop has filled. */
  method PushFresh(rows: Values, sub: Subsystem, pairs: Pairs) returns (r: Values)
    requires sub !in rows
    ensures r == Filled(rows, sub, PushAll(map[], pairs))
  {
    r := PushPairs(rows, sub, pairs);
    PushAllKeeps(map[], pairs);
  }

  /** The two loops that fill `setopt`. */
  method PushOptions(rows: Values, on: seq<string>, off: seq<string>) returns (r: Values)
    requires Setopt !in rows
    ensures r == Filled(rows, Setopt, PushAll(PushAll(map[], Constant(on, "\"on\"")), Constant(off, "\"off\"")))
  {
    var switchedOn, switchedOff := Constant(on, "\"on\""), Constant(off, "\"off\"");
    r := PushFresh(rows, Setopt, switchedOn);
    PushAllKeeps(map[], switchedOn);
    PushAllKeeps(PushAll(map[], switchedOn), switchedOff);
    r := PushPairs(r, Setopt, switchedOff);
  }

  method IngestOptions(c: Codec, s: Shard, rows: Values, ghost done: set<Subsystem>) returns (r: Values)
    requires Typed(s) && Ready(c, s, rows, done) && Setopt !in done
    ensures Ready(c, s, r, done + {Setopt})
  {
    hide PushAll;
    AbsentUntilDone(c, s, rows, done, Setopt);
    r := PushOptions(rows, s.setopts, s.unsetopts);
    ReadyMore(c, s, rows, r, done, Setopt);
  }

  method IngestModules(c: Codec, s: Shard, rows: Values, ghost done: set<Subsystem>) returns (r: Values)
    requires Typed(s) && Ready(c, s, rows, done) && Zmodload !in done
    ensures Ready(c, s, r, done + {Zmodload})
  {
    hide PushAll;
    AbsentUntilDone(c, s, rows, done, Zmodload);
    r := PushFresh(rows, Zmodload, Constant(s.zmodload, "\"loaded\""));
    ReadyMore(c, s, rows, r, done, Zmodload);
  }

  method IngestDirs(c: Codec, s: Shard, rows: Values, d: DirList, ghost done: set<Subsystem>) returns (r: Values)
    requires Typed(s) && Ready(c, s, rows, done) && Dirs(d) !in done
    ensures Ready(c, s, r, done + {Dirs(d)})
  {
    hide PushAll;
    AbsentUntilDone(c, s, rows, done, Dirs(d));
    r := PushFresh(rows, Dirs(d), Indexed(c, s.dirs[d]));
    ReadyMore(c, s, rows, r, done, Dirs(d));
  }

  method IngestStyles(c: Codec, s: Shard, rows: Values, ghost done: set<Subsystem>) returns (r: Values)
    requires Typed(s) && Ready(c, s, rows, done) && Zstyle !in done
    ensures Ready(c, s, r, done + {Zstyle})
  {
    hide PushAll;
    AbsentUntilDone(c, s, rows, done, Zstyle);
    r := PushFresh(rows, Zstyle, Encoded(c, s.zstyle));
    ReadyMore(c, s, rows, r, done, Zstyle);
  }

  /** The loops over the lists. */
  method IngestLists(c: Codec, s: Shard, rows: Values, ghost done: set<Subsystem>) returns (r: Values)
    requires Typed(s) && Ready(c, s, rows, done)
    requires done !! {Setopt, Zmodload, Dirs(Path), Dirs(Fpath), Dirs(Manpath), Zstyle}
    ensures Ready(c, s, r, done + {Setopt} + {Zmodload} + {Dirs(Path)} + {Dirs(Fpath)} + {Dirs(Manpath)} + {Zstyle})
  {
    hide Ready;
    r := IngestOptions(c, s, rows, done);
    ghost var so := done + {Setopt};
    r := IngestModules(c, s, r, so);
    so := so + {Zmodload};
    r := IngestDirs(c, s, r, Path, so);
    so := so + {Dirs(Path)};
    r := IngestDirs(c, s, r, Fpath, so);
    so := so + {Dirs(Fpath)};
    r := IngestDirs(c, s, r, Manpath, so);
    so := so + {Dirs(Manpath)};
    r := IngestStyles(c, s, r, so);
  }

  /** Own fields, and the catch-all entries of some names laid over them. */
  function UpTo(c: Codec, s: Shard, sub: Subsystem, names: set<string>): map<string, string>
    requires Typed(s) && names <= s.extras.Keys
  {
    if Canonical(sub) && NameOf(sub) in names then Own(c, s, sub) + s.extras[NameOf(sub)] else Own(c, s, sub)
  }

  ghost predicate ReadUpTo(c: Codec, s: Shard, rows: Values, names: set<string>)
    requires Typed(s) && names <= s.extras.Keys
  {
    forall sub :: Holds(rows, sub, UpTo(c, s, sub, names))
  }

  lemma ReadMore(c: Codec, s: Shard, rows: Values, names: set<string>, name: string)
    requires Typed(s) && names <= s.extras.Keys && ReadUpTo(c, s, rows, names) && name in s.extras && name !in names
    ensures ReadUpTo(c, s, Merged(rows, SubsystemOf(name), s.extras[name]), names + {name})
  {
    hide Own, SubsystemOf, NameOf;
    SubsystemOfInjective(name);
    var at := SubsystemOf(name);
    forall sub
      ensures Holds(Merged(rows, at, s.extras[name]), sub, UpTo(c, s, sub, names + {name}))
    {
      assert Holds(rows, sub, UpTo(c, s, sub, names));
      assert Own(c, s, sub) + map[] == Own(c, s, sub);
    }
  }

  /** The loop over the catch-all subsystems, values passed through as stored. */
  method IngestExtras(c: Codec, s: Shard, rows: Values) returns (r: Values)
    requires Typed(s) && ReadUpTo(c, s, rows, {})
    ensures ReadUpTo(c, s, r, s.extras.Keys)
  {
    hide ReadUpTo;
    r := rows;
    var todo, read := s.extras.Keys, {};
    while todo != {}
      invariant todo !! read && todo + read == s.extras.Keys && read <= s.extras.Keys
      invariant ReadUpTo(c, s, r, read)
      decreases todo
    {
      var name :| name in todo;
      ReadMore(c, s, r, read, name);
      r := PushMap(r, SubsystemOf(name), s.extras[name], v => v);
      assert Mapped(s.extras[name], v => v) == s.extras[name];
      todo, read := todo - {name}, read + {name};
    }
  }

  /** A catalog read from a shard holds in every subsystem what it should. */
  method IngestShardInto(c: Codec, s: Shard) returns (rows: Values)
    requires Typed(s)
    ensures rows == Ingest(c, s)
  {
    hide Ready, ReadUpTo, Ingest;
    rows := IngestStrings(c, s);
    ghost var d1 := AllStrings();
    rows := IngestLists(c, s, rows, d1);
    OwnFieldsRead(c, s, rows, d1 + {Setopt} + {Zmodload} + {Dirs(Path)} + {Dirs(Fpath)} + {Dirs(Manpath)} + {Zstyle});
    rows := IngestExtras(c, s, rows);
    EverythingRead(c, s, rows);
  }

  lemma OwnFieldsRead(c: Codec, s: Shard, rows: Values, done: set<Subsystem>)
    requires Typed(s) && Ready(c, s, rows, done)
    requires done == AllStrings() + {Setopt} + {Zmodload} + {Dirs(Path)} + {Dirs(Fpath)} + {Dirs(Manpath)} + {Zstyle}
    ensures ReadUpTo(c, s, rows, {})
  {
    hide Own, Holds, NameOf, SubsystemOf;
    forall sub
      ensures Holds(rows, sub, UpTo(c, s, sub, {}))
    {
      assert Holds(rows, sub, if sub in done then Own(c, s, sub) else map[]);
      OwnFieldOrNone(c, s, sub);
    }
  }

  /** What a shard has no field for is only in its catch-all. */
  lemma OwnFieldOrNone(c: Codec, s: Shard, sub: Subsystem)
    requires Typed(s)
    ensures sub in AllStrings() + {Setopt} + {Zmodload} + {Dirs(Path)} + {Dirs(Fpath)} + {Dirs(Manpath)} + {Zstyle}
      || Own(c, s, sub) == map[]
  {
    hide PushAll;
    if sub.Dirs? { assert sub.list == Path || sub.list == Fpath || sub.list == Manpath; }
  }

  lemma EverythingRead(c: Codec, s: Shard, rows: Values)
    requires Typed(s) && ReadUpTo(c, s, rows, s.extras.Keys)
    ensures rows == Ingest(c, s)
  {
    hide PushAll, SubsystemOf, Ingest;
    forall sub
      ensures (sub in rows <==> sub in Ingest(c, s)) && (sub in rows ==> rows[sub] == Ingest(c, s)[sub])
    {
      assert Holds(rows, sub, UpTo(c, s, sub, s.extras.Keys));
      Reload.IngestAt(c, s, sub);
      FieldsAreCanonical(sub);
    }
  }

  /** The two loops together are the cycle `CatalogReload` is about. */
  method PersistAndReload(c: Codec, v: Values, subs: seq<Subsystem>) returns (r: Values)
    requires forall sub :: sub in subs <==> sub in v
    requires forall i, j :: 0 <= i < j < |subs| ==> subs[i] != subs[j]
    ensures r == Reload.Reload(c, v)
  {
    var s := SnapshotShard(c, v, subs);
    r := IngestShardInto(c, s);
  }
}
