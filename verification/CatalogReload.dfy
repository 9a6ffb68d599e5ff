/** Persist and reload as a projection: what one cycle does to a catalog, that a
    second cycle does nothing, and which catalogs come back as they were. */
module CatalogReload {
  import opened Text
  import opened CatalogShard

  /** A catalog after one cycle, subsystem by subsystem. */
  function NormSub(c: Codec, sub: Subsystem, m: map<string, string>): map<string, string> {
    match sub
    case Strings(_) => ReEncoded(c, m)
    case Zstyle => ReEncoded(c, m)
    case Setopt => map k | k in m :: if TurnsOn(c, m[k]) then "\"on\"" else "\"off\""
    case Zmodload => map k | k in m :: "\"loaded\""
    case Dirs(_) => Numbered(c, Placed(c, Listing(m)))
    case Other(_) => m
  }

  /** The rows of a directory list: keys 0, 1, 2, … */
  function Numbered(c: Codec, dirs: seq<string>): map<string, string> {
    PushAll(map[], Indexed(c, dirs))
  }

  // ----- filling a map from a list of pairs -----

  predicate DistinctKeys(pairs: Pairs) {
    forall i, j :: 0 <= i < j < |pairs| ==> pairs[i].0 != pairs[j].0
  }

  predicate Mentions(rows: Pairs, key: string) {
    exists i :: 0 <= i < |rows| && rows[i].0 == key
  }

  lemma MentionsSnoc(rows: Pairs, row: (string, string), key: string)
    ensures Mentions(rows + [row], key) <==> Mentions(rows, key) || row.0 == key
  {
    var all := rows + [row];
    assert forall i :: 0 <= i < |rows| ==> all[i] == rows[i];
    assert all[|rows|] == row;
  }

  lemma {:induction false} PushAllKeys(m: map<string, string>, pairs: Pairs, k: string)
    ensures k in PushAll(m, pairs) <==> k in m || Mentions(pairs, k)
    ensures !Mentions(pairs, k) && k in m ==> PushAll(m, pairs)[k] == m[k]
  {
    if pairs != [] {
      var n := |pairs| - 1;
      PushAllKeys(m, pairs[..n], k);
      MentionsSnoc(pairs[..n], pairs[n], k);
      assert pairs == pairs[..n] + [pairs[n]];
    }
  }

  lemma {:induction false} PushAllAt(m: map<string, string>, pairs: Pairs, i: nat)
    requires i < |pairs| && DistinctKeys(pairs)
    ensures pairs[i].0 in PushAll(m, pairs) && PushAll(m, pairs)[pairs[i].0] == pairs[i].1
  {
    var n := |pairs| - 1;
    if i < n {
      PushAllAt(m, pairs[..n], i);
    }
  }

  lemma PushAllIs(pairs: Pairs, want: map<string, string>)
    requires DistinctKeys(pairs)
    requires forall i :: 0 <= i < |pairs| ==> pairs[i].0 in want && want[pairs[i].0] == pairs[i].1
    requires forall k :: k in want <==> Mentions(pairs, k)
    ensures PushAll(map[], pairs) == want
  {
    var got := PushAll(map[], pairs);
    forall k
      ensures k in got <==> k in want
      ensures k in want ==> got[k] == want[k]
    {
      PushAllKeys(map[], pairs, k);
      if k in want {
        var i :| 0 <= i < |pairs| && pairs[i].0 == k;
        PushAllAt(map[], pairs, i);
      }
    }
  }

  lemma {:induction false} PushConstant(m: map<string, string>, keys: seq<string>, value: string, k: string)
    ensures var r := PushAll(m, Constant(keys, value));
      (k in r <==> k in m || k in keys) && (k in keys ==> r[k] == value) && (k in m && k !in keys ==> r[k] == m[k])
  {
    if keys != [] {
      var n := |keys| - 1;
      hide Constant, PushAll;
      PushConstant(m, keys[..n], value, k);
      LastConstant(m, keys, value);
      InButLast(keys, k);
    } else {
      assert Constant(keys, value) == [] && PushAll(m, []) == m;
    }
  }

  lemma InButLast(keys: seq<string>, k: string)
    requires keys != []
    ensures k in keys <==> k in keys[..|keys| - 1] || k == keys[|keys| - 1]
  {
  }

  lemma LastConstant(m: map<string, string>, keys: seq<string>, value: string)
    requires keys != []
    ensures var n := |keys| - 1;
      PushAll(m, Constant(keys, value)) == PushAll(m, Constant(keys[..n], value))[keys[n] := value]
  {
    hide Constant;
    var n := |keys| - 1;
    assert Constant(keys, value)[..n] == Constant(keys[..n], value);
  }

  // ----- one cycle -----

  lemma ListingRows(m: map<string, string>)
    ensures DistinctKeys(Listing(m))
    ensures forall i :: 0 <= i < |Listing(m)| ==> Listing(m)[i].0 in m && Listing(m)[i].1 == m[Listing(m)[i].0]
  {
    AscendingDistinct(SortedKeys(m.Keys));
  }

  lemma ListingCovers(m: map<string, string>, k: string)
    ensures k in m <==> Mentions(Listing(m), k)
  {
    var keys := SortedKeys(m.Keys);
    if k in m {
      var i :| 0 <= i < |keys| && keys[i] == k;
      assert Listing(m)[i].0 == k;
    }
    if Mentions(Listing(m), k) {
      var i :| 0 <= i < |Listing(m)| && Listing(m)[i].0 == k;
      assert keys[i] in keys;
    }
  }

  /** Listing a map, changing each value in place, and filling a map from the list. */
  lemma PushListing(m: map<string, string>, pairs: Pairs, want: map<string, string>)
    requires want.Keys == m.Keys && |pairs| == |Listing(m)|
    requires forall i :: 0 <= i < |pairs| ==>
      pairs[i].0 == Listing(m)[i].0 && pairs[i].0 in want && pairs[i].1 == want[pairs[i].0]
    ensures PushAll(map[], pairs) == want
  {
    assert DistinctKeys(pairs) by { ListingRows(m); }
    forall k
      ensures k in want <==> Mentions(pairs, k)
    {
      ListingCovers(m, k);
      SameMentions(pairs, Listing(m), k);
    }
    PushAllIs(pairs, want);
  }

  lemma SameMentions(a: Pairs, b: Pairs, k: string)
    requires |a| == |b| && forall i :: 0 <= i < |a| ==> a[i].0 == b[i].0
    ensures Mentions(a, k) <==> Mentions(b, k)
  {
    if Mentions(a, k) {
      var i :| 0 <= i < |a| && a[i].0 == k;
      assert b[i].0 == k;
    }
    if Mentions(b, k) {
      var i :| 0 <= i < |b| && b[i].0 == k;
      assert a[i].0 == k;
    }
  }

  function ReEncoded(c: Codec, m: map<string, string>): map<string, string> {
    map k | k in m :: c.encode(c.decode(m[k]))
  }

  lemma StringsContent(c: Codec, m: map<string, string>, plain: map<string, string>)
    requires plain == map k | k in m :: c.decode(m[k])
    ensures PushAll(map[], Encoded(c, Listing(plain))) == ReEncoded(c, m)
  {
    hide PushAll, Listing, Encoded;
    ListingRows(plain);
    var rows, pairs, want := Listing(plain), Encoded(c, Listing(plain)), ReEncoded(c, m);
    forall i | 0 <= i < |pairs|
      ensures pairs[i].0 == rows[i].0 && pairs[i].0 in want && pairs[i].1 == want[pairs[i].0]
    {
      assert rows[i].0 in plain;
    }
    PushListing(plain, pairs, want);
  }

  lemma StylesContent(c: Codec, m: map<string, string>)
    ensures PushAll(map[], Encoded(c, Decoded(c, Listing(m)))) == ReEncoded(c, m)
  {
    hide PushAll, Listing, Encoded, Decoded;
    ListingRows(m);
    var rows, pairs, want := Listing(m), Encoded(c, Decoded(c, Listing(m))), ReEncoded(c, m);
    forall i | 0 <= i < |pairs|
      ensures pairs[i].0 == rows[i].0 && pairs[i].0 in want && pairs[i].1 == want[pairs[i].0]
    {
      assert rows[i].0 in m && Decoded(c, rows)[i] == (rows[i].0, c.decode(rows[i].1));
    }
    PushListing(m, pairs, want);
  }

  lemma {:induction false} OptionsAre(c: Codec, rows: Pairs, on: bool, k: string, value: string)
    requires forall i :: 0 <= i < |rows| && rows[i].0 == k ==> rows[i].1 == value
    ensures k in Options(c, rows, on) <==> Mentions(rows, k) && TurnsOn(c, value) == on
  {
    if rows != [] {
      var n := |rows| - 1;
      OptionsAre(c, rows[..n], on, k, value);
      MentionsSnoc(rows[..n], rows[n], k);
      assert rows == rows[..n] + [rows[n]];
    }
  }

  lemma OptionOf(c: Codec, m: map<string, string>, on: bool, k: string)
    ensures k in Options(c, Listing(m), on) <==> k in m && TurnsOn(c, m[k]) == on
  {
    ListingRows(m);
    ListingCovers(m, k);
    OptionsAre(c, Listing(m), on, k, if k in m then m[k] else "");
  }

  lemma SetoptAt(c: Codec, m: map<string, string>, k: string)
    ensures var r := PushAll(PushAll(map[], Constant(Options(c, Listing(m), true), "\"on\"")),
                             Constant(Options(c, Listing(m), false), "\"off\""));
      (k in r <==> k in m) && (k in m ==> r[k] == if TurnsOn(c, m[k]) then "\"on\"" else "\"off\"")
  {
    var on, off := Options(c, Listing(m), true), Options(c, Listing(m), false);
    PushConstant(map[], on, "\"on\"", k);
    PushConstant(PushAll(map[], Constant(on, "\"on\"")), off, "\"off\"", k);
    OptionOf(c, m, true, k);
    OptionOf(c, m, false, k);
  }

  lemma SetoptContent(c: Codec, m: map<string, string>)
    ensures PushAll(PushAll(map[], Constant(Options(c, Listing(m), true), "\"on\"")), Constant(Options(c, Listing(m), false), "\"off\""))
         == NormSub(c, Setopt, m)
  {
    hide PushAll, Listing, Options, Constant;
    forall k {
      SetoptAt(c, m, k);
    }
  }

  lemma ModulesContent(c: Codec, m: map<string, string>)
    ensures PushAll(map[], Constant(Keys(Listing(m)), "\"loaded\"")) == NormSub(c, Zmodload, m)
  {
    hide PushAll, Listing, Constant, Keys;
    ListingRows(m);
    var rows, want := Listing(m), NormSub(c, Zmodload, m);
    var pairs := Constant(Keys(rows), "\"loaded\"");
    forall i | 0 <= i < |pairs|
      ensures pairs[i].0 == rows[i].0 && pairs[i].0 in want && pairs[i].1 == want[pairs[i].0]
    {
      assert rows[i].0 in m;
    }
    PushListing(m, pairs, want);
  }

  /** Every subsystem is filed by its kind. */
  predicate ProperNames(v: Values) {
    forall sub :: sub in v ==> Canonical(sub)
  }

  lemma StringsFieldIs(c: Codec, v: Values, s: Shard, f: Field)
    requires Typed(s) && s.strings == StringsOf(c, v)
    ensures Own(c, s, Strings(f)) == NormSub(c, Strings(f), Sub(v, Strings(f)))
  {
    hide PushAll, Listing, Encoded, ReEncoded;
    StringsContent(c, Sub(v, Strings(f)), s.strings[f]);
  }

  lemma ListsAre(c: Codec, v: Values, s: Shard, d: DirList)
    requires Typed(s) && s.dirs == DirsOf(c, v)
    ensures Own(c, s, Dirs(d)) == NormSub(c, Dirs(d), Sub(v, Dirs(d)))
  {
    hide PushAll, Listing, Indexed, Placed;
  }

  lemma OptionsAreNorm(c: Codec, v: Values, s: Shard)
    requires Typed(s) && s.setopts == Options(c, Listing(Sub(v, Setopt)), true)
    requires s.unsetopts == Options(c, Listing(Sub(v, Setopt)), false)
    ensures Own(c, s, Setopt) == NormSub(c, Setopt, Sub(v, Setopt))
  {
    hide PushAll, Listing, Options, Constant, NormSub;
    SetoptContent(c, Sub(v, Setopt));
  }

  lemma ModulesAre(c: Codec, v: Values, s: Shard)
    requires Typed(s) && s.zmodload == Keys(Listing(Sub(v, Zmodload)))
    ensures Own(c, s, Zmodload) == NormSub(c, Zmodload, Sub(v, Zmodload))
  {
    hide PushAll, Listing, Keys, Constant, NormSub;
    ModulesContent(c, Sub(v, Zmodload));
  }

  lemma StylesAre(c: Codec, v: Values, s: Shard)
    requires Typed(s) && s.zstyle == Decoded(c, Listing(Sub(v, Zstyle)))
    ensures Own(c, s, Zstyle) == NormSub(c, Zstyle, Sub(v, Zstyle))
  {
    hide PushAll, Listing, Encoded, Decoded, ReEncoded;
    StylesContent(c, Sub(v, Zstyle));
  }

  lemma OwnIsNorm(c: Codec, v: Values, sub: Subsystem)
    requires !sub.Other?
    ensures Own(c, Snapshot(c, v), sub) == NormSub(c, sub, Sub(v, sub))
  {
    hide Own, NormSub, Listing, Options, Keys, Decoded, ExtrasOf;
    var s := Snapshot(c, v);
    match sub
    case Strings(f) => StringsFieldIs(c, v, s, f);
    case Setopt => OptionsAreNorm(c, v, s);
    case Zmodload => ModulesAre(c, v, s);
    case Dirs(d) => ListsAre(c, v, s, d);
    case Zstyle => StylesAre(c, v, s);
  }

  /** A snapshot puts nothing into the catch-all that has a field. */
  lemma CatchAllIsForOthers(c: Codec, v: Values, sub: Subsystem)
    requires ProperNames(v) && Canonical(sub)
    ensures NameOf(sub) in Snapshot(c, v).extras <==> sub.Other? && sub in v && v[sub] != map[]
  {
    hide SubsystemOf, NameOf;
    ExtrasHold(v, NameOf(sub));
    OtherName(NameOf(sub));
    if sub.Other? { OtherName(sub.name); }
    assert Other(NameOf(sub)) in v ==> Canonical(Other(NameOf(sub)));
  }

  lemma OtherName(name: string)
    ensures NameOf(Other(name)) == name
  {
  }

  lemma ContentIsNorm(c: Codec, v: Values, sub: Subsystem)
    requires ProperNames(v) && Canonical(sub)
    ensures Content(c, Snapshot(c, v), sub) == NormSub(c, sub, Sub(v, sub))
  {
    hide SubsystemOf, Snapshot, Canonical;
    CatchAllIsForOthers(c, v, sub);
    if sub.Other? {
      ExtrasOfSnapshot(c, v, sub.name);
    } else {
      OwnIsNorm(c, v, sub);
    }
  }

  lemma ExtrasOfSnapshot(c: Codec, v: Values, name: string)
    ensures name in Snapshot(c, v).extras <==> Sub(v, Other(name)) != map[]
    ensures name in Snapshot(c, v).extras ==> Snapshot(c, v).extras[name] == Sub(v, Other(name))
  {
    ExtrasHold(v, name);
  }

  lemma NumberedEmpty(c: Codec, dirs: seq<string>)
    ensures Numbered(c, dirs) == map[] <==> dirs == []
  {
    if dirs != [] {
      PushAllKeys(map[], Indexed(c, dirs), IndexKey(0));
      assert Indexed(c, dirs)[0].0 == IndexKey(0);
    }
  }

  lemma PlacedEmpty(c: Codec, m: map<string, string>)
    ensures Placed(c, Listing(m)) == [] <==> m == map[]
  {
    assert Listing(m) == [] <==> |m| == 0;
  }

  lemma NormSubEmpty(c: Codec, sub: Subsystem, m: map<string, string>)
    ensures NormSub(c, sub, m) == map[] <==> m == map[]
  {
    if sub.Dirs? {
      NumberedEmpty(c, Placed(c, Listing(m)));
      PlacedEmpty(c, m);
    } else {
      EmptyByKeys(m, NormSub(c, sub, m));
    }
  }

  lemma EmptyByKeys(m: map<string, string>, w: map<string, string>)
    requires m.Keys == w.Keys
    ensures m == map[] <==> w == map[]
  {
    if m == map[] { assert w.Keys == {}; }
    if w == map[] { assert m.Keys == {}; }
  }

  lemma SubsystemListed(s: Shard, sub: Subsystem)
    ensures sub in Subsystems(s) <==> Canonical(sub) && (sub.Other? ==> sub.name in s.extras)
  {
    hide SubsystemOf, NameOf;
    FieldsAreCanonical(sub);
    forall n | n in s.extras
      ensures Canonical(SubsystemOf(n)) && (SubsystemOf(n).Other? ==> SubsystemOf(n).name == n)
    {
      SubsystemOfInjective(n);
      if SubsystemOf(n).Other? { OtherName(SubsystemOf(n).name); }
    }
    if sub.Other? {
      OtherName(sub.name);
      assert Canonical(sub) && sub.name in s.extras ==> SubsystemOf(sub.name) == sub;
    }
  }

  lemma ExtrasHold(v: Values, name: string)
    ensures name in ExtrasOf(v) <==> Other(name) in v && v[Other(name)] != map[]
    ensures name in ExtrasOf(v) ==> ExtrasOf(v)[name] == v[Other(name)]
  {
  }

  /** Persist, then reload. */
  function Reload(c: Codec, v: Values): Values {
    Ingest(c, Snapshot(c, v))
  }

  lemma IngestAt(c: Codec, s: Shard, sub: Subsystem)
    requires Typed(s)
    ensures sub in Ingest(c, s) <==> Canonical(sub) && (sub.Other? ==> sub.name in s.extras) && Content(c, s, sub) != map[]
    ensures sub in Ingest(c, s) ==> Ingest(c, s)[sub] == Content(c, s, sub)
  {
    hide Subsystems, Content, Canonical;
    SubsystemListed(s, sub);
  }

  lemma SnapshotTyped(c: Codec, v: Values)
    ensures Typed(Snapshot(c, v))
  {
  }

  lemma ReloadKeepsNames(c: Codec, v: Values)
    requires ProperNames(v)
    ensures ProperNames(Reload(c, v))
  {
    hide Canonical, Reload;
    forall sub | sub in Reload(c, v)
      ensures Canonical(sub)
    {
      ReloadAt(c, v, sub);
    }
  }

  lemma ReloadAt(c: Codec, v: Values, sub: Subsystem)
    requires ProperNames(v)
    ensures sub in Reload(c, v) <==> sub in v && v[sub] != map[]
    ensures sub in Reload(c, v) ==> Reload(c, v)[sub] == NormSub(c, sub, v[sub])
  {
    hide Content, Canonical, Ingest, Snapshot;
    SnapshotTyped(c, v);
    IngestAt(c, Snapshot(c, v), sub);
    if Canonical(sub) {
      ContentIsNorm(c, v, sub);
      NormSubEmpty(c, sub, Sub(v, sub));
      if sub.Other? { ExtrasOfSnapshot(c, v, sub.name); }
    }
  }

  lemma SameValues(a: Values, b: Values)
    requires forall sub :: (sub in a <==> sub in b) && (sub in a ==> a[sub] == b[sub])
    ensures a == b
  {
  }

  // ----- directory lists -----

  /** The row stands for one of the directories. */
  ghost predicate IsDirRow(c: Codec, row: (string, string), dirs: seq<string>) {
    exists i: nat :: i < |dirs| && row == (IndexKey(i), c.encode(dirs[i]))
  }

  lemma PushAtNumeral(target: seq<string>, j: nat, value: string)
    requires j <= USIZE_MAX
    ensures var r := PushIndexed(target, IndexKey(j), value);
      && |r| == (if |target| <= j then j + 1 else |target|) && r[j] == value
      && forall i :: 0 <= i < |target| && i != j ==> r[i] == target[i]
  {
    ParseOfDec(j, USIZE_MAX);
  }

  lemma IndexKeyInjective(i: nat, j: nat)
    ensures IndexKey(i) == IndexKey(j) ==> i == j
  {
    if IndexKey(i) == IndexKey(j) { DecInjective(i, j); }
  }

  lemma {:induction false} PlacedNumerals(c: Codec, rows: Pairs, dirs: seq<string>, at: nat)
    requires Lawful(c)
    requires |dirs| <= USIZE_MAX + 1 && at < |dirs|
    requires forall i :: 0 <= i < |rows| ==> IsDirRow(c, rows[i], dirs)
    ensures |Placed(c, rows)| <= |dirs|
    ensures Mentions(rows, IndexKey(at)) ==> at < |Placed(c, rows)| && Placed(c, rows)[at] == dirs[at]
  {
    hide PushIndexed, IndexKey;
    if rows != [] {
      var n := |rows| - 1;
      var init := rows[..n];
      PlacedNumerals(c, init, dirs, at);
      MentionsSnoc(init, rows[n], IndexKey(at));
      assert rows == init + [rows[n]];
      assert IsDirRow(c, rows[n], dirs);
      var j: nat :| j < |dirs| && rows[n] == (IndexKey(j), c.encode(dirs[j]));
      PushAtNumeral(Placed(c, init), j, dirs[j]);
      IndexKeyInjective(at, j);
    }
  }

  lemma IndexedDistinct(c: Codec, dirs: seq<string>)
    ensures DistinctKeys(Indexed(c, dirs))
  {
    var pairs := Indexed(c, dirs);
    forall i, j | 0 <= i < j < |pairs|
      ensures pairs[i].0 != pairs[j].0
    {
      if IndexKey(i) == IndexKey(j) { DecInjective(i, j); }
    }
  }

  lemma NumberedHas(c: Codec, dirs: seq<string>, i: nat)
    requires i < |dirs|
    ensures IndexKey(i) in Numbered(c, dirs) && Numbered(c, dirs)[IndexKey(i)] == c.encode(dirs[i])
  {
    IndexedDistinct(c, dirs);
    PushAllAt(map[], Indexed(c, dirs), i);
  }

  lemma NumberedOnly(c: Codec, dirs: seq<string>, k: string)
    requires k in Numbered(c, dirs)
    ensures IsDirRow(c, (k, Numbered(c, dirs)[k]), dirs)
  {
    var pairs := Indexed(c, dirs);
    PushAllKeys(map[], pairs, k);
    var i :| 0 <= i < |pairs| && pairs[i].0 == k;
    NumberedHas(c, dirs, i);
    assert pairs[i] == (k, Numbered(c, dirs)[k]);
  }

  lemma ListedIsDirRow(c: Codec, dirs: seq<string>, i: nat)
    requires i < |Listing(Numbered(c, dirs))|
    ensures IsDirRow(c, Listing(Numbered(c, dirs))[i], dirs)
  {
    var m := Numbered(c, dirs);
    ListingRows(m);
    var row := Listing(m)[i];
    NumberedOnly(c, dirs, row.0);
    assert row == (row.0, m[row.0]);
  }

  lemma ListedHas(c: Codec, dirs: seq<string>, i: nat)
    requires i < |dirs|
    ensures Mentions(Listing(Numbered(c, dirs)), IndexKey(i))
  {
    NumberedHas(c, dirs, i);
    ListingCovers(Numbered(c, dirs), IndexKey(i));
  }

  lemma PlacedBack(c: Codec, rows: Pairs, dirs: seq<string>)
    requires Lawful(c) && |dirs| <= USIZE_MAX + 1 && (dirs == [] ==> rows == [])
    requires forall i :: 0 <= i < |rows| ==> IsDirRow(c, rows[i], dirs)
    requires forall i: nat :: i < |dirs| ==> Mentions(rows, IndexKey(i))
    ensures Placed(c, rows) == dirs
  {
    forall i | 0 <= i < |dirs|
      ensures i < |Placed(c, rows)| <= |dirs| && Placed(c, rows)[i] == dirs[i]
    {
      PlacedNumerals(c, rows, dirs, i);
    }
    if dirs != [] { PlacedNumerals(c, rows, dirs, |dirs| - 1); }
  }

  // ----- rows of a list that are not positions -----

  /** Where a row of a list goes: to the position its key spells, or else to the end. */
  function PlaceOf(c: Codec, rows: Pairs, i: nat): nat
    requires i < |rows|
  {
    var idx := ParseUnsigned(rows[i].0, USIZE_MAX);
    if idx.Some? then idx.value else |Placed(c, rows[..i])|
  }

  /** Row `i` is the last that goes to `p`. */
  predicate LastAt(c: Codec, rows: Pairs, i: nat, p: nat) {
    i < |rows| && PlaceOf(c, rows, i) == p && forall j :: i < j < |rows| ==> PlaceOf(c, rows, j) != p
  }

  predicate NothingAt(c: Codec, rows: Pairs, p: nat) {
    forall i :: 0 <= i < |rows| ==> PlaceOf(c, rows, i) != p
  }

  lemma PlaceInPrefix(c: Codec, rows: Pairs, n: nat, i: nat)
    requires i < n <= |rows|
    ensures PlaceOf(c, rows[..n], i) == PlaceOf(c, rows, i)
  {
    assert rows[..n][..i] == rows[..i];
  }

  lemma PlacedNext(c: Codec, rows: Pairs)
    requires rows != []
    ensures var n := |rows| - 1;
      var before, r, at := Placed(c, rows[..n]), Placed(c, rows), PlaceOf(c, rows, n);
      && |r| == (if |before| <= at then at + 1 else |before|) && r[at] == c.decode(rows[n].1)
      && forall p :: 0 <= p < |r| && p != at ==> r[p] == if p < |before| then before[p] else ""
  {
  }

  lemma {:induction false} LastWriterWins(c: Codec, rows: Pairs, i: nat, p: nat)
    requires LastAt(c, rows, i, p)
    ensures p < |Placed(c, rows)| && Placed(c, rows)[p] == c.decode(rows[i].1)
  {
    hide Placed, PlaceOf;
    var n := |rows| - 1;
    PlacedNext(c, rows);
    if i < n {
      forall j | 0 <= j < n
        ensures PlaceOf(c, rows[..n], j) == PlaceOf(c, rows, j)
      {
        PlaceInPrefix(c, rows, n, j);
      }
      LastWriterWins(c, rows[..n], i, p);
    }
  }

  lemma {:induction false} GapsAreEmpty(c: Codec, rows: Pairs, p: nat)
    requires NothingAt(c, rows, p) && p < |Placed(c, rows)|
    ensures Placed(c, rows)[p] == ""
  {
    if rows != [] {
      hide Placed, PlaceOf;
      var n := |rows| - 1;
      PlacedNext(c, rows);
      forall j | 0 <= j < n
        ensures PlaceOf(c, rows[..n], j) == PlaceOf(c, rows, j)
      {
        PlaceInPrefix(c, rows, n, j);
      }
      if p < |Placed(c, rows[..n])| { GapsAreEmpty(c, rows[..n], p); }
    }
  }

  predicate Reaches(c: Codec, rows: Pairs, p: nat) {
    exists i :: 0 <= i < |rows| && p <= PlaceOf(c, rows, i)
  }

  lemma {:induction false} EndsBehindTheFurthest(c: Codec, rows: Pairs, p: nat)
    ensures p < |Placed(c, rows)| <==> Reaches(c, rows, p)
  {
    if rows == [] {
      assert !Reaches(c, rows, p);
    } else {
      hide Placed, PlaceOf, Reaches;
      var n := |rows| - 1;
      EndsBehindTheFurthest(c, rows[..n], p);
      PlacedNext(c, rows);
      ReachesNext(c, rows, p);
    }
  }

  lemma ReachesNext(c: Codec, rows: Pairs, p: nat)
    requires rows != []
    ensures var n := |rows| - 1; Reaches(c, rows, p) <==> Reaches(c, rows[..n], p) || p <= PlaceOf(c, rows, n)
  {
    hide PlaceOf;
    var n := |rows| - 1;
    if i :| 0 <= i < n && p <= PlaceOf(c, rows[..n], i) {
      PlaceInPrefix(c, rows, n, i);
      assert p <= PlaceOf(c, rows, i);
    }
    if i :| 0 <= i < n && p <= PlaceOf(c, rows, i) {
      PlaceInPrefix(c, rows, n, i);
      assert p <= PlaceOf(c, rows[..n], i);
    }
  }

  /** A list holds at each position what the last row that goes there says, and an
      empty string where no row goes; it ends behind the furthest. */
  lemma EachPlaceIsTheLastWritten(c: Codec, rows: Pairs, p: nat)
    ensures p < |Placed(c, rows)| <==> Reaches(c, rows, p)
    ensures p < |Placed(c, rows)| && NothingAt(c, rows, p) ==> Placed(c, rows)[p] == ""
    ensures forall i: nat :: LastAt(c, rows, i, p) ==> p < |Placed(c, rows)| && Placed(c, rows)[p] == c.decode(rows[i].1)
  {
    hide Placed, PlaceOf, LastAt, NothingAt, Reaches;
    EndsBehindTheFurthest(c, rows, p);
    if p < |Placed(c, rows)| && NothingAt(c, rows, p) { GapsAreEmpty(c, rows, p); }
    forall i: nat | LastAt(c, rows, i, p)
      ensures i < |rows| && p < |Placed(c, rows)| && Placed(c, rows)[p] == c.decode(rows[i].1)
    {
      LastWriterWins(c, rows, i, p);
      IsARow(c, rows, i, p);
    }
  }

  lemma IsARow(c: Codec, rows: Pairs, i: nat, p: nat)
    requires LastAt(c, rows, i, p)
    ensures i < |rows|
  {
  }

  /** An option comes back on exactly if it was stored as one of three spellings, and off
      otherwise; a loaded module comes back loaded. */
  lemma SwitchesComeBack(c: Codec, v: Values, k: string)
    requires ProperNames(v)
    ensures Setopt in v && k in v[Setopt] ==>
      && Setopt in Reload(c, v) && k in Reload(c, v)[Setopt]
      && Reload(c, v)[Setopt][k] == if c.decode(v[Setopt][k]) in ["on", "true", "1"] then "\"on\"" else "\"off\""
    ensures Zmodload in v && k in v[Zmodload] ==>
      Zmodload in Reload(c, v) && k in Reload(c, v)[Zmodload] && Reload(c, v)[Zmodload][k] == "\"loaded\""
  {
    hide Reload;
    ReloadAt(c, v, Setopt);
    ReloadAt(c, v, Zmodload);
  }

  /** However the rows of a list are visited ("10" comes before "2"), they go back
      to their places. */
  lemma ListRoundTrip(c: Codec, dirs: seq<string>)
    requires Lawful(c)
    requires |dirs| <= USIZE_MAX + 1
    ensures Placed(c, Listing(Numbered(c, dirs))) == dirs
  {
    var rows := Listing(Numbered(c, dirs));
    forall i | 0 <= i < |rows|
      ensures IsDirRow(c, rows[i], dirs)
    {
      ListedIsDirRow(c, dirs, i);
    }
    forall i: nat | i < |dirs|
      ensures Mentions(rows, IndexKey(i))
    {
      ListedHas(c, dirs, i);
    }
    PlacedBack(c, rows, dirs);
  }

  // ----- the main results -----

  /** Subsystems are filed by kind, and the directory lists are no longer than an
      address space can index. */
  predicate Representable(c: Codec, v: Values) {
    && ProperNames(v)
    && forall sub :: sub in v && sub.Dirs? ==> |v[sub]| <= USIZE_MAX + 1 && |Placed(c, Listing(v[sub]))| <= USIZE_MAX + 1
  }

  lemma SwitchesStay(c: Codec)
    requires Lawful(c)
    ensures TurnsOn(c, "\"on\"") && !TurnsOn(c, "\"off\"")
  {
  }

  lemma DirsIdempotent(c: Codec, dirs: seq<string>)
    requires Lawful(c) && |dirs| <= USIZE_MAX + 1
    ensures Numbered(c, Placed(c, Listing(Numbered(c, dirs)))) == Numbered(c, dirs)
  {
    ListRoundTrip(c, dirs);
  }

  lemma ReEncodeTwice(c: Codec, m: map<string, string>)
    requires Lawful(c)
    ensures ReEncoded(c, ReEncoded(c, m)) == ReEncoded(c, m)
  {
  }

  lemma NormSubIdempotent(c: Codec, sub: Subsystem, m: map<string, string>)
    requires Lawful(c)
    requires sub.Dirs? ==> |Placed(c, Listing(m))| <= USIZE_MAX + 1
    ensures NormSub(c, sub, NormSub(c, sub, m)) == NormSub(c, sub, m)
  {
    match sub
    case Strings(_) => ReEncodeTwice(c, m);
    case Zstyle => ReEncodeTwice(c, m);
    case Setopt => SwitchesStay(c);
    case Zmodload =>
    case Dirs(_) => DirsIdempotent(c, Placed(c, Listing(m)));
    case Other(_) =>
  }

  lemma SecondCycleAt(c: Codec, v: Values, sub: Subsystem)
    requires Lawful(c) && Representable(c, v)
    ensures sub in Reload(c, Reload(c, v)) <==> sub in Reload(c, v)
    ensures sub in Reload(c, v) ==> Reload(c, Reload(c, v))[sub] == Reload(c, v)[sub]
  {
    hide Reload, NormSub, Canonical;
    ReloadKeepsNames(c, v);
    ReloadAt(c, v, sub);
    ReloadAt(c, Reload(c, v), sub);
    if sub in Reload(c, v) {
      NormSubIdempotent(c, sub, v[sub]);
      NormSubEmpty(c, sub, v[sub]);
    }
  }

  /** A second cycle changes nothing. */
  lemma ReloadIsIdempotent(c: Codec, v: Values)
    requires Lawful(c) && Representable(c, v)
    ensures Reload(c, Reload(c, v)) == Reload(c, v)
  {
    forall sub {
      SecondCycleAt(c, v, sub);
    }
    SameValues(Reload(c, Reload(c, v)), Reload(c, v));
  }

  predicate IsEncoded(c: Codec, value: string) {
    value == c.encode(c.decode(value))
  }

  /** Keyed 0..n-1. */
  ghost predicate IsList(c: Codec, m: map<string, string>) {
    && (forall k :: k in m ==> IsEncoded(c, m[k]) && IsIndexBelow(k, |m|))
    && HasIndices(m, |m|)
  }

  ghost predicate HasIndices(m: map<string, string>, n: nat) {
    forall i: nat :: i < n ==> IndexKey(i) in m
  }

  ghost predicate IsIndexBelow(k: string, n: nat) {
    exists i: nat :: i < n && k == IndexKey(i)
  }

  /** Already in the form a reload produces. */
  ghost predicate NormalSub(c: Codec, sub: Subsystem, m: map<string, string>) {
    match sub
    case Strings(_) => forall k :: k in m ==> IsEncoded(c, m[k])
    case Zstyle => forall k :: k in m ==> IsEncoded(c, m[k])
    case Setopt => forall k :: k in m ==> m[k] == "\"on\"" || m[k] == "\"off\""
    case Zmodload => forall k :: k in m ==> m[k] == "\"loaded\""
    case Dirs(_) => IsList(c, m)
    case Other(_) => true
  }

  ghost predicate Normal(c: Codec, v: Values) {
    forall sub :: sub in v ==> v[sub] != map[] && NormalSub(c, sub, v[sub])
  }

  lemma {:induction false} NumberedSize(c: Codec, dirs: seq<string>)
    ensures |Numbered(c, dirs)| == |dirs|
  {
    if dirs != [] {
      var n := |dirs| - 1;
      var init := Numbered(c, dirs[..n]);
      NumberedSize(c, dirs[..n]);
      assert Indexed(c, dirs)[..n] == Indexed(c, dirs[..n]);
      if IndexKey(n) in init {
        NumberedOnly(c, dirs[..n], IndexKey(n));
        var i: nat :| i < n && (IndexKey(n), init[IndexKey(n)]) == (IndexKey(i), c.encode(dirs[..n][i]));
        DecInjective(n, i);
      }
      assert Numbered(c, dirs) == init[IndexKey(n) := c.encode(dirs[n])];
    }
  }

  function DirsIn(c: Codec, m: map<string, string>, n: nat): (dirs: seq<string>)
    requires HasIndices(m, n)
    ensures |dirs| == n && forall i :: 0 <= i < n ==> IndexKey(i) in m && dirs[i] == c.decode(m[IndexKey(i)])
  {
    if n == 0 then [] else DirsIn(c, m, n - 1) + [c.decode(m[IndexKey(n - 1)])]
  }

  lemma ListIsNumbered(c: Codec, m: map<string, string>)
    requires IsList(c, m)
    ensures m == Numbered(c, DirsIn(c, m, |m|))
  {
    hide Numbered, IndexKey;
    var dirs := DirsIn(c, m, |m|);
    var w := Numbered(c, dirs);
    forall k
      ensures k in m ==> k in w && w[k] == m[k]
      ensures k in w ==> k in m
    {
      if k in m {
        var i: nat :| i < |m| && k == IndexKey(i);
        NumberedHas(c, dirs, i);
        assert IsEncoded(c, m[k]);
      }
      if k in w {
        NumberedOnly(c, dirs, k);
        var i: nat :| i < |dirs| && (k, w[k]) == (IndexKey(i), c.encode(dirs[i]));
      }
    }
  }

  lemma NumberedIsList(c: Codec, dirs: seq<string>)
    requires Lawful(c)
    ensures IsList(c, Numbered(c, dirs))
  {
    var m := Numbered(c, dirs);
    NumberedSize(c, dirs);
    forall k | k in m
      ensures IsEncoded(c, m[k]) && IsIndexBelow(k, |m|)
    {
      NumberedOnly(c, dirs, k);
      var i: nat :| i < |dirs| && (k, m[k]) == (IndexKey(i), c.encode(dirs[i]));
    }
    forall i: nat | i < |m|
      ensures IndexKey(i) in m
    {
      NumberedHas(c, dirs, i);
    }
  }

  lemma DirsFixed(c: Codec, m: map<string, string>)
    requires Lawful(c) && |m| <= USIZE_MAX + 1
    ensures Numbered(c, Placed(c, Listing(m))) == m <==> IsList(c, m)
  {
    if Numbered(c, Placed(c, Listing(m))) == m {
      NumberedIsList(c, Placed(c, Listing(m)));
    }
    if IsList(c, m) {
      ListIsNumbered(c, m);
      ListRoundTrip(c, DirsIn(c, m, |m|));
    }
  }

  lemma NormSubFixes(c: Codec, sub: Subsystem, m: map<string, string>)
    requires Lawful(c)
    requires sub.Dirs? ==> |m| <= USIZE_MAX + 1
    ensures NormSub(c, sub, m) == m <==> NormalSub(c, sub, m)
  {
    if sub.Dirs? {
      DirsFixed(c, m);
    } else {
      if sub.Setopt? { SwitchesStay(c); }
      FixedPointwise(m, NormSub(c, sub, m));
    }
  }

  lemma FixedPointwise(m: map<string, string>, w: map<string, string>)
    requires w.Keys == m.Keys
    ensures w == m <==> forall k :: k in m ==> w[k] == m[k]
  {
  }

  /** The reloaded catalog `w` keeps this subsystem of `v` as it was exactly when it
      is normal. */
  ghost predicate KeptExactly(c: Codec, v: Values, w: Values, sub: Subsystem) {
    && (sub in w ==> sub in v)
    && (sub in v ==> (sub in w && w[sub] == v[sub] <==> v[sub] != map[] && NormalSub(c, sub, v[sub])))
  }

  lemma KeptAt(c: Codec, v: Values, sub: Subsystem)
    requires Lawful(c) && Representable(c, v)
    ensures KeptExactly(c, v, Reload(c, v), sub)
  {
    ReloadAt(c, v, sub);
    if sub in v { NormSubFixes(c, sub, v[sub]); }
  }

  lemma AllKept(c: Codec, v: Values, w: Values)
    requires forall sub :: KeptExactly(c, v, w, sub)
    ensures w == v <==> Normal(c, v)
  {
    if Normal(c, v) {
      forall sub
        ensures (sub in w <==> sub in v) && (sub in w ==> w[sub] == v[sub])
      {
        assert KeptExactly(c, v, w, sub);
      }
      SameValues(w, v);
    }
    if w == v {
      forall sub | sub in v
        ensures v[sub] != map[] && NormalSub(c, sub, v[sub])
      {
        assert KeptExactly(c, v, w, sub);
      }
    }
  }

  /** A catalog comes back from a reload as it was exactly when it is already
      normal. */
  lemma ReloadKeepsExactlyNormalCatalogs(c: Codec, v: Values)
    requires Lawful(c) && Representable(c, v)
    ensures Normal(c, v) <==> Reload(c, v) == v
  {
    var w := Reload(c, v);
    forall sub
      ensures KeptExactly(c, v, w, sub)
    {
      KeptAt(c, v, sub);
    }
    AllKept(c, v, w);
  }

  /** Both results for the encoding the engine uses. */
  lemma JsonReload(v: Values)
    requires Representable(JSON, v)
    ensures Normal(JSON, v) <==> Reload(JSON, v) == v
    ensures Reload(JSON, Reload(JSON, v)) == Reload(JSON, v)
  {
    JsonIsLawful();
    ReloadIsIdempotent(JSON, v);
    ReloadKeepsExactlyNormalCatalogs(JSON, v);
  }
}
