/** Persisting the catalog: flattening it to a typed shard and reading it back. Only
    storage keys and values reach the shard. */
module CatalogShard {
  import opened Text
  import opened JsonText

  /** The string maps the shard has a field for. */
  datatype Field = Alias | Galias | Salias | Function | FunctionAutoload | Bindkey | NamedDir | Compdef | Env | Params

  /** The directory lists the shard has a field for. */
  datatype DirList = Path | Fpath | Manpath

  /** A subsystem, told apart by how the shard keeps it. */
  datatype Subsystem = Strings(field: Field) | Dirs(list: DirList) | Setopt | Zmodload | Zstyle | Other(name: string)

  function SubsystemOf(name: string): Subsystem {
    match name
    case "alias" => Strings(Alias)
    case "galias" => Strings(Galias)
    case "salias" => Strings(Salias)
    case "function" => Strings(Function)
    case "function_autoload" => Strings(FunctionAutoload)
    case "bindkey" => Strings(Bindkey)
    case "named_dir" => Strings(NamedDir)
    case "compdef" => Strings(Compdef)
    case "env" => Strings(Env)
    case "params" => Strings(Params)
    case "setopt" => Setopt
    case "zmodload" => Zmodload
    case "path" => Dirs(Path)
    case "fpath" => Dirs(Fpath)
    case "manpath" => Dirs(Manpath)
    case "zstyle" => Zstyle
    case other => Other(other)
  }

  function NameOf(sub: Subsystem): string {
    match sub
    case Strings(Alias) => "alias"
    case Strings(Galias) => "galias"
    case Strings(Salias) => "salias"
    case Strings(Function) => "function"
    case Strings(FunctionAutoload) => "function_autoload"
    case Strings(Bindkey) => "bindkey"
    case Strings(NamedDir) => "named_dir"
    case Strings(Compdef) => "compdef"
    case Strings(Env) => "env"
    case Strings(Params) => "params"
    case Setopt => "setopt"
    case Zmodload => "zmodload"
    case Dirs(Path) => "path"
    case Dirs(Fpath) => "fpath"
    case Dirs(Manpath) => "manpath"
    case Zstyle => "zstyle"
    case Other(name) => name
  }

  /** Which field of the shard keeps which subsystem. */
  lemma FieldsByName()
    ensures SubsystemOf("alias") == Strings(Alias) && SubsystemOf("galias") == Strings(Galias)
    ensures SubsystemOf("salias") == Strings(Salias) && SubsystemOf("function") == Strings(Function)
    ensures SubsystemOf("function_autoload") == Strings(FunctionAutoload) && SubsystemOf("bindkey") == Strings(Bindkey)
    ensures SubsystemOf("named_dir") == Strings(NamedDir) && SubsystemOf("compdef") == Strings(Compdef)
    ensures SubsystemOf("env") == Strings(Env) && SubsystemOf("params") == Strings(Params)
    ensures SubsystemOf("setopt") == Setopt && SubsystemOf("zmodload") == Zmodload && SubsystemOf("zstyle") == Zstyle
    ensures SubsystemOf("path") == Dirs(Path) && SubsystemOf("fpath") == Dirs(Fpath) && SubsystemOf("manpath") == Dirs(Manpath)
  {
  }

  /** Telling subsystems apart by kind confuses no two names. */
  lemma SubsystemOfInjective(name: string)
    ensures NameOf(SubsystemOf(name)) == name
  {
  }

  /** `Other` is for names the shard has no field for. */
  predicate Canonical(sub: Subsystem) {
    SubsystemOf(NameOf(sub)) == sub
  }

  lemma FieldsAreCanonical(sub: Subsystem)
    ensures !sub.Other? ==> Canonical(sub)
  {
    match sub
    case Strings(f) => StringsCanonical(f);
    case Dirs(d) =>
    case _ =>
  }

  lemma StringsCanonical(f: Field)
    ensures Canonical(Strings(f))
  {
    match f
    case Alias =>
    case Galias =>
    case Salias =>
    case Function =>
    case FunctionAutoload =>
    case Bindkey =>
    case NamedDir =>
    case Compdef =>
    case Env =>
    case Params =>
  }

  /** Subsystem to storage key to JSON-encoded value. */
  type Values = map<Subsystem, map<string, string>>

  const USIZE_MAX: nat := 0xFFFF_FFFF_FFFF_FFFF

  datatype Shard = Shard(
    strings: map<Field, map<string, string>>,
    setopts: seq<string>, unsetopts: seq<string>, zmodload: seq<string>,
    dirs: map<DirList, seq<string>>,
    zstyle: seq<(string, string)>,
    extras: map<string, map<string, string>>)

  function Sub(v: Values, sub: Subsystem): map<string, string> {
    if sub in v then v[sub] else map[]
  }

  /** How values are encoded: `json_string` and `unjson`. The shard only relies on
      what they undo of each other. */
  datatype Codec = Codec(encode: string -> string, decode: string -> string)

  const JSON := Codec(JsonString, Unjson)

  ghost predicate Lawful(c: Codec) {
    && (forall s :: c.decode(c.encode(s)) == s)
    && c.decode("\"on\"") == "on" && c.decode("\"off\"") == "off"
  }

  lemma JsonSwitches()
    ensures Unjson("\"on\"") == "on" && Unjson("\"off\"") == "off"
  {
    StringRoundTrip("on");
    StringRoundTrip("off");
    assert JsonString("on") == "\"on\"" && JsonString("off") == "\"off\"";
  }

  lemma JsonIsLawful()
    ensures Lawful(JSON)
  {
    forall s
      ensures JSON.decode(JSON.encode(s)) == s
    {
      StringRoundTrip(s);
    }
    JsonSwitches();
  }

  predicate TurnsOn(c: Codec, value: string) {
    var plain := c.decode(value);
    plain == "on" || plain == "true" || plain == "1"
  }

  function Padded(target: seq<string>, n: nat): (r: seq<string>)
    ensures |r| == if |target| < n then n else |target|
    ensures r[..|target|] == target
    ensures forall i :: |target| <= i < |r| ==> r[i] == ""
    decreases n - |target|
  {
    if |target| >= n then target else Padded(target + [""], n)
  }

  /** `push_indexed`: a numeric key is a position, gaps filled with empty strings;
      any other key goes to the end. */
  function PushIndexed(target: seq<string>, key: string, value: string): seq<string> {
    var idx := ParseUnsigned(key, USIZE_MAX);
    if idx.Some? then Padded(target, idx.value + 1)[idx.value := value] else target + [value]
  }

  // ----- the shard of a catalog -----

  type Pairs = seq<(string, string)>

  function RowsAt(m: map<string, string>, keys: seq<string>): (pairs: Pairs)
    requires forall k :: k in keys ==> k in m
    ensures |pairs| == |keys|
    ensures forall i :: 0 <= i < |keys| ==> keys[i] in m && pairs[i] == (keys[i], m[keys[i]])
  {
    if keys == [] then [] else [(keys[0], m[keys[0]])] + RowsAt(m, keys[1..])
  }

  /** A subsystem's rows in the order the ordered map visits them. */
  function Listing(m: map<string, string>): (pairs: Pairs)
    ensures |pairs| == |m|
  {
    RowsAt(m, SortedKeys(m.Keys))
  }

  function Placed(c: Codec, rows: Pairs): seq<string> {
    if rows == [] then []
    else
      var n := |rows| - 1;
      PushIndexed(Placed(c, rows[..n]), rows[n].0, c.decode(rows[n].1))
  }

  function Options(c: Codec, rows: Pairs, on: bool): seq<string> {
    if rows == [] then []
    else
      var n := |rows| - 1;
      if TurnsOn(c, rows[n].1) == on then Options(c, rows[..n], on) + [rows[n].0] else Options(c, rows[..n], on)
  }

  function Keys(rows: Pairs): (keys: seq<string>)
    ensures |keys| == |rows| && forall i :: 0 <= i < |rows| ==> keys[i] == rows[i].0
  {
    if rows == [] then [] else [rows[0].0] + Keys(rows[1..])
  }

  function Decoded(c: Codec, rows: Pairs): (r: Pairs)
    ensures |r| == |rows| && forall i :: 0 <= i < |rows| ==> r[i] == (rows[i].0, c.decode(rows[i].1))
  {
    if rows == [] then [] else [(rows[0].0, c.decode(rows[0].1))] + Decoded(c, rows[1..])
  }

  function StringsOf(c: Codec, v: Values): map<Field, map<string, string>> {
    map f: Field | true :: map k | k in Sub(v, Strings(f)) :: c.decode(Sub(v, Strings(f))[k])
  }

  function DirsOf(c: Codec, v: Values): map<DirList, seq<string>> {
    map d: DirList | true :: Placed(c, Listing(Sub(v, Dirs(d))))
  }

  function ExtrasOf(v: Values): map<string, map<string, string>> {
    map sub | sub in v && sub.Other? && v[sub] != map[] :: sub.name := v[sub]
  }

  function Snapshot(c: Codec, v: Values): Shard {
    var opts := Listing(Sub(v, Setopt));
    Shard(StringsOf(c, v), Options(c, opts, true), Options(c, opts, false), Keys(Listing(Sub(v, Zmodload))),
          DirsOf(c, v), Decoded(c, Listing(Sub(v, Zstyle))), ExtrasOf(v))
  }

  predicate Typed(shard: Shard) {
    (forall f: Field :: f in shard.strings) && forall d: DirList :: d in shard.dirs
  }

  // ----- the catalog of a shard -----

  function Encoded(c: Codec, rows: Pairs): (r: Pairs)
    ensures |r| == |rows| && forall i :: 0 <= i < |rows| ==> r[i] == (rows[i].0, c.encode(rows[i].1))
  {
    if rows == [] then [] else [(rows[0].0, c.encode(rows[0].1))] + Encoded(c, rows[1..])
  }

  function Constant(keys: seq<string>, value: string): (r: Pairs)
    ensures |r| == |keys| && forall i :: 0 <= i < |keys| ==> r[i] == (keys[i], value)
  {
    if keys == [] then [] else [(keys[0], value)] + Constant(keys[1..], value)
  }

  /** The key of the i-th row of a directory list. */
  function IndexKey(i: nat): string {
    ToDec(i)
  }

  function Indexed(c: Codec, dirs: seq<string>): (r: Pairs)
    ensures |r| == |dirs| && forall i :: 0 <= i < |dirs| ==> r[i] == (IndexKey(i), c.encode(dirs[i]))
  {
    if dirs == [] then []
    else
      var n := |dirs| - 1;
      Indexed(c, dirs[..n]) + [(IndexKey(n), c.encode(dirs[n]))]
  }

  function PushAll(m: map<string, string>, pairs: Pairs): map<string, string> {
    if pairs == [] then m
    else
      var n := |pairs| - 1;
      PushAll(m, pairs[..n])[pairs[n].0 := pairs[n].1]
  }

  /** What the shard's own fields leave in one subsystem. The shard's maps are listed
      by key here; their keys being distinct, the order makes no difference. */
  function Own(c: Codec, s: Shard, sub: Subsystem): map<string, string>
    requires Typed(s)
  {
    match sub
    case Strings(f) => PushAll(map[], Encoded(c, Listing(s.strings[f])))
    case Setopt => PushAll(PushAll(map[], Constant(s.setopts, "\"on\"")), Constant(s.unsetopts, "\"off\""))
    case Zmodload => PushAll(map[], Constant(s.zmodload, "\"loaded\""))
    case Dirs(d) => PushAll(map[], Indexed(c, s.dirs[d]))
    case Zstyle => PushAll(map[], Encoded(c, s.zstyle))
    case Other(name) => map[]
  }

  /** What reading the shard leaves in one subsystem: entries of the catch-all filed
      under its name come last, and win, even where the name has a field. */
  function Content(c: Codec, s: Shard, sub: Subsystem): map<string, string>
    requires Typed(s)
  {
    if NameOf(sub) in s.extras then Own(c, s, sub) + s.extras[NameOf(sub)] else Own(c, s, sub)
  }

  /** The subsystems a shard has something to say about. */
  function Subsystems(s: Shard): set<Subsystem> {
    (set f: Field | true :: Strings(f)) + (set d: DirList | true :: Dirs(d)) + {Setopt, Zmodload, Zstyle}
      + set n | n in s.extras :: SubsystemOf(n)
  }

  function Ingest(c: Codec, s: Shard): Values
    requires Typed(s)
  {
    map sub | sub in Subsystems(s) && Content(c, s, sub) != map[] :: Content(c, s, sub)
  }
}
