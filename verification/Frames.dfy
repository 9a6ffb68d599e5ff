/** The IPC envelope: frames as JSON objects, recognised on arrival by the first
    variant whose fields fit. */
module Frames {
  import opened Text

  type U32 = n: int | 0 <= n < 0x1_0000_0000
  type U64 = n: int | 0 <= n < 0x1_0000_0000_0000_0000
  type I32 = n: int | -0x8000_0000 <= n < 0x8000_0000

  /** A JSON value. An object is its fields as written, so it can repeat a name. */
  datatype Json =
    | JNull
    | JBool(flag: bool)
    | JInt(n: int)
    | JFloat(text: string)
    | JStr(s: string)
    | JArr(items: seq<Json>)
    | JObj(fields: seq<Field>)

  datatype Field = Field(name: string, value: Json)

  datatype Hello = Hello(
    version: U32, clientPid: I32, tty: Option<string>, cwd: Option<string>, argv0: Option<string>,
    shellPid: Option<I32>, shellStart: Option<U64>)

  datatype Welcome = Welcome(
    version: U32, clientId: U64, shellId: U64, sessionId: string, daemonPid: I32, daemonUptimeMs: U64)

  datatype ErrPayload = ErrPayload(code: string, msg: string)

  datatype Frame =
    | HelloFrame(hello: Hello)
    | WelcomeFrame(welcome: Welcome)
    | WelcomeErr(value: Json, err: ErrPayload)
    | Request(id: U64, op: string, args: Json)
    | Response(id: U64, ok: bool, payload: Json)
    | Event(event: string, payload: Json)

  // ----- names -----

  const HELLO := "hello"
  const WELCOME := "welcome"
  const ERR := "err"
  const ID := "id"
  const OP := "op"
  const ARGS := "args"
  const OK := "ok"
  const EVENT := "event"

  // ----- looking fields up -----

  function Count(fields: seq<Field>, name: string): nat {
    if fields == [] then 0 else (if fields[0].name == name then 1 else 0) + Count(fields[1..], name)
  }

  /** The first value under `name`, null when there is none. */
  function ValueOf(fields: seq<Field>, name: string): Json {
    if fields == [] then JNull else if fields[0].name == name then fields[0].value else ValueOf(fields[1..], name)
  }

  /** A field a variant needs: present exactly once, as a repeated one is refused. */
  predicate Has(fields: seq<Field>, name: string) {
    Count(fields, name) == 1
  }

  function Without(fields: seq<Field>, names: set<string>): seq<Field> {
    if fields == [] then []
    else (if fields[0].name in names then [] else [fields[0]]) + Without(fields[1..], names)
  }

  /** What is kept of a value read into a `serde_json::Value`: of a repeated name the
      last field stays. */
  function Settled(v: Json): Json
    decreases v
  {
    match v
    case JArr(items) => JArr(SettledItems(items))
    case JObj(fields) => JObj(SettledFields(fields))
    case _ => v
  }

  function SettledItems(items: seq<Json>): seq<Json>
    decreases items
  {
    if items == [] then [] else [Settled(items[0])] + SettledItems(items[1..])
  }

  function SettledFields(fields: seq<Field>): seq<Field>
    decreases fields
  {
    if fields == [] then []
    else if Count(fields[1..], fields[0].name) > 0 then SettledFields(fields[1..])
    else [Field(fields[0].name, Settled(fields[0].value))] + SettledFields(fields[1..])
  }

  // ----- typed readers -----

  predicate IsU32(v: Json) { v.JInt? && 0 <= v.n < 0x1_0000_0000 }

  predicate IsU64(v: Json) { v.JInt? && 0 <= v.n < 0x1_0000_0000_0000_0000 }

  predicate IsI32(v: Json) { v.JInt? && -0x8000_0000 <= v.n < 0x8000_0000 }

  /** An optional field may be missing or null. */
  predicate OptionalOk(fields: seq<Field>, name: string, fits: Json -> bool) {
    Count(fields, name) <= 1 && (ValueOf(fields, name).JNull? || fits(ValueOf(fields, name)))
  }

  predicate IsStr(v: Json) { v.JStr? }

  /** A structure's fields: an object's own, or an array's items in declaration
      order. */
  function FieldsOf(v: Json, names: seq<string>, least: nat): Option<seq<Field>> {
    if v.JObj? then Some(v.fields)
    else if v.JArr? && least <= |v.items| <= |names| then
      Some(seq(|v.items|, i requires 0 <= i < |v.items| => Field(names[i], v.items[i])))
    else None
  }

  const VERSION := "version"
  const CLIENT_PID := "client_pid"
  const TTY := "tty"
  const CWD := "cwd"
  const ARGV0 := "argv0"
  const SHELL_PID := "shell_pid"
  const SHELL_START := "shell_start"
  const CLIENT_ID := "client_id"
  const SHELL_ID := "shell_id"
  const SESSION_ID := "session_id"
  const DAEMON_PID := "daemon_pid"
  const DAEMON_UPTIME_MS := "daemon_uptime_ms"
  const CODE := "code"
  const MSG := "msg"

  const HELLO_NAMES := [VERSION, CLIENT_PID, TTY, CWD, ARGV0, SHELL_PID, SHELL_START]
  const WELCOME_NAMES := [VERSION, CLIENT_ID, SHELL_ID, SESSION_ID, DAEMON_PID, DAEMON_UPTIME_MS]
  const ERR_NAMES := [CODE, MSG]

  predicate HelloFields(f: seq<Field>) {
    && Has(f, VERSION) && IsU32(ValueOf(f, VERSION)) && Has(f, CLIENT_PID) && IsI32(ValueOf(f, CLIENT_PID))
    && OptionalOk(f, TTY, IsStr) && OptionalOk(f, CWD, IsStr) && OptionalOk(f, ARGV0, IsStr)
    && OptionalOk(f, SHELL_PID, IsI32) && OptionalOk(f, SHELL_START, IsU64)
  }

  predicate IsHello(v: Json) {
    var f := FieldsOf(v, HELLO_NAMES, 5);
    f.Some? && HelloFields(f.value)
  }

  function OptText(v: Json): Option<string> { if v.JStr? then Some(v.s) else None }

  function HelloOf(f: seq<Field>): Hello
    requires HelloFields(f)
  {
    var pid, start := ValueOf(f, SHELL_PID), ValueOf(f, SHELL_START);
    Hello(ValueOf(f, VERSION).n, ValueOf(f, CLIENT_PID).n, OptText(ValueOf(f, TTY)), OptText(ValueOf(f, CWD)),
          OptText(ValueOf(f, ARGV0)), if pid.JNull? then None else Some(pid.n), if start.JNull? then None else Some(start.n))
  }

  predicate WelcomeFields(f: seq<Field>) {
    && Has(f, VERSION) && IsU32(ValueOf(f, VERSION)) && Has(f, CLIENT_ID) && IsU64(ValueOf(f, CLIENT_ID))
    && Count(f, SHELL_ID) <= 1 && (Count(f, SHELL_ID) == 1 ==> IsU64(ValueOf(f, SHELL_ID)))
    && Has(f, SESSION_ID) && IsStr(ValueOf(f, SESSION_ID)) && Has(f, DAEMON_PID) && IsI32(ValueOf(f, DAEMON_PID))
    && Has(f, DAEMON_UPTIME_MS) && IsU64(ValueOf(f, DAEMON_UPTIME_MS))
  }

  predicate IsWelcome(v: Json) {
    var f := FieldsOf(v, WELCOME_NAMES, 6);
    f.Some? && WelcomeFields(f.value)
  }

  function WelcomeOf(f: seq<Field>): Welcome
    requires WelcomeFields(f)
  {
    Welcome(ValueOf(f, VERSION).n, ValueOf(f, CLIENT_ID).n, if Count(f, SHELL_ID) == 1 then ValueOf(f, SHELL_ID).n else 0,
            ValueOf(f, SESSION_ID).s, ValueOf(f, DAEMON_PID).n, ValueOf(f, DAEMON_UPTIME_MS).n)
  }

  predicate ErrFields(f: seq<Field>) {
    Has(f, CODE) && IsStr(ValueOf(f, CODE)) && Has(f, MSG) && IsStr(ValueOf(f, MSG))
  }

  predicate IsErr(v: Json) {
    var f := FieldsOf(v, ERR_NAMES, 2);
    f.Some? && ErrFields(f.value)
  }

  function ErrOf(f: seq<Field>): ErrPayload
    requires ErrFields(f)
  {
    ErrPayload(ValueOf(f, CODE).s, ValueOf(f, MSG).s)
  }

  // ----- writing -----

  function OrNull(t: Option<string>): Json { if t.Some? then JStr(t.value) else JNull }

  function HelloJson(h: Hello): Json {
    JObj([Field(VERSION, JInt(h.version)), Field(CLIENT_PID, JInt(h.clientPid)), Field(TTY, OrNull(h.tty)),
          Field(CWD, OrNull(h.cwd)), Field(ARGV0, OrNull(h.argv0))]
         + (if h.shellPid.Some? then [Field(SHELL_PID, JInt(h.shellPid.value))] else [])
         + (if h.shellStart.Some? then [Field(SHELL_START, JInt(h.shellStart.value))] else []))
  }

  function WelcomeJson(w: Welcome): Json {
    JObj([Field(VERSION, JInt(w.version)), Field(CLIENT_ID, JInt(w.clientId)), Field(SHELL_ID, JInt(w.shellId)),
          Field(SESSION_ID, JStr(w.sessionId)), Field(DAEMON_PID, JInt(w.daemonPid)),
          Field(DAEMON_UPTIME_MS, JInt(w.daemonUptimeMs))])
  }

  function ErrJson(e: ErrPayload): Json {
    JObj([Field(CODE, JStr(e.code)), Field(MSG, JStr(e.msg))])
  }

  /** A flattened payload must be an object, or null, which adds nothing. */
  function Flat(payload: Json): Option<seq<Field>> {
    if payload.JObj? then Some(payload.fields) else if payload.JNull? then Some([]) else None
  }

  /** The top-level fields a frame is written with. */
  function Wire(f: Frame): Option<seq<Field>> {
    match f
    case HelloFrame(h) => Some([Field(HELLO, HelloJson(h))])
    case WelcomeFrame(w) => Some([Field(WELCOME, WelcomeJson(w))])
    case WelcomeErr(v, e) => Some([Field(WELCOME, v), Field(ERR, ErrJson(e))])
    case Request(id, op, args) => Some([Field(ID, JInt(id)), Field(OP, JStr(op)), Field(ARGS, args)])
    case Response(id, ok, payload) =>
      if Flat(payload).None? then None
      else Some([Field(ID, JInt(id)), Field(OK, JBool(ok))] + Flat(payload).value)
    case Event(name, payload) =>
      if Flat(payload).None? then None else Some([Field(EVENT, JStr(name))] + Flat(payload).value)
  }

  // ----- reading: the first variant that fits -----

  predicate FitsHello(f: seq<Field>) { Has(f, HELLO) && IsHello(ValueOf(f, HELLO)) }

  predicate FitsWelcome(f: seq<Field>) { Has(f, WELCOME) && IsWelcome(ValueOf(f, WELCOME)) }

  predicate FitsWelcomeErr(f: seq<Field>) { Has(f, WELCOME) && Has(f, ERR) && IsErr(ValueOf(f, ERR)) }

  predicate FitsRequest(f: seq<Field>) {
    Has(f, ID) && IsU64(ValueOf(f, ID)) && Has(f, OP) && IsStr(ValueOf(f, OP)) && Count(f, ARGS) <= 1
  }

  predicate FitsResponse(f: seq<Field>) {
    Has(f, ID) && IsU64(ValueOf(f, ID)) && Has(f, OK) && ValueOf(f, OK).JBool?
  }

  predicate FitsEvent(f: seq<Field>) { Has(f, EVENT) && IsStr(ValueOf(f, EVENT)) }

  function Dispatch(f: seq<Field>): Option<Frame> {
    if FitsHello(f) then
      Some(HelloFrame(HelloOf(FieldsOf(ValueOf(f, HELLO), HELLO_NAMES, 5).value)))
    else if FitsWelcome(f) then
      Some(WelcomeFrame(WelcomeOf(FieldsOf(ValueOf(f, WELCOME), WELCOME_NAMES, 6).value)))
    else if FitsWelcomeErr(f) then
      Some(WelcomeErr(Settled(ValueOf(f, WELCOME)), ErrOf(FieldsOf(ValueOf(f, ERR), ERR_NAMES, 2).value)))
    else if FitsRequest(f) then Some(Request(ValueOf(f, ID).n, ValueOf(f, OP).s, Settled(ValueOf(f, ARGS))))
    else if FitsResponse(f) then Some(Response(ValueOf(f, ID).n, ValueOf(f, OK).flag, Settled(JObj(Without(f, {ID, OK})))))
    else if FitsEvent(f) then Some(Event(ValueOf(f, EVENT).s, Settled(JObj(Without(f, {EVENT})))))
    else None
  }

  // ----- which frames come back as they were -----

  /** Every value a sender holds is one a `serde_json::Value` can hold. */
  predicate Proper(f: Frame) {
    match f
    case WelcomeErr(v, _) => Settled(v) == v
    case Request(_, _, args) => Settled(args) == args
    case Response(_, _, payload) => Settled(payload) == payload
    case Event(_, payload) => Settled(payload) == payload
    case _ => true
  }

  /** No earlier variant's fields hide in what is written. */
  predicate Distinguishable(f: Frame) {
    match f
    case HelloFrame(_) => true
    case WelcomeFrame(_) => true
    case Request(_, _, _) => true
    case WelcomeErr(v, _) => !IsWelcome(v)
    case Response(_, _, payload) =>
      payload.JObj? &&
      var p := payload.fields;
      && Count(p, ID) == 0 && Count(p, OK) == 0
      && !FitsHello(p) && !FitsWelcome(p) && !FitsWelcomeErr(p) && !(Has(p, OP) && IsStr(ValueOf(p, OP)))
    case Event(_, payload) =>
      payload.JObj? &&
      var p := payload.fields;
      && Count(p, EVENT) == 0
      && !FitsHello(p) && !FitsWelcome(p) && !FitsWelcomeErr(p) && !FitsRequest(p) && !FitsResponse(p)
  }

  /** Putting a field in front shows that field, and hides nothing else. */
  lemma CountFront(x: Field, q: seq<Field>, name: string)
    ensures Count([x] + q, name) == Count(q, name) + (if x.name == name then 1 else 0)
    ensures ValueOf([x] + q, name) == if x.name == name then x.value else ValueOf(q, name)
  {
    assert ([x] + q)[1..] == q;
  }

  lemma {:induction false} WithoutAbsent(p: seq<Field>, names: set<string>)
    requires forall name :: name in names ==> Count(p, name) == 0
    ensures Without(p, names) == p
  {
    if p != [] {
      forall name | name in names
        ensures Count(p[1..], name) == 0
      {
        assert Count(p, name) == 0;
      }
      WithoutAbsent(p[1..], names);
      assert p == [p[0]] + p[1..];
    }
  }

  lemma {:induction false} SettledDistinct(p: seq<Field>, name: string)
    ensures |SettledFields(p)| <= |p|
    ensures SettledFields(p) == p ==> Count(p, name) <= 1
  {
    if p != [] {
      SettledDistinct(p[1..], name);
      if SettledFields(p) == p { assert SettledFields(p)[1..] == p[1..]; }
    }
  }

  // ----- the structures read back -----

  lemma {:induction false} Found(fields: seq<Field>, i: nat, name: string)
    requires i < |fields| && fields[i].name == name
    requires forall j :: 0 <= j < |fields| && j != i ==> fields[j].name != name
    ensures Has(fields, name) && ValueOf(fields, name) == fields[i].value
  {
    if i == 0 {
      Missing(fields[1..], name);
    } else {
      assert fields[0].name != name;
      Found(fields[1..], i - 1, name);
    }
  }

  lemma {:induction false} Missing(fields: seq<Field>, name: string)
    requires forall j :: 0 <= j < |fields| ==> fields[j].name != name
    ensures Count(fields, name) == 0 && ValueOf(fields, name) == JNull
  {
    if fields != [] { Missing(fields[1..], name); }
  }

  predicate NamesDiffer(names: seq<string>) {
    forall i, j :: 0 <= i < j < |names| ==> names[i] != names[j]
  }

  /** Fields with different names: each is found under its own, and no other is. */
  lemma FoundAll(fields: seq<Field>, names: seq<string>)
    requires |fields| == |names| && (forall i :: 0 <= i < |fields| ==> fields[i].name == names[i]) && NamesDiffer(names)
    ensures forall i :: 0 <= i < |names| ==> Has(fields, names[i]) && ValueOf(fields, names[i]) == fields[i].value
    ensures forall name :: name !in names ==> Count(fields, name) == 0 && ValueOf(fields, name) == JNull
  {
    hide Has, Count, ValueOf;
    forall i | 0 <= i < |names|
      ensures Has(fields, names[i]) && ValueOf(fields, names[i]) == fields[i].value
    {
      Found(fields, i, names[i]);
    }
    forall name | name !in names
      ensures Count(fields, name) == 0 && ValueOf(fields, name) == JNull
    {
      Missing(fields, name);
    }
  }

  lemma HelloNamesDiffer()
    ensures NamesDiffer(HELLO_NAMES)
  {
    assert |VERSION| == 7 && |CLIENT_PID| == 10 && |TTY| == 3 && |CWD| == 3 && |ARGV0| == 5 && |SHELL_PID| == 9 && |SHELL_START| == 11;
    assert TTY[0] == 't' && CWD[0] == 'c';
  }

  /** The names a hello is written with: those of absent options are skipped. */
  function HelloNames(h: Hello): seq<string> {
    [VERSION, CLIENT_PID, TTY, CWD, ARGV0] + (if h.shellPid.Some? then [SHELL_PID] else [])
      + (if h.shellStart.Some? then [SHELL_START] else [])
  }

  lemma HelloNamesAreDistinct(h: Hello)
    ensures NamesDiffer(HelloNames(h))
    ensures SHELL_PID in HelloNames(h) <==> h.shellPid.Some?
    ensures SHELL_START in HelloNames(h) <==> h.shellStart.Some?
  {
    HelloNamesDiffer();
    var all := HELLO_NAMES;
    assert all[5] == SHELL_PID && all[6] == SHELL_START;
    if h.shellPid.Some? { assert HelloNames(h)[5] == SHELL_PID; }
    if h.shellStart.Some? { assert HelloNames(h)[|HelloNames(h)| - 1] == SHELL_START; }
  }

  lemma HelloIsWrittenAs(h: Hello)
    ensures var f, names := HelloJson(h).fields, HelloNames(h);
      && |f| == |names| && (forall i :: 0 <= i < |f| ==> f[i].name == names[i])
      && f[0].value == JInt(h.version) && f[1].value == JInt(h.clientPid) && f[2].value == OrNull(h.tty)
      && f[3].value == OrNull(h.cwd) && f[4].value == OrNull(h.argv0)
      && names[0] == VERSION && names[1] == CLIENT_PID && names[2] == TTY && names[3] == CWD && names[4] == ARGV0
  {
  }

  lemma HelloRequiredFields(h: Hello)
    ensures var f := HelloJson(h).fields;
      && Has(f, VERSION) && ValueOf(f, VERSION) == JInt(h.version)
      && Has(f, CLIENT_PID) && ValueOf(f, CLIENT_PID) == JInt(h.clientPid)
      && Has(f, TTY) && ValueOf(f, TTY) == OrNull(h.tty)
      && Has(f, CWD) && ValueOf(f, CWD) == OrNull(h.cwd)
      && Has(f, ARGV0) && ValueOf(f, ARGV0) == OrNull(h.argv0)
  {
    hide Has, Count, ValueOf, NamesDiffer, HelloNames;
    var f, names := HelloJson(h).fields, HelloNames(h);
    HelloIsWrittenAs(h);
    HelloNamesAreDistinct(h);
    hide HelloJson, OrNull;
    FoundAll(f, names);
  }

  lemma HelloSkippedFields(h: Hello)
    ensures var f := HelloJson(h).fields;
      && Count(f, SHELL_PID) <= 1 && ValueOf(f, SHELL_PID) == (if h.shellPid.Some? then JInt(h.shellPid.value) else JNull)
      && Count(f, SHELL_START) <= 1 && ValueOf(f, SHELL_START) == (if h.shellStart.Some? then JInt(h.shellStart.value) else JNull)
  {
    hide Count, ValueOf, NamesDiffer;
    var f, names := HelloJson(h).fields, HelloNames(h);
    HelloNamesAreDistinct(h);
    FoundAll(f, names);
    if h.shellPid.Some? { assert names[5] == SHELL_PID; }
    if h.shellStart.Some? { assert names[|names| - 1] == SHELL_START; }
  }

  lemma HelloReads(h: Hello)
    ensures IsHello(HelloJson(h)) && HelloOf(HelloJson(h).fields) == h
  {
    hide Count, ValueOf;
    HelloRequiredFields(h);
    HelloSkippedFields(h);
  }

  lemma WelcomeNamesDiffer()
    ensures NamesDiffer(WELCOME_NAMES)
  {
    assert |VERSION| == 7 && |CLIENT_ID| == 9 && |SHELL_ID| == 8 && |SESSION_ID| == 10 && |DAEMON_PID| == 10 && |DAEMON_UPTIME_MS| == 16;
    assert SESSION_ID[0] == 's' && DAEMON_PID[0] == 'd';
  }

  lemma WelcomeReads(w: Welcome)
    ensures IsWelcome(WelcomeJson(w)) && WelcomeOf(WelcomeJson(w).fields) == w
  {
    hide Count, ValueOf, NamesDiffer;
    var f := WelcomeJson(w).fields;
    WelcomeNamesDiffer();
    var names := WELCOME_NAMES;
    FoundAll(f, names);
    assert names[0] == VERSION && names[1] == CLIENT_ID && names[2] == SHELL_ID && names[3] == SESSION_ID;
    assert names[4] == DAEMON_PID && names[5] == DAEMON_UPTIME_MS;
  }

  /** The fields a welcome is written with. */
  lemma WelcomeFieldsAre(w: Welcome)
    ensures var f := WelcomeJson(w).fields;
      && ValueOf(f, "version") == JInt(w.version) && ValueOf(f, "client_id") == JInt(w.clientId)
      && ValueOf(f, "shell_id") == JInt(w.shellId) && ValueOf(f, "session_id") == JStr(w.sessionId)
      && ValueOf(f, "daemon_pid") == JInt(w.daemonPid) && ValueOf(f, "daemon_uptime_ms") == JInt(w.daemonUptimeMs)
  {
    hide Has, Count, ValueOf, NamesDiffer;
    var f := WelcomeJson(w).fields;
    WelcomeNamesDiffer();
    var names := WELCOME_NAMES;
    FoundAll(f, names);
    assert names[0] == VERSION && names[1] == CLIENT_ID && names[2] == SHELL_ID && names[3] == SESSION_ID;
    assert names[4] == DAEMON_PID && names[5] == DAEMON_UPTIME_MS;
  }

  lemma ErrReads(e: ErrPayload)
    ensures IsErr(ErrJson(e)) && ErrOf(ErrJson(e).fields) == e
  {
    var f := ErrJson(e).fields;
    assert |CODE| == 4 && |MSG| == 3;
    Found(f, 0, CODE);
    Found(f, 1, MSG);
  }

  // ----- dispatch recovers the frame -----

  lemma TopNamesDiffer()
    ensures HELLO != WELCOME && HELLO != ERR && HELLO != ID && HELLO != OP && HELLO != ARGS && HELLO != OK && HELLO != EVENT
    ensures WELCOME != ERR && WELCOME != ID && WELCOME != OP && WELCOME != ARGS && WELCOME != OK && WELCOME != EVENT
    ensures ERR != ID && ERR != OP && ERR != ARGS && ERR != OK && ERR != EVENT
    ensures ID != OP && ID != ARGS && ID != OK && ID != EVENT
    ensures OP != ARGS && OP != OK && OP != EVENT && ARGS != OK && ARGS != EVENT && OK != EVENT
  {
    assert |HELLO| == 5 && |WELCOME| == 7 && |ERR| == 3 && |ID| == 2 && |OP| == 2 && |ARGS| == 4 && |OK| == 2 && |EVENT| == 5;
    assert HELLO[0] == 'h' && EVENT[0] == 'e' && ID[0] == 'i' && OP[1] == 'p' && OK[1] == 'k' && OP[0] == 'o' && OK[0] == 'o';
  }

  lemma ResponseFields(id: U64, ok: bool, p: seq<Field>, w: seq<Field>)
    requires w == [Field(ID, JInt(id)), Field(OK, JBool(ok))] + p
    ensures forall name :: Count(w, name) == Count(p, name) + (if name == ID || name == OK then 1 else 0)
    ensures forall name :: ValueOf(w, name) == if name == ID then JInt(id) else if name == OK then JBool(ok) else ValueOf(p, name)
    ensures Count(p, ID) == 0 && Count(p, OK) == 0 ==> Without(w, {ID, OK}) == p
  {
    TopNamesDiffer();
    var q := [Field(OK, JBool(ok))] + p;
    assert w == [Field(ID, JInt(id))] + q;
    forall name
      ensures Count(w, name) == Count(p, name) + (if name == ID || name == OK then 1 else 0)
      ensures ValueOf(w, name) == if name == ID then JInt(id) else if name == OK then JBool(ok) else ValueOf(p, name)
    {
      CountFront(Field(OK, JBool(ok)), p, name);
      CountFront(Field(ID, JInt(id)), q, name);
    }
    assert q[1..] == p && w[1..] == q;
    if Count(p, ID) == 0 && Count(p, OK) == 0 { WithoutAbsent(p, {ID, OK}); }
  }

  lemma PayloadRepeatsNothing(p: seq<Field>, name: string)
    requires Settled(JObj(p)) == JObj(p)
    ensures Count(p, name) <= 1
  {
    SettledDistinct(p, name);
  }

  lemma ResponseComesBack(f: Frame)
    requires f.Response? && Proper(f) && f.payload.JObj?
    ensures Dispatch(Wire(f).value) == Some(f) <==> Distinguishable(f)
  {
    hide Settled, Count, ValueOf, Without, IsHello, IsWelcome, IsErr, HelloOf, WelcomeOf, ErrOf, FieldsOf;
    var p := f.payload.fields;
    var w := Wire(f).value;
    TopNamesDiffer();
    ResponseFields(f.id, f.ok, p, w);
    PayloadRepeatsNothing(p, ARGS);
    assert Count(w, HELLO) == Count(p, HELLO) && Count(w, WELCOME) == Count(p, WELCOME) && Count(w, ERR) == Count(p, ERR);
  }

  lemma EventComesBack(f: Frame)
    requires f.Event? && Proper(f) && f.payload.JObj?
    ensures Dispatch(Wire(f).value) == Some(f) <==> Distinguishable(f)
  {
    hide Settled, Count, ValueOf, Without, IsHello, IsWelcome, IsErr, HelloOf, WelcomeOf, ErrOf, FieldsOf;
    var p := f.payload.fields;
    var w := Wire(f).value;
    TopNamesDiffer();
    EventFields(f.event, p, w);
  }

  lemma EventFields(event: string, p: seq<Field>, w: seq<Field>)
    requires w == [Field(EVENT, JStr(event))] + p
    ensures forall name :: Count(w, name) == Count(p, name) + (if name == EVENT then 1 else 0)
    ensures forall name :: ValueOf(w, name) == if name == EVENT then JStr(event) else ValueOf(p, name)
    ensures Count(p, EVENT) == 0 ==> Without(w, {EVENT}) == p
  {
    forall name
      ensures Count(w, name) == Count(p, name) + (if name == EVENT then 1 else 0)
      ensures ValueOf(w, name) == if name == EVENT then JStr(event) else ValueOf(p, name)
    {
      CountFront(Field(EVENT, JStr(event)), p, name);
    }
    assert w[1..] == p;
    if Count(p, EVENT) == 0 { WithoutAbsent(p, {EVENT}); }
  }

  lemma OneField(name: string, v: Json)
    ensures Has([Field(name, v)], name) && ValueOf([Field(name, v)], name) == v
  {
    Found([Field(name, v)], 0, name);
  }

  lemma HelloComesBack(h: Hello)
    ensures Dispatch(Wire(HelloFrame(h)).value) == Some(HelloFrame(h))
  {
    hide Has, ValueOf, Count, HelloOf, IsHello, HelloJson;
    OneField(HELLO, HelloJson(h));
    HelloReads(h);
    HelloIsObject(h);
  }

  lemma HelloIsObject(h: Hello)
    ensures HelloJson(h).JObj? && FieldsOf(HelloJson(h), HELLO_NAMES, 5) == Some(HelloJson(h).fields)
  {
  }

  lemma WelcomeComesBack(x: Welcome)
    ensures Dispatch(Wire(WelcomeFrame(x)).value) == Some(WelcomeFrame(x))
  {
    hide ValueOf, Count, WelcomeOf, IsWelcome, IsHello;
    TopNamesDiffer();
    var w := Wire(WelcomeFrame(x)).value;
    Missing(w, HELLO);
    OneField(WELCOME, WelcomeJson(x));
    WelcomeReads(x);
  }

  lemma WelcomeErrComesBack(v: Json, e: ErrPayload)
    requires Settled(v) == v
    ensures Dispatch(Wire(WelcomeErr(v, e)).value) == Some(WelcomeErr(v, e)) <==> !IsWelcome(v)
  {
    hide ValueOf, Count, IsWelcome, IsHello, IsErr, ErrOf, WelcomeOf, Settled;
    TopNamesDiffer();
    var w := Wire(WelcomeErr(v, e)).value;
    Missing(w, HELLO);
    Found(w, 0, WELCOME);
    Found(w, 1, ERR);
    ErrReads(e);
  }

  lemma RequestComesBack(id: U64, op: string, args: Json)
    requires Settled(args) == args
    ensures Dispatch(Wire(Request(id, op, args)).value) == Some(Request(id, op, args))
  {
    hide ValueOf, Count, IsWelcome, IsHello, IsErr, Settled;
    TopNamesDiffer();
    var w := Wire(Request(id, op, args)).value;
    Missing(w, HELLO);
    Missing(w, WELCOME);
    Found(w, 0, ID);
    Found(w, 1, OP);
    Found(w, 2, ARGS);
  }

  lemma OthersComeBack(f: Frame)
    requires !f.Response? && !f.Event? && Proper(f)
    ensures Dispatch(Wire(f).value) == Some(f) <==> Distinguishable(f)
  {
    hide Dispatch, Wire, Settled, IsWelcome;
    match f
    case HelloFrame(h) => HelloComesBack(h);
    case WelcomeFrame(x) => WelcomeComesBack(x);
    case WelcomeErr(v, e) => WelcomeErrComesBack(v, e);
    case Request(id, op, args) => RequestComesBack(id, op, args);
  }

  /** The fields an error is written with. */
  lemma ErrFieldsAre(e: ErrPayload)
    ensures ValueOf(ErrJson(e).fields, "code") == JStr(e.code) && ValueOf(ErrJson(e).fields, "msg") == JStr(e.msg)
  {
    var f := ErrJson(e).fields;
    assert |CODE| == 4 && |MSG| == 3;
    Found(f, 0, CODE);
    Found(f, 1, MSG);
  }

  /** The envelope's own fields, by name. */
  lemma EnvelopeFieldsAre(f: Frame)
    requires Wire(f).Some?
    ensures var w := Wire(f).value;
      match f
      case HelloFrame(h) => ValueOf(w, "hello") == HelloJson(h)
      case WelcomeFrame(x) => ValueOf(w, "welcome") == WelcomeJson(x)
      case WelcomeErr(v, e) => ValueOf(w, "welcome") == v && ValueOf(w, "err") == ErrJson(e)
      case Request(id, op, args) => ValueOf(w, "id") == JInt(id) && ValueOf(w, "op") == JStr(op) && ValueOf(w, "args") == args
      case Response(id, ok, payload) => ValueOf(w, "id") == JInt(id) && ValueOf(w, "ok") == JBool(ok) && w[2..] == Flat(payload).value
      case Event(name, payload) => ValueOf(w, "event") == JStr(name) && w[1..] == Flat(payload).value
  {
    hide Count, HelloJson, WelcomeJson, ErrJson;
    TopNamesDiffer();
    var w := Wire(f).value;
    match f
    case HelloFrame(h) =>
    case WelcomeFrame(x) =>
    case WelcomeErr(v, e) =>
    case Request(id, op, args) =>
      Found(w, 1, OP);
      Found(w, 2, ARGS);
    case Response(id, ok, payload) =>
    case Event(name, payload) =>
  }

  /** A structure with a repeated field is refused, whichever field it is. */
  lemma RepeatedFieldIsRefused(fields: seq<Field>, name: string)
    requires Count(fields, name) > 1
    ensures name in HELLO_NAMES ==> !IsHello(JObj(fields))
    ensures name in WELCOME_NAMES ==> !IsWelcome(JObj(fields))
    ensures name in ERR_NAMES ==> !IsErr(JObj(fields))
  {
    hide Count, ValueOf;
  }

  /** A payload that is null is written as no fields at all, and is read back as an empty
      object; one that is neither null nor an object cannot be written. */
  lemma NullPayloadBecomesEmpty(id: U64, ok: bool, name: string, payload: Json)
    ensures Wire(Response(id, ok, payload)).Some? <==> payload.JObj? || payload.JNull?
    ensures Wire(Event(name, payload)).Some? <==> payload.JObj? || payload.JNull?
    ensures payload.JNull? ==>
      && Dispatch(Wire(Response(id, ok, payload)).value) == Some(Response(id, ok, JObj([])))
      && Dispatch(Wire(Event(name, payload)).value) == Some(Event(name, JObj([])))
  {
    if payload.JNull? {
      NothingHides();
      ResponseComesBack(Response(id, ok, JObj([])));
      EventComesBack(Event(name, JObj([])));
      assert Wire(Response(id, ok, payload)) == Wire(Response(id, ok, JObj([])));
      assert Wire(Event(name, payload)) == Wire(Event(name, JObj([])));
    }
  }

  lemma NothingHides()
    ensures forall id, ok :: Distinguishable(Response(id, ok, JObj([]))) && Proper(Response(id, ok, JObj([])))
    ensures forall name :: Distinguishable(Event(name, JObj([]))) && Proper(Event(name, JObj([])))
  {
  }

  /** A request may leave its arguments out; giving them twice is refused, and other
      fields do not matter. */
  lemma RequestReads(id: U64, op: string, rest: seq<Field>)
    requires Count(rest, HELLO) == 0 && Count(rest, WELCOME) == 0 && Count(rest, ID) == 0 && Count(rest, OP) == 0
    requires Count(rest, OK) == 0 && Count(rest, EVENT) == 0
    ensures Dispatch([Field(ID, JInt(id)), Field(OP, JStr(op))] + rest) ==
      if Count(rest, ARGS) == 0 then Some(Request(id, op, JNull))
      else if Count(rest, ARGS) == 1 then Some(Request(id, op, Settled(ValueOf(rest, ARGS))))
      else None
  {
    hide Count, ValueOf, Settled;
    var q := [Field(OP, JStr(op))] + rest;
    var w := [Field(ID, JInt(id))] + q;
    assert w == [Field(ID, JInt(id)), Field(OP, JStr(op))] + rest;
    TopNamesDiffer();
    forall name
      ensures Count(w, name) == Count(rest, name) + (if name == ID || name == OP then 1 else 0)
      ensures ValueOf(w, name) == if name == ID then JInt(id) else if name == OP then JStr(op) else ValueOf(rest, name)
    {
      CountFront(Field(OP, JStr(op)), rest, name);
      CountFront(Field(ID, JInt(id)), q, name);
    }
    NoneIsNull(rest, ARGS);
  }

  lemma {:induction false} NoneIsNull(fields: seq<Field>, name: string)
    ensures Count(fields, name) == 0 ==> ValueOf(fields, name) == JNull
    ensures Settled(JNull) == JNull
  {
    if fields != [] { NoneIsNull(fields[1..], name); }
  }

  predicate Recovered(f: Frame) {
    Wire(f).Some? && Dispatch(Wire(f).value) == Some(f)
  }

  /** Dispatch recovers the variant and the fields of a frame exactly when no earlier
      variant fits what is written and a flattened payload is an object that does not
      repeat the envelope's own names. */
  lemma RecoveredExactlyWhenDistinguishable(f: Frame)
    requires Proper(f)
    ensures Recovered(f) <==> Distinguishable(f)
  {
    match f
    case Response(_, _, payload) => if payload.JObj? { ResponseComesBack(f); }
    case Event(_, payload) => if payload.JObj? { EventComesBack(f); }
    case _ => OthersComeBack(f);
  }

  /** A payload that avoids six names is always safe. */
  lemma AvoidedNamesAreEnough(f: Frame)
    requires Proper(f) && (f.Response? || f.Event?) && f.payload.JObj?
    requires forall name :: name in {HELLO, WELCOME, ID, OP, OK, EVENT} ==> Count(f.payload.fields, name) == 0
    ensures Recovered(f)
  {
    var p := f.payload.fields;
    assert Count(p, HELLO) == 0 && Count(p, WELCOME) == 0 && Count(p, ID) == 0 && Count(p, OP) == 0;
    assert Count(p, OK) == 0 && Count(p, EVENT) == 0;
    RecoveredExactlyWhenDistinguishable(f);
  }

  /** So is every error reply the daemon builds. */
  lemma ErrorRepliesComeBack(id: U64, e: ErrPayload)
    ensures Recovered(Response(id, false, JObj([Field(ERR, ErrJson(e))])))
  {
    var p := [Field(ERR, ErrJson(e))];
    TopNamesDiffer();
    Missing(p, HELLO);
    Missing(p, WELCOME);
    Missing(p, ID);
    Missing(p, OP);
    Missing(p, OK);
    assert |CODE| == 4 && |MSG| == 3;
    var fields := [Field(CODE, JStr(e.code)), Field(MSG, JStr(e.msg))];
    assert Count(fields[1..], CODE) == 0 by { Missing(fields[1..], CODE); }
    assert SettledFields(fields[1..]) == fields[1..];
    assert SettledFields(fields) == fields;
    assert Settled(ErrJson(e)) == ErrJson(e);
    assert SettledFields(p) == p;
    RecoveredExactlyWhenDistinguishable(Response(id, false, JObj(p)));
  }
}
