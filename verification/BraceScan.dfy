/** The line scanner behind the build gate: brace depth, skipping comments and
    literals, and the free functions it finds at depth zero. The byte loop reads a
    line's UTF-8 bytes, one character each. */
module BraceScan {
  import opened Text

  // ----- skipping -----

  predicate IsIdent(c: char) {
    'a' <= c <= 'z' || 'A' <= c <= 'Z' || '0' <= c <= '9' || c == '_'
  }

  /** What is left of a line at `i`; a skip may land one past the end. */
  function Rest(line: string, i: nat): string {
    if i <= |line| then line[i..] else []
  }

  /** Bytes from behind an opening quote through the closing one; a backslash takes the
      next byte along, even one past the end. */
  function StringSkip(s: string): (n: nat)
    ensures n <= |s| + 1
    decreases |s|
  {
    if s == [] then 0
    else if s[0] == '\\' then 2 + StringSkip(Rest(s, 2))
    else if s[0] == '"' then 1
    else 1 + StringSkip(s[1..])
  }

  function Hashes(s: string): (n: nat)
    ensures n <= |s|
  {
    if s == [] || s[0] != '#' then 0 else 1 + Hashes(s[1..])
  }

  /** Bytes from behind a raw string's opening quote through the quote followed by
      that many hashes. */
  function RawSkip(s: string, hashes: nat): (n: nat)
    ensures n <= |s|
  {
    if s == [] then 0
    else if s[0] == '"' && Hashes(s[1..]) >= hashes then 1 + hashes
    else 1 + RawSkip(s[1..], hashes)
  }

  function IdentSkip(s: string): (n: nat)
    ensures n <= |s|
  {
    if s == [] || !IsIdent(s[0]) then 0 else 1 + IdentSkip(s[1..])
  }

  /** The closing apostrophe among the next `left` bytes; a backslash hides the byte
      behind it. */
  function CloseIn(s: string, left: nat, escape: bool): (j: Option<nat>)
    ensures j.Some? ==> j.value < |s| && j.value < left
  {
    if s == [] || left == 0 then None
    else if !escape && s[0] == '\'' then Some(0)
    else
      var j := CloseIn(s[1..], left - 1, s[0] == '\\' && !escape);
      if j.None? then None else Some(j.value + 1)
  }

  const CHAR_WINDOW := 11

  // ----- one step of the scan -----

  datatype Step = Stop | Move(n: nat, delta: int, block: nat)

  predicate Pair(s: string, a: char, b: char) {
    |s| >= 2 && s[0] == a && s[1] == b
  }

  /** An apostrophe that closes nothing within the window: a lifetime. */
  predicate OpenApostrophe(s: string) {
    s != [] && s[0] == '\'' && CloseIn(s[1..], CHAR_WINDOW, false).None?
  }

  function InComment(s: string, block: nat): Step
    requires s != [] && block > 0
  {
    if Pair(s, '*', '/') then Move(2, 0, block - 1)
    else if Pair(s, '/', '*') then Move(2, 0, block + 1)
    else Move(1, 0, block)
  }

  /** A raw string from its `r` on; an `r` with hashes but no quote is just a letter. */
  function RawWidth(s: string): (n: nat)
    requires s != []
    ensures 1 <= n <= |s|
  {
    var h := Hashes(s[1..]);
    if 1 + h < |s| && s[1 + h] == '"' then 2 + h + RawSkip(s[2 + h..], h) else 1
  }

  /** A character literal, or a lifetime. */
  function ApostropheWidth(s: string): (n: nat)
    requires s != []
    ensures 1 <= n <= |s|
  {
    var j := CloseIn(s[1..], CHAR_WINDOW, false);
    if j.Some? then 2 + j.value else 1 + IdentSkip(s[1..])
  }

  function InCode(s: string): Step
    requires s != []
  {
    if Pair(s, '/', '/') then Stop
    else if Pair(s, '/', '*') then Move(2, 0, 1)
    else if s[0] == '"' then Move(1 + StringSkip(s[1..]), 0, 0)
    else if s[0] == 'r' && (Pair(s, 'r', '"') || Pair(s, 'r', '#')) then Move(RawWidth(s), 0, 0)
    else if s[0] == '\'' then Move(ApostropheWidth(s), 0, 0)
    else if s[0] == '{' then Move(1, 1, 0)
    else if s[0] == '}' then Move(1, -1, 0)
    else Move(1, 0, 0)
  }

  function StepAt(s: string, block: nat): (r: Step)
    requires s != []
    ensures r.Move? ==> 1 <= r.n <= |s| + 1
  {
    if block > 0 then InComment(s, block) else InCode(s)
  }

  /** A line's net brace count and the block-comment depth it leaves behind. */
  datatype Outcome = Outcome(delta: int, block: nat) {
    function Plus(d: int): Outcome { Outcome(d + delta, block) }
  }

  function Scan(s: string, block: nat): Outcome
    decreases |s|
  {
    if s == [] then Outcome(0, block)
    else
      match StepAt(s, block)
      case Stop => Outcome(0, block)
      case Move(n, delta, block') => Scan(Rest(s, n), block').Plus(delta)
  }

  // ----- the loops -----

  lemma RestOfRest(line: string, i: nat, n: nat)
    requires i <= |line|
    ensures Rest(line[i..], n) == Rest(line, i + n)
  {
  }

  method SkipString(line: string, start: nat) returns (i: nat)
    requires start <= |line|
    ensures i == start + StringSkip(line[start..])
  {
    i := start;
    ghost var end := start + StringSkip(line[start..]);
    while i < |line|
      invariant start <= i && i + StringSkip(Rest(line, i)) == end
    {
      RestOfRest(line, i, 1);
      RestOfRest(line, i, 2);
      var c := line[i];
      if c == '\\' {
        i := i + 2;
        continue;
      }
      if c == '"' {
        i := i + 1;
        return;
      }
      i := i + 1;
    }
  }

  method CountHashes(line: string, start: nat, most: nat) returns (k: nat, closed: nat)
    requires start <= |line|
    ensures closed == (if Hashes(line[start..]) < most then Hashes(line[start..]) else most)
    ensures k == start + closed
  {
    k, closed := start, 0;
    while k < |line| && line[k] == '#' && closed < most
      invariant k == start + closed && closed <= most && k <= |line|
      invariant Hashes(line[start..]) == closed + Hashes(line[k..])
    {
      assert line[k..][1..] == line[k + 1..];
      closed := closed + 1;
      k := k + 1;
    }
  }

  method SkipRaw(line: string, start: nat, hashes: nat) returns (i: nat)
    requires start <= |line|
    ensures i == start + RawSkip(line[start..], hashes)
  {
    i := start;
    while i < |line|
      invariant start <= i <= |line|
      invariant i + RawSkip(line[i..], hashes) == start + RawSkip(line[start..], hashes)
    {
      assert line[i..][1..] == line[i + 1..];
      if line[i] == '"' {
        var k, closed := CountHashes(line, i + 1, hashes);
        if closed >= hashes {
          i := k;
          break;
        }
      }
      i := i + 1;
    }
  }

  /** One byte of the look-ahead. */
  lemma CloseStep(s: string, left: nat, escape: bool)
    ensures var j := CloseIn(s, left, escape);
      if s == [] || left == 0 then j == None
      else if !escape && s[0] == '\'' then j == Some(0)
      else
        var rest := CloseIn(s[1..], left - 1, s[0] == '\\' && !escape);
        j == if rest.None? then None else Some(rest.value + 1)
  {
  }

  method FindClose(line: string, i: nat) returns (j: nat, found: bool)
    requires i < |line|
    ensures found <==> CloseIn(line[i + 1..], CHAR_WINDOW, false).Some?
    ensures found ==> j == i + 1 + CloseIn(line[i + 1..], CHAR_WINDOW, false).value
  {
    hide CloseIn;
    j, found := i + 1, false;
    var escape := false;
    while j < |line| && j - i < 12
      invariant i < j <= |line| && j - i <= 12
      invariant var all, here := CloseIn(line[i + 1..], CHAR_WINDOW, false), CloseIn(line[j..], 12 - (j - i), escape);
        (all.Some? <==> here.Some?) && (here.Some? ==> i + 1 + all.value == j + here.value)
    {
      CloseStep(line[j..], 12 - (j - i), escape);
      assert line[j..][1..] == line[j + 1..];
      if !escape && line[j] == '\'' {
        found := true;
        break;
      }
      escape := line[j] == '\\' && !escape;
      j := j + 1;
    }
    if !found { CloseStep(line[j..], 12 - (j - i), escape); }
  }

  method SkipIdent(line: string, start: nat) returns (i: nat)
    requires start <= |line|
    ensures i == start + IdentSkip(line[start..])
  {
    i := start;
    while i < |line| && IsIdent(line[i])
      invariant start <= i <= |line|
      invariant i + IdentSkip(line[i..]) == start + IdentSkip(line[start..])
    {
      assert line[i..][1..] == line[i + 1..];
      i := i + 1;
    }
  }

  method TakeRaw(line: string, i: nat) returns (next: nat)
    requires i < |line|
    ensures next == i + RawWidth(line[i..])
  {
    var s := line[i..];
    assert s[1..] == line[i + 1..];
    var j, hashes := CountHashes(line, i + 1, |line|);
    next := i + 1;
    if j < |line| && line[j] == '"' {
      assert s[2 + hashes..] == line[j + 1..];
      next := SkipRaw(line, j + 1, hashes);
    }
  }

  method TakeApostrophe(line: string, i: nat) returns (next: nat)
    requires i < |line|
    ensures next == i + ApostropheWidth(line[i..])
  {
    assert line[i..][1..] == line[i + 1..];
    var j, found := FindClose(line, i);
    if found { next := j + 1; } else { next := SkipIdent(line, i + 1); }
  }

  /** One pass of the match on the byte at `i`. */
  method TakeStep(line: string, i: nat, delta: int) returns (next: nat, delta': int, block: nat, stop: bool)
    requires i < |line|
    ensures stop <==> InCode(line[i..]).Stop?
    ensures !stop ==> var m := InCode(line[i..]);
      next == i + m.n && delta' == delta + m.delta && block == m.block
  {
    var b := line[i];
    ghost var s := line[i..];
    assert s[0] == b && (i + 1 < |line| ==> s[1] == line[i + 1]) && s[1..] == line[i + 1..];
    next, delta', block, stop := i + 1, delta, 0, false;
    if b == '/' && i + 1 < |line| && line[i + 1] == '/' {
      stop := true;
    } else if b == '/' && i + 1 < |line| && line[i + 1] == '*' {
      block, next := 1, i + 2;
    } else if b == '"' {
      next := SkipString(line, i + 1);
    } else if b == 'r' && i + 1 < |line| && (line[i + 1] == '"' || line[i + 1] == '#') {
      next := TakeRaw(line, i);
    } else if b == '\'' {
      next := TakeApostrophe(line, i);
    } else if b == '{' {
      delta' := delta + 1;
    } else if b == '}' {
      delta' := delta - 1;
    }
  }

  /** One byte, or an opener or closer, inside a block comment. */
  method TakeComment(line: string, i: nat, carried: nat) returns (next: nat, block: nat)
    requires i < |line| && carried > 0
    ensures i < next && InComment(line[i..], carried) == Move(next - i, 0, block)
  {
    if line[i] == '*' && i + 1 < |line| && line[i + 1] == '/' { return i + 2, carried - 1; }
    if line[i] == '/' && i + 1 < |line| && line[i + 1] == '*' { return i + 2, carried + 1; }
    return i + 1, carried;
  }

  /** What a step leaves of the line's result. */
  lemma ScanStep(s: string, block: nat, m: Step, rest: string)
    requires s != [] && m == StepAt(s, block) && (m.Move? ==> rest == Rest(s, m.n))
    ensures Scan(s, block) == if m.Stop? then Outcome(0, block) else Scan(rest, m.block).Plus(m.delta)
  {
  }

  /** One turn of the loop. */
  method Turn(line: string, i: nat, delta: int, carried: nat, ghost m: Step)
    returns (next: nat, delta': int, block: nat, stop: bool)
    requires i < |line| && m == StepAt(line[i..], carried)
    ensures stop <==> m.Stop?
    ensures !stop ==> next == i + m.n && delta' == delta + m.delta && block == m.block
  {
    if carried > 0 {
      next, block := TakeComment(line, i, carried);
      delta', stop := delta, false;
    } else {
      next, delta', block, stop := TakeStep(line, i, delta);
    }
  }

  method ScanLine(line: string, carried: nat) returns (delta: int, block: nat)
    ensures Outcome(delta, block) == Scan(line, carried)
  {
    delta, block := 0, carried;
    var i := 0;
    ghost var all, rest := Scan(line, carried), Scan(line, carried);
    while i < |line|
      invariant rest == Scan(Rest(line, i), block)
      invariant all == rest.Plus(delta)
      decreases |line| - i
    {
      ghost var m := StepAt(line[i..], block);
      var next, delta', block', stop := Turn(line, i, delta, block, m);
      ScanStep(line[i..], block, m, Rest(line, next));
      if stop { break; }
      rest := Scan(Rest(line, next), block');
      i, delta, block := next, delta', block';
    }
  }

  // ----- lines -----

  /** `str::as_bytes`. */
  function Utf8Char(c: char): (bytes: string)
    ensures bytes != []
  {
    var n := c as int;
    if n < 0x80 then [c]
    else if n < 0x800 then [(0xC0 + n / 0x40) as char, (0x80 + n % 0x40) as char]
    else if n < 0x1_0000 then [(0xE0 + n / 0x1000) as char, (0x80 + n / 0x40 % 0x40) as char, (0x80 + n % 0x40) as char]
    else
      [(0xF0 + n / 0x4_0000) as char, (0x80 + n / 0x1000 % 0x40) as char, (0x80 + n / 0x40 % 0x40) as char,
       (0x80 + n % 0x40) as char]
  }

  function Utf8(s: string): string {
    if s == [] then [] else Utf8Char(s[0]) + Utf8(s[1..])
  }

  /** `char::is_whitespace`. */
  predicate IsSpace(c: char) {
    var n := c as int;
    || 0x09 <= n <= 0x0d || n == 0x20 || n == 0x85 || n == 0xa0 || n == 0x1680 || 0x2000 <= n <= 0x200a
    || n == 0x2028 || n == 0x2029 || n == 0x202f || n == 0x205f || n == 0x3000
  }

  function TrimStart(s: string): string {
    if s == [] || !IsSpace(s[0]) then s else TrimStart(s[1..])
  }

  predicate StartsWith(s: string, prefix: string) {
    |prefix| <= |s| && s[..|prefix|] == prefix
  }

  function Stripped(s: string, prefix: string): string {
    if StartsWith(s, prefix) then s[|prefix|..] else s
  }

  predicate OpensTestMod(line: string) {
    StartsWith(TrimStart(line), "mod tests {") || StartsWith(TrimStart(line), "mod test {")
  }

  function NameEnd(s: string): (n: nat)
    ensures n <= |s|
  {
    if s == [] || s[0] == '(' || s[0] == '<' || IsSpace(s[0]) then 0 else 1 + NameEnd(s[1..])
  }

  predicate AllIdent(s: string) {
    forall i :: 0 <= i < |s| ==> IsIdent(s[i])
  }

  function BehindVisibility(t: string): string {
    if StartsWith(t, "pub(crate) ") then Stripped(t, "pub(crate) ")
    else if StartsWith(t, "pub(super) ") then Stripped(t, "pub(super) ")
    else Stripped(t, "pub ")
  }

  function BehindQualifiers(t: string): string {
    Stripped(Stripped(Stripped(t, "unsafe "), "async "), "extern \"C\" ")
  }

  function NameIn(d: string): Option<string> {
    if !StartsWith(d, "fn ") then None
    else
      var rest := d[3..];
      var n := NameEnd(rest);
      if n == 0 || n == |rest| || !AllIdent(rest[..n]) then None else Some(rest[..n])
  }

  /** The name a line declares a function under, if it does. */
  function FnName(line: string): Option<string> {
    NameIn(BehindQualifiers(BehindVisibility(TrimStart(line))))
  }

  /** What is carried from line to line. */
  datatype State = State(depth: int, block: nat, inTestMod: bool, testModDepth: int)

  const START := State(0, 0, false, 0)

  /** Entering a line: a test module opened at depth zero. */
  function Entered(s: State, line: string): State {
    if s.depth == 0 && OpensTestMod(line) then s.(inTestMod := true, testModDepth := s.depth + 1) else s
  }

  function Next(s: State, line: string): State {
    var e, r := Entered(s, line), Scan(Utf8(line), s.block);
    State(s.depth + r.delta, r.block, e.inTestMod && s.depth + r.delta >= e.testModDepth, e.testModDepth)
  }

  function After(s: State, lines: seq<string>): State {
    if lines == [] then s else Next(After(s, lines[..|lines| - 1]), lines[|lines| - 1])
  }

  /** The name found on a line entered in state `s`. */
  function Found(s: State, line: string): Option<string> {
    if Next(s, line).inTestMod || s.depth != 0 then None else FnName(line)
  }

  function Collected(s: State, lines: seq<string>): seq<(string, nat)> {
    if lines == [] then []
    else
      var n := |lines| - 1;
      var f := Found(After(s, lines[..n]), lines[n]);
      Collected(s, lines[..n]) + (if f.Some? then [(f.value, |lines|)] else [])
  }

  /** The body of the loop over lines. */
  method TakeLine(s: State, line: string) returns (s': State, name: Option<string>)
    ensures s' == Next(s, line) && name == Found(s, line)
  {
    var inTestMod, testModDepth := s.inTestMod, s.testModDepth;
    if s.depth == 0 && OpensTestMod(line) {
      inTestMod, testModDepth := true, s.depth + 1;
    }
    var delta, block := ScanLine(Utf8(line), s.block);
    var depth := s.depth + delta;
    if inTestMod && depth < testModDepth { inTestMod := false; }
    s' := State(depth, block, inTestMod, testModDepth);
    if inTestMod { return s', None; }
    if s.depth != 0 { return s', None; }
    name := FnName(line);
  }

  method CollectFreeFns(lines: seq<string>) returns (fns: seq<(string, nat)>)
    ensures fns == Collected(START, lines)
  {
    hide Next, Found;
    fns := [];
    var s := START;
    for lineno := 0 to |lines|
      invariant s == After(START, lines[..lineno]) && fns == Collected(START, lines[..lineno])
    {
      assert lines[..lineno + 1][..lineno] == lines[..lineno];
      var s', name := TakeLine(s, lines[lineno]);
      if name.Some? { fns := fns + [(name.value, lineno + 1)]; }
      s := s';
    }
    assert lines[..|lines|] == lines;
  }

  /** Scanning lines A and then B is scanning B from A's final state. */
  lemma {:induction false} AfterAppend(s: State, a: seq<string>, b: seq<string>)
    ensures After(s, a + b) == After(After(s, a), b)
  {
    if b == [] {
      assert a + b == a;
    } else {
      var n := |b| - 1;
      assert (a + b)[..|a + b| - 1] == a + b[..n];
      AfterAppend(s, a, b[..n]);
    }
  }
}
