/** The line scanner against the lexer of the language it scans: a line's code, with
    comments and literals taken out as Rust lexes them. The two differ only in what an
    apostrophe starts. */
module BraceReference {
  import opened Text
  import opened BraceScan
  import opened BraceIndependence

  // ----- a line's code -----

  predicate IsHex(c: char) {
    '0' <= c <= '9' || 'a' <= c <= 'f' || 'A' <= c <= 'F'
  }

  function HexSkip(s: string): (n: nat)
    ensures n <= |s|
  {
    if s == [] || !(IsHex(s[0]) || s[0] == '_') then 0 else 1 + HexSkip(s[1..])
  }

  /** The bytes of a character behind its first byte. */
  function Trail(s: string): (n: nat)
    ensures n <= |s|
  {
    if s == [] || !(0x80 <= s[0] as int < 0xC0) then 0 else 1 + Trail(s[1..])
  }

  /** The length of an escape, zero if there is none: the quote, ASCII and Unicode
      escapes of the Rust Reference's section on character literals. */
  function EscapeLength(s: string): (n: nat)
    requires s != []
    ensures n <= |s|
  {
    if |s| < 2 then 0
    else if s[1] in ['n', 'r', 't', '\\', '0', '\'', '"'] then 2
    else if s[1] == 'x' && |s| >= 4 && IsHex(s[2]) && IsHex(s[3]) then 4
    else if s[1] == 'u' && |s| >= 3 && s[2] == '{' then
      var n := HexSkip(s[3..]);
      if 3 + n < |s| && s[3 + n] == '}' then 4 + n else 0
    else 0
  }

  /** The length of the one character, or escape, that a character literal may hold. */
  function BodyLength(s: string): (n: nat)
    ensures n <= |s|
  {
    if s == [] || s[0] in ['\'', '\n', '\r', '\t'] then 0
    else if s[0] == '\\' then EscapeLength(s)
    else if s[0] as int < 0x80 then 1
    else 1 + Trail(s[1..])
  }

  /** Behind an apostrophe, one character or escape and another apostrophe. */
  predicate ClosesLiteral(s: string) {
    var n := BodyLength(s);
    0 < n < |s| && s[n] == '\''
  }

  predicate IsRawString(s: string) {
    s != [] && s[0] == 'r' && var h := Hashes(s[1..]); 1 + h < |s| && s[1 + h] == '"'
  }

  datatype Kind = Code | Literal | Comment

  datatype Token = Token(kind: Kind, n: nat, block: nat)

  function TokenAt(s: string, block: nat): (t: Token)
    requires s != []
    ensures 1 <= t.n <= |s| + 1 && (t.kind.Code? ==> t.n <= |s|)
  {
    if block > 0 then
      if Pair(s, '*', '/') then Token(Comment, 2, block - 1)
      else if Pair(s, '/', '*') then Token(Comment, 2, block + 1)
      else Token(Comment, 1, block)
    else if Pair(s, '/', '/') then Token(Comment, |s|, 0)
    else if Pair(s, '/', '*') then Token(Comment, 2, 1)
    else if s[0] == '"' then Token(Literal, 1 + StringSkip(s[1..]), 0)
    else if IsRawString(s) then Token(Literal, RawWidth(s), 0)
    else if s[0] == '\'' && ClosesLiteral(s[1..]) then Token(Literal, 2 + BodyLength(s[1..]), 0)
    else if s[0] == '\'' then Token(Code, 1 + IdentSkip(s[1..]), 0)
    else Token(Code, 1, 0)
  }

  /** What is code on a line, and the comment depth it leaves behind. */
  datatype Reading = Reading(code: string, block: nat) {
    function Behind(code': string): Reading { Reading(code' + code, block) }
  }

  function Read(s: string, block: nat): Reading
    decreases |s|
  {
    if s == [] then Reading([], block)
    else
      var t := TokenAt(s, block);
      Read(Rest(s, t.n), t.block).Behind(if t.kind.Code? then s[..t.n] else [])
  }

  function Braces(code: string): int {
    if code == [] then 0
    else (if code[0] == '{' then 1 else if code[0] == '}' then -1 else 0) + Braces(code[1..])
  }

  // ----- when the scan takes the lexer's steps -----

  /** An apostrophe is taken for what it is: a literal closes within the look-ahead, and
      a lifetime has no other apostrophe within it. */
  predicate Settled(s: string) {
    s != [] && s[0] == '\'' ==> if ClosesLiteral(s[1..]) then BodyLength(s[1..]) < CHAR_WINDOW else OpenApostrophe(s)
  }

  /** Every apostrophe of the line's code is. */
  predicate Tame(s: string, block: nat)
    decreases |s|
  {
    s != [] ==>
      var t := TokenAt(s, block);
      (block == 0 ==> Settled(s)) && Tame(Rest(s, t.n), t.block)
  }

  predicate Agrees(s: string, m: Step, t: Token) {
    if m.Stop? then t == Token(Comment, |s|, 0) else m.n == t.n && m.block == t.block
  }

  /** The scan goes through the line token by token. */
  predicate TakesTokens(s: string, block: nat)
    decreases |s|
  {
    s != [] ==>
      var t := TokenAt(s, block);
      Agrees(s, StepAt(s, block), t) && TakesTokens(Rest(s, t.n), t.block)
  }

  lemma {:induction false} PlainThenCloses(s: string, n: nat, left: nat)
    requires n < |s| && s[n] == '\'' && forall i :: 0 <= i < n ==> s[i] != '\'' && s[i] != '\\'
    ensures CloseIn(s, left, false) == if n < left then Some(n) else None
  {
    if n > 0 && left > 0 { PlainThenCloses(s[1..], n - 1, left - 1); }
  }

  lemma {:induction false} HexIsPlain(s: string, i: nat)
    requires i < HexSkip(s)
    ensures s[i] != '\'' && s[i] != '\\'
  {
    if i > 0 { HexIsPlain(s[1..], i - 1); }
  }

  lemma {:induction false} TrailIsPlain(s: string, i: nat)
    requires i < Trail(s)
    ensures s[i] != '\'' && s[i] != '\\'
  {
    if i > 0 { TrailIsPlain(s[1..], i - 1); }
  }

  lemma EscapeIsPlain(s: string, n: nat, i: nat)
    requires s != [] && s[0] == '\\' && n == EscapeLength(s) && 2 <= i < n
    ensures s[i] != '\'' && s[i] != '\\'
  {
    if s[1] == 'u' && 2 < i < n - 1 { HexIsPlain(s[3..], i - 3); }
  }

  lemma EscapeCloses(s: string, n: nat, left: nat)
    requires s != [] && s[0] == '\\' && n == EscapeLength(s) && 0 < n < |s| && s[n] == '\'' && left >= 2
    ensures CloseIn(s, left, false) == if n < left then Some(n) else None
  {
    assert n >= 2;
    hide EscapeLength;
    var t := s[1..][1..];
    assert t == s[2..];
    forall i | 0 <= i < n - 2
      ensures t[i] != '\'' && t[i] != '\\'
    {
      EscapeIsPlain(s, n, i + 2);
    }
    PlainThenCloses(t, n - 2, left - 2);
  }

  /** A literal's body hides no apostrophe from the look-ahead and shows none. */
  lemma BodyCloses(s: string, left: nat)
    requires ClosesLiteral(s) && left >= 2
    ensures CloseIn(s, left, false) == if BodyLength(s) < left then Some(BodyLength(s)) else None
  {
    var n := BodyLength(s);
    hide EscapeLength, CloseIn;
    if s[0] == '\\' {
      EscapeCloses(s, n, left);
    } else {
      forall i | 0 <= i < n
        ensures s[i] != '\'' && s[i] != '\\'
      {
        if i > 0 { TrailIsPlain(s[1..], i - 1); }
      }
      PlainThenCloses(s, n, left);
    }
  }

  lemma {:induction false} NoApostropheInIdent(s: string, left: nat)
    ensures var j := CloseIn(s, left, false); j.Some? ==> IdentSkip(s) <= j.value
  {
    if s != [] && left > 0 && s[0] != '\'' && s[0] != '\\' { NoApostropheInIdent(s[1..], left - 1); }
  }

  lemma ApostropheExactly(s: string)
    requires s != [] && s[0] == '\''
    ensures ApostropheWidth(s) == TokenAt(s, 0).n <==> Settled(s)
  {
    var t := s[1..];
    if ClosesLiteral(t) {
      BodyCloses(t, CHAR_WINDOW);
      if BodyLength(t) >= CHAR_WINDOW { assert IdentSkip(t) <= 1; }
    } else {
      NoApostropheInIdent(t, CHAR_WINDOW);
    }
  }

  lemma {:induction false} BracesAppend(a: string, b: string)
    ensures Braces(a + b) == Braces(a) + Braces(b)
  {
    if a == [] {
      assert a + b == b;
    } else {
      assert (a + b)[1..] == a[1..] + b;
      BracesAppend(a[1..], b);
    }
  }

  lemma {:induction false} NoBracesInIdent(s: string)
    ensures Braces(s[..IdentSkip(s)]) == 0
  {
    if IdentSkip(s) > 0 {
      assert s[..IdentSkip(s)][1..] == s[1..][..IdentSkip(s[1..])];
      NoBracesInIdent(s[1..]);
    }
  }

  lemma LifetimeHasNoBraces(s: string)
    requires s != [] && s[0] == '\''
    ensures Braces(s[..1 + IdentSkip(s[1..])]) == 0
  {
    NoBracesInIdent(s[1..]);
    assert s[..1 + IdentSkip(s[1..])] == ['\''] + s[1..][..IdentSkip(s[1..])];
    BracesAppend(['\''], s[1..][..IdentSkip(s[1..])]);
  }

  lemma OneByte(s: string)
    requires s != []
    ensures Braces(s[..1]) == if s[0] == '{' then 1 else if s[0] == '}' then -1 else 0
  {
    assert s[..1][1..] == [];
  }

  /** One step against one token. */
  lemma StepReads(s: string, block: nat, m: Step, t: Token)
    requires s != [] && m == StepAt(s, block) && t == TokenAt(s, block)
    ensures Agrees(s, m, t) <==> (block == 0 ==> Settled(s))
    ensures Agrees(s, m, t) && m.Move? ==> m.delta == if t.kind.Code? then Braces(s[..t.n]) else 0
    ensures m.Stop? ==> block == 0 && t.kind.Comment?
  {
    hide ClosesLiteral, ApostropheWidth, OpenApostrophe, Braces, StringSkip, RawSkip, IdentSkip;
    if block == 0 {
      if s[0] == '\'' {
        ApostropheExactly(s);
        LifetimeHasNoBraces(s);
      } else {
        OneByte(s);
      }
    }
  }

  /** The scan takes a line's tokens one by one exactly when every apostrophe of its
      code is settled: a literal's closing apostrophe is within the look-ahead, and a
      lifetime's look-ahead meets no apostrophe. */
  lemma {:induction false} TakesTokensExactlyWhenTame(s: string, block: nat)
    ensures TakesTokens(s, block) <==> Tame(s, block)
    decreases |s|
  {
    if s != [] {
      hide Settled, Agrees, StepAt, TokenAt;
      var t := TokenAt(s, block);
      StepReads(s, block, StepAt(s, block), t);
      TakesTokensExactlyWhenTame(Rest(s, t.n), t.block);
    }
  }

  /** The scan counts the braces of the line's code and no others. */
  predicate CountsItsCode(s: string, block: nat) {
    Scan(s, block) == Outcome(Braces(Read(s, block).code), Read(s, block).block)
  }

  lemma NothingRead(block: nat)
    ensures Read([], block) == Reading([], block) && CountsItsCode([], block)
  {
  }

  /** Reading goes on behind a token. */
  lemma ReadToken(s: string, block: nat, t: Token, rest: string)
    requires s != [] && t == TokenAt(s, block) && rest == Rest(s, t.n)
    ensures Read(s, block) == Read(rest, t.block).Behind(if t.kind.Code? then s[..t.n] else [])
    ensures Tame(s, block) <==> (block == 0 ==> Settled(s)) && Tame(rest, t.block)
  {
  }

  /** Reading and scanning past a settled token. */
  lemma TokenCounts(s: string, block: nat, t: Token)
    requires s != [] && t == TokenAt(s, block) && (block == 0 ==> Settled(s))
    ensures CountsItsCode(s, block) <==> CountsItsCode(Rest(s, t.n), t.block)
  {
    hide Settled, StepAt, TokenAt, Scan, Read, Braces;
    var m, rest := StepAt(s, block), Rest(s, t.n);
    StepReads(s, block, m, t);
    ScanStep(s, block, m, rest);
    NothingRead(t.block);
    ReadToken(s, block, t, rest);
    BracesAppend(if t.kind.Code? then s[..t.n] else [], Read(rest, t.block).code);
    NoBraces();
    if m.Stop? {
      assert rest == [];
    } else {
      assert Scan(s, block) == Scan(rest, t.block).Plus(m.delta);
    }
  }

  lemma NoBraces()
    ensures Braces([]) == 0
  {
  }

  /** On a tame line the scanner counts exactly the braces of code. */
  lemma {:induction false} TameLinesAreCountedExactly(s: string, block: nat)
    requires Tame(s, block)
    ensures CountsItsCode(s, block)
    decreases |s|
  {
    if s == [] {
      NothingRead(block);
    } else {
      hide Settled, TokenAt, CountsItsCode;
      var t := TokenAt(s, block);
      TameLinesAreCountedExactly(Rest(s, t.n), t.block);
      TokenCounts(s, block, t);
    }
  }

  /** The code of a whole file, line by line. */
  function ReadAll(lines: seq<string>): Reading {
    if lines == [] then Reading([], 0)
    else
      var n := |lines| - 1;
      Read(Utf8(lines[n]), ReadAll(lines[..n]).block).Behind(ReadAll(lines[..n]).code)
  }

  /** The depth a tame file's last line leaves is what its code's braces sum up to. */
  lemma {:induction false} DepthIsTheBracesOfCode(lines: seq<string>)
    requires forall i :: 0 <= i < |lines| ==> Tame(Utf8(lines[i]), ReadAll(lines[..i]).block)
    ensures After(START, lines).depth == Braces(ReadAll(lines).code)
    ensures After(START, lines).block == ReadAll(lines).block
  {
    hide Tame, Utf8, Read, Scan, Braces;
    if lines == [] {
      NoBraces();
    } else {
      var n := |lines| - 1;
      forall i | 0 <= i < n
        ensures Tame(Utf8(lines[..n][i]), ReadAll(lines[..n][..i]).block)
      {
        assert lines[..n][..i] == lines[..i];
      }
      DepthIsTheBracesOfCode(lines[..n]);
      var before := ReadAll(lines[..n]);
      TameLinesAreCountedExactly(Utf8(lines[n]), before.block);
      BracesAppend(before.code, Read(Utf8(lines[n]), before.block).code);
    }
  }

  // ----- between two apostrophes -----

  /** Code that holds no apostrophe, and nothing a comment or a literal starts with. */
  predicate Plain(g: string) {
    forall i :: 0 <= i < |g| ==> g[i] !in ['\'', '"', '/', '#', '\\']
  }

  /** A lifetime, code, and the next apostrophe with what it starts. */
  function Lifetime(name: string, gap: string, y: string): string {
    ['\''] + (name + (gap + (['\''] + y)))
  }

  predicate IsName(name: string, gap: string) {
    name != [] && AllIdent(name) && Plain(gap) && gap != [] && !IsIdent(gap[0])
  }

  lemma {:induction false} PlainReads(g: string, z: string)
    requires Plain(g) && z != [] && z[0] == '\''
    ensures Read(g + z, 0) == Read(z, 0).Behind(g) && (Tame(g + z, 0) <==> Tame(z, 0))
  {
    hide TokenAt, Settled, Read, Tame;
    var s := g + z;
    if g == [] {
      assert s == z && [] + Read(z, 0).code == Read(z, 0).code;
    } else {
      assert Rest(s, 1) == g[1..] + z;
      PlainToken(g, z);
      ReadToken(s, 0, Token(Code, 1, 0), g[1..] + z);
      PlainReads(g[1..], z);
      assert s[..1] + (g[1..] + Read(z, 0).code) == g + Read(z, 0).code;
    }
  }

  lemma PlainToken(g: string, z: string)
    requires Plain(g) && g != [] && z != [] && z[0] == '\''
    ensures TokenAt(g + z, 0) == Token(Code, 1, 0) && Settled(g + z)
  {
    var s := g + z;
    assert s[0] == g[0] && s[1] == (if |g| > 1 then g[1] else '\'');
    assert s[1..][0] == s[1];
  }

  lemma {:induction false} NameIsIdent(name: string, x: string)
    requires AllIdent(name) && x != [] && !IsIdent(x[0])
    ensures IdentSkip(name + x) == |name|
  {
    if name == [] {
      assert name + x == x;
    } else {
      assert (name + x)[1..] == name[1..] + x;
      NameIsIdent(name[1..], x);
    }
  }

  lemma LifetimeToken(name: string, gap: string, y: string)
    requires IsName(name, gap)
    ensures var s := Lifetime(name, gap, y);
      && TokenAt(s, 0) == Token(Code, 1 + |name|, 0)
      && CloseIn(s[1..], CHAR_WINDOW, false) == (if |name| + |gap| < CHAR_WINDOW then Some(|name| + |gap|) else None)
      && (Settled(s) <==> |name| + |gap| >= CHAR_WINDOW)
      && Rest(s, 1 + |name|) == gap + (['\''] + y)
  {
    var s := Lifetime(name, gap, y);
    var t := s[1..];
    assert t == name + (gap + (['\''] + y));
    var n := |name| + |gap|;
    forall i | 0 <= i < n
      ensures t[i] != '\'' && t[i] != '\\'
    {
      assert t[i] == if i < |name| then name[i] else gap[i - |name|];
    }
    assert t[n] == '\'';
    PlainThenCloses(t, n, CHAR_WINDOW);
    NameIsIdent(name, gap + (['\''] + y));
    assert BodyLength(t) == 1;
  }

  lemma LifetimeIsTame(name: string, gap: string, y: string)
    requires IsName(name, gap) && Tame(['\''] + y, 0) && |name| + |gap| >= CHAR_WINDOW
    ensures Tame(Lifetime(name, gap, y), 0)
  {
    hide TokenAt, Settled, Read, Tame;
    var s, z := Lifetime(name, gap, y), ['\''] + y;
    LifetimeToken(name, gap, y);
    ReadToken(s, 0, Token(Code, 1 + |name|, 0), gap + z);
    PlainReads(gap, z);
  }

  lemma LifetimeSwallows(name: string, gap: string, y: string)
    requires IsName(name, gap) && |name| + |gap| < CHAR_WINDOW
    ensures Scan(Lifetime(name, gap, y), 0) == Scan(y, 0)
  {
    hide TokenAt, Settled, Scan;
    var s := Lifetime(name, gap, y);
    LifetimeToken(name, gap, y);
    var n := 2 + |name| + |gap|;
    assert Rest(s, n) == y;
    ScanStep(s, 0, Move(n, 0, 0), y);
  }

  lemma LifetimeCode(name: string, gap: string, y: string)
    requires IsName(name, gap)
    ensures Read(Lifetime(name, gap, y), 0).code == ['\''] + name + (gap + Read(['\''] + y, 0).code)
  {
    hide TokenAt, Settled, Read, Tame;
    var s, z := Lifetime(name, gap, y), ['\''] + y;
    LifetimeToken(name, gap, y);
    ReadToken(s, 0, Token(Code, 1 + |name|, 0), gap + z);
    PlainReads(gap, z);
    assert s[..1 + |name|] == ['\''] + name;
  }

  /** Such a line from the lifetime on. */
  lemma LifetimeCounts(name: string, gap: string, y: string)
    requires IsName(name, gap) && Tame(['\''] + y, 0)
    ensures |name| + |gap| >= CHAR_WINDOW ==> CountsItsCode(Lifetime(name, gap, y), 0)
    ensures |name| + |gap| < CHAR_WINDOW ==> Scan(Lifetime(name, gap, y), 0) == Scan(y, 0)
    ensures Braces(Read(Lifetime(name, gap, y), 0).code)
      == Braces(['\''] + name) + Braces(gap) + Braces(Read(['\''] + y, 0).code)
  {
    hide Lifetime, IsName, Tame, Read, Scan, Braces, CountsItsCode;
    var code := Read(['\''] + y, 0).code;
    LifetimeCode(name, gap, y);
    BracesAppend(['\''] + name, gap + code);
    BracesAppend(gap, code);
    if |name| + |gap| >= CHAR_WINDOW {
      LifetimeIsTame(name, gap, y);
      TameLinesAreCountedExactly(Lifetime(name, gap, y), 0);
    } else {
      LifetimeSwallows(name, gap, y);
    }
  }

  // ----- what stands before -----

  /** Up to `k` the line is tame, and there it is in code. */
  predicate TameTo(s: string, block: nat, k: nat)
    requires k <= |s|
    decreases k
  {
    if k == 0 then block == 0
    else
      var t := TokenAt(s, block);
      (block == 0 ==> Settled(s)) && t.n <= k && TameTo(s[t.n..], t.block, k - t.n)
  }

  lemma {:induction false} TameToCounts(s: string, block: nat, k: nat)
    requires k <= |s| && TameTo(s, block, k)
    ensures CountsItsCode(s, block) <==> CountsItsCode(s[k..], 0)
    decreases k
  {
    if k == 0 {
      assert s[0..] == s;
    } else {
      hide TokenAt, Settled, CountsItsCode;
      var t := TokenAt(s, block);
      TokenCounts(s, block, t);
      TameToCounts(s[t.n..], t.block, k - t.n);
      assert s[t.n..][k - t.n..] == s[k..];
    }
  }

  lemma {:induction false} HexSame(p: string, x: string, y: string)
    ensures HexSkip(p + (['\''] + x)) == HexSkip(p + (['\''] + y)) <= |p|
  {
    if p != [] {
      assert (p + (['\''] + x))[1..] == p[1..] + (['\''] + x) && (p + (['\''] + y))[1..] == p[1..] + (['\''] + y);
      HexSame(p[1..], x, y);
    }
  }

  lemma {:induction false} TrailSame(p: string, x: string, y: string)
    ensures Trail(p + (['\''] + x)) == Trail(p + (['\''] + y)) <= |p|
  {
    if p != [] {
      assert (p + (['\''] + x))[1..] == p[1..] + (['\''] + x) && (p + (['\''] + y))[1..] == p[1..] + (['\''] + y);
      TrailSame(p[1..], x, y);
    }
  }

  lemma EscapeSame(p: string, x: string, y: string)
    requires |p| >= 2
    ensures EscapeLength(p + (['\''] + x)) == EscapeLength(p + (['\''] + y)) <= |p|
  {
    hide HexSkip;
    var s, t := p + (['\''] + x), p + (['\''] + y);
    assert s[1] == t[1] == p[1];
    if p[1] == 'x' {
      assert |p| > 2 ==> s[2] == t[2] == p[2];
      assert |p| > 3 ==> s[3] == t[3] == p[3];
      assert |p| == 2 ==> s[2] == t[2] == '\'';
      assert |p| == 3 ==> s[3] == t[3] == '\'';
    } else if p[1] == 'u' {
      assert |p| == 2 ==> s[2] == t[2] == '\'';
      if |p| > 2 {
        assert s[2] == t[2] == p[2];
        assert s[3..] == p[3..] + (['\''] + x) && t[3..] == p[3..] + (['\''] + y);
        HexSame(p[3..], x, y);
        var n := 3 + HexSkip(s[3..]);
        assert n < |p| ==> s[n] == t[n] == p[n];
        assert n == |p| ==> s[n] == t[n] == '\'';
      }
    }
  }

  lemma LiteralSame(p: string, x: string, y: string)
    requires Unescaped(p)
    ensures BodyLength(p + (['\''] + x)) == BodyLength(p + (['\''] + y)) <= |p|
    ensures ClosesLiteral(p + (['\''] + x)) == ClosesLiteral(p + (['\''] + y))
  {
    hide EscapeLength, Trail;
    var s, t := p + (['\''] + x), p + (['\''] + y);
    if p != [] {
      assert s[0] == t[0] == p[0];
      assert s[1..] == p[1..] + (['\''] + x) && t[1..] == p[1..] + (['\''] + y);
      TrailSame(p[1..], x, y);
      if p[0] == '\\' { EscapeSame(p, x, y); }
    }
    var n := BodyLength(s);
    assert n < |p| ==> s[n] == t[n] == p[n];
    assert n == |p| ==> s[n] == t[n] == '\'';
  }

  lemma OpenIsFar(p: string, x: string)
    requires p != [] && Unescaped(p) && OpenApostrophe(p + (['\''] + x))
    ensures |p| > CHAR_WINDOW
  {
    assert (p + (['\''] + x))[1..] == p[1..] + (['\''] + x);
    if |p| <= CHAR_WINDOW { ClosesBehind(p[1..], ['\''] + x, x, CHAR_WINDOW, false); }
  }

  lemma TokenSame(p: string, x: string, y: string, block: nat, t: Token)
    requires p != [] && Unescaped(p) && t == TokenAt(p + (['\''] + x), block) && t.n <= |p|
    requires block == 0 ==> Settled(p + (['\''] + x))
    ensures TokenAt(p + (['\''] + y), block) == t && (block == 0 ==> Settled(p + (['\''] + y)))
  {
    hide ClosesLiteral, OpenApostrophe, StepAt;
    var s, s' := p + (['\''] + x), p + (['\''] + y);
    var m := StepAt(s, block);
    StepReads(s, block, m, t);
    assert !(OpenApostrophe(s) && |p| <= CHAR_WINDOW) by { if OpenApostrophe(s) { OpenIsFar(p, x); } }
    StepSame(p, ['\''], x, y, block, m);
    assert s[1..] == p[1..] + (['\''] + x) && s'[1..] == p[1..] + (['\''] + y);
    LiteralSame(p[1..], x, y);
    StepReads(s', block, m, TokenAt(s', block));
  }

  lemma {:induction false} TameToSame(p: string, x: string, y: string, block: nat)
    requires Unescaped(p) && TameTo(p + (['\''] + x), block, |p|)
    ensures TameTo(p + (['\''] + y), block, |p|)
    decreases |p|
  {
    if p != [] {
      hide TokenAt, Settled, TameTo;
      var s, s' := p + (['\''] + x), p + (['\''] + y);
      var t := TokenAt(s, block);
      TameToToken(s, block, |p|, t);
      TokenSame(p, x, y, block, t);
      Tail(p, ['\''] + x, t.n);
      Tail(p, ['\''] + y, t.n);
      TameToSame(p[t.n..], x, y, t.block);
      TameToToken(s', block, |p|, t);
    }
  }

  lemma Tail(p: string, x: string, n: nat)
    requires n <= |p|
    ensures (p + x)[n..] == p[n..] + x
  {
  }

  lemma TameToToken(s: string, block: nat, k: nat, t: Token)
    requires 0 < k <= |s| && t == TokenAt(s, block)
    ensures TameTo(s, block, k) <==> (block == 0 ==> Settled(s)) && t.n <= k && TameTo(s[t.n..], t.block, k - t.n)
  {
  }

  // ----- the exact condition for the gap -----

  function Spaces(n: nat): (s: string)
    ensures |s| == n && forall i :: 0 <= i < n ==> s[i] == ' '
  {
    seq(n, i => ' ')
  }

  /** Behind a lifetime, the braces up to the next apostrophe are counted for what they
      are, whatever they are, exactly when the name and the code between are at least
      eleven bytes long. */
  lemma GapIsCountedExactlyWhenLong(p: string, name: string, gap: string, y: string, block: nat)
    requires IsName(name, gap) && Unescaped(p) && TameTo(p + Lifetime(name, gap, y), block, |p|) && Tame(['\''] + y, 0)
    ensures (forall g :: IsName(name, g) && |g| == |gap| ==> CountsItsCode(p + Lifetime(name, g, y), block))
      <==> |name| + |gap| >= CHAR_WINDOW
  {
    hide Unescaped, TameTo, Tame, CountsItsCode, Lifetime;
    if |name| + |gap| >= CHAR_WINDOW {
      forall g | IsName(name, g) && |g| == |gap|
        ensures CountsItsCode(p + Lifetime(name, g, y), block)
      {
        BehindPrefix(p, name, gap, g, y, block);
        LifetimeCounts(name, g, y);
      }
    } else {
      var g := Spaces(|gap|);
      var h := ['{'] + g[1..];
      BlankGaps(name, gap, g, h);
      BehindPrefix(p, name, gap, g, y, block);
      BehindPrefix(p, name, gap, h, y, block);
      ShortGapsDiffer(name, g, h, y);
    }
  }

  lemma BlankGaps(name: string, gap: string, g: string, h: string)
    requires IsName(name, gap) && g == Spaces(|gap|) && h == ['{'] + g[1..]
    ensures IsName(name, g) && IsName(name, h) && Braces(h) == Braces(g) + 1
  {
    assert g == [' '] + g[1..];
    assert h[1..] == g[1..];
  }

  lemma ShortGapsDiffer(name: string, g: string, h: string, y: string)
    requires IsName(name, g) && IsName(name, h) && |g| == |h| && |name| + |g| < CHAR_WINDOW
    requires Tame(['\''] + y, 0) && Braces(h) == Braces(g) + 1
    ensures !(CountsItsCode(Lifetime(name, g, y), 0) && CountsItsCode(Lifetime(name, h, y), 0))
  {
    hide IsName, Lifetime, Tame, Braces, Read, Scan;
    LifetimeCounts(name, g, y);
    LifetimeCounts(name, h, y);
  }

  lemma BehindPrefix(p: string, name: string, gap: string, g: string, y: string, block: nat)
    requires Unescaped(p) && TameTo(p + Lifetime(name, gap, y), block, |p|)
    ensures CountsItsCode(p + Lifetime(name, g, y), block) <==> CountsItsCode(Lifetime(name, g, y), 0)
  {
    hide TameTo, CountsItsCode;
    TameToSame(p, name + (gap + (['\''] + y)), name + (g + (['\''] + y)), block);
    TameToCounts(p + Lifetime(name, g, y), block, |p|);
    assert (p + Lifetime(name, g, y))[|p|..] == Lifetime(name, g, y);
  }

  // ----- two lines that are counted wrong -----

  lemma {:induction false} NoBracesIn(s: string)
    requires '{' !in s && '}' !in s
    ensures Braces(s) == 0
  {
    if s != [] { NoBracesIn(s[1..]); }
  }

  lemma {:induction false} NothingCloses(s: string, left: nat, escape: bool)
    requires '\'' !in s
    ensures CloseIn(s, left, escape).None?
  {
    if s != [] && left > 0 { NothingCloses(s[1..], left - 1, s[0] == '\\' && !escape); }
  }

  lemma {:induction false} PlainEnd(g: string)
    requires Plain(g)
    ensures Read(g, 0) == Reading(g, 0) && Tame(g, 0)
  {
    if g != [] {
      hide Read, Tame, Settled;
      assert TokenAt(g, 0) == Token(Code, 1, 0) && Settled(g) && Rest(g, 1) == g[1..];
      ReadToken(g, 0, Token(Code, 1, 0), g[1..]);
      PlainEnd(g[1..]);
      assert g[..1] + g[1..] == g;
    }
  }

  /** A lifetime with no apostrophe behind it. */
  lemma LastLifetime(name: string, gap: string)
    requires IsName(name, gap)
    ensures var s := ['\''] + (name + gap); Tame(s, 0) && Read(s, 0) == Reading(s, 0)
  {
    hide Read, Tame;
    var s := ['\''] + (name + gap);
    assert s[1..] == name + gap && Rest(s, 1 + |name|) == gap;
    assert forall i :: 0 <= i < |name| ==> name[i] != '\'';
    NothingCloses(s[1..], CHAR_WINDOW, false);
    NameIsIdent(name, gap);
    assert BodyLength(s[1..]) == 1 && s[1..][1] != '\'';
    ReadToken(s, 0, Token(Code, 1 + |name|, 0), gap);
    PlainEnd(gap);
    assert s[..1 + |name|] + gap == s;
  }

  lemma BraceBetween(a: string, b: string)
    requires '{' !in a && '}' !in a && '{' !in b && '}' !in b
    ensures Braces(a + (['{'] + b)) == 1
  {
    NoBracesIn(a);
    NoBracesIn(b);
    BracesAppend(a, ['{'] + b);
    BracesAppend(['{'], b);
    OneByte(['{']);
    assert ['{'][..1] == ['{'];
  }

  lemma NameIsPlain(name: string, gap: string)
    requires IsName(name, gap)
    ensures Plain(name + gap)
  {
  }

  /** `'a>{x:&'a u8}` and the like: the first lifetime's look-ahead takes the second
      one's apostrophe for its own, and the opening brace between them is not counted. */
  lemma BraceBetweenLifetimesMissed(name: string, gap: string)
    requires IsName(name, gap)
    ensures var line := Lifetime("a", ">{x:&", name + gap);
      Read(line, 0).code == line && Scan(line, 0).delta == Braces(line) - 1
  {
    hide IsName, Read, Tame, Scan, Braces, Lifetime, Plain;
    var between, rest := ">{x:&", name + gap;
    LastLifetime(name, gap);
    NameIsPlain(name, gap);
    PlainEnd(rest);
    TameLinesAreCountedExactly(rest, 0);
    ShortGap();
    LifetimeCounts("a", between, rest);
    ReadsWhole("a", between, rest);
    BracesAppend(['\''], rest);
    NoBracesIn(['\'']);
    NoBracesIn(['\''] + "a");
    assert between == ">" + (['{'] + "x:&");
    BraceBetween(">", "x:&");
  }

  lemma ShortGap()
    ensures IsName("a", ">{x:&")
  {
  }

  lemma ReadsWhole(name: string, gap: string, y: string)
    requires IsName(name, gap) && Read(['\''] + y, 0) == Reading(['\''] + y, 0)
    ensures Read(Lifetime(name, gap, y), 0).code == Lifetime(name, gap, y)
  {
    hide Read, TokenAt, Settled, Tame;
    var s, z := Lifetime(name, gap, y), ['\''] + y;
    var k, rest := 1 + |name|, gap + z;
    LifetimeToken(name, gap, y);
    hide Lifetime;
    PlainReads(gap, z);
    assert Read(rest, 0) == Reading(rest, 0);
    ReadToken(s, 0, Token(Code, k, 0), rest);
    TwoParts(s, k, rest);
  }

  lemma TwoParts(s: string, k: nat, rest: string)
    requires k <= |s| && rest == Rest(s, k)
    ensures s[..k] + rest == s
  {
  }

  /** `'a>('{'…`: what stands in the literal is counted, whatever follows it. */
  lemma BraceInLiteralCounted(r: string)
    ensures Scan(WithChar("'a>(", ['{'], r), 0) == Scan(WithChar("'a>(", ['x'], r), 0).Plus(1)
  {
    hide Scan;
    var close := ['\''] + r;
    ResumesInside('{', r);
    ResumesInside('x', r);
    BraceOpens(close);
    var s := ['x'] + close;
    assert Rest(s, 1) == close;
    ScanStep(s, 0, Move(1, 0, 0), close);
  }

  lemma ResumesInside(c: char, r: string)
    ensures Scan(WithChar("'a>(", [c], r), 0) == Scan([c] + (['\''] + r), 0)
  {
    hide Scan, StepAt, CloseIn;
    var p, y := "'a>(", [c] + (['\''] + r);
    assert (p + ([] + [' ']))[1..] == "a>( ";
    NothingCloses("a>( ", CHAR_WINDOW, false);
    Swallows(p, [], [' '], y);
    assert p + ([] + (['\''] + y)) == WithChar(p, [c], r);
    assert Rest(WithChar(p, [c], r), 5) == y;
    ScanStep(WithChar(p, [c], r), 0, Move(5, 0, 0), y);
  }
}
