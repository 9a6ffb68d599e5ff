/** What the line scanner's depths do not depend on: the text of comments and what
    literals hold, up to the look-ahead for a character literal's closing apostrophe. */
module BraceIndependence {
  import opened Text
  import opened BraceScan

  // ----- how the scan gets somewhere -----

  /** The scan stops at `k`, outside comments and literals. */
  predicate Arrives(s: string, block: nat, k: nat)
    requires k <= |s|
    decreases k
  {
    if k == 0 then block == 0
    else
      var m := StepAt(s, block);
      m.Move? && m.n <= k && Arrives(s[m.n..], m.block, k - m.n)
  }

  function DeltaTo(s: string, block: nat, k: nat): int
    requires k <= |s| && Arrives(s, block, k)
    decreases k
  {
    if k == 0 then 0
    else
      var m := StepAt(s, block);
      m.delta + DeltaTo(s[m.n..], m.block, k - m.n)
  }

  /** On the way, an apostrophe that closes nothing stood at most `reach` before `k`:
      its look-ahead went past `k`. */
  predicate Reaching(s: string, block: nat, k: nat, reach: nat)
    requires k <= |s| && Arrives(s, block, k)
    decreases k
  {
    k > 0 &&
    var m := StepAt(s, block);
    (block == 0 && OpenApostrophe(s) && k <= reach) || Reaching(s[m.n..], m.block, k - m.n, reach)
  }

  lemma {:induction false} ScanFrom(s: string, block: nat, k: nat, r: Outcome)
    requires k <= |s| && Arrives(s, block, k) && r == Scan(s[k..], 0)
    ensures Scan(s, block) == r.Plus(DeltaTo(s, block, k))
    decreases k
  {
    hide InCode, InComment;
    if k == 0 {
      assert s[0..] == s;
    } else {
      var m := StepAt(s, block);
      var rest := s[m.n..];
      assert rest[k - m.n..] == s[k..];
      ScanFrom(rest, m.block, k - m.n, r);
      ScanStep(s, block, m, rest);
    }
  }

  // ----- skips that end before a point do not see what is behind it -----

  lemma {:induction false} StringSame(p: string, x: string, y: string)
    requires x != [] && StringSkip(p + x) <= |p|
    ensures StringSkip(p + y) == StringSkip(p + x)
    decreases |p|
  {
    if p != [] {
      assert (p + x)[1..] == p[1..] + x && (p + y)[1..] == p[1..] + y;
      if p[0] == '\\' {
        if |p| >= 2 {
          assert Rest(p + x, 2) == p[2..] + x && Rest(p + y, 2) == p[2..] + y;
          StringSame(p[2..], x, y);
        }
      } else if p[0] != '"' {
        StringSame(p[1..], x, y);
      }
    }
  }

  lemma {:induction false} HashesSame(p: string, x: string, y: string)
    requires x != [] && x[0] != '#' && y != [] && y[0] != '#'
    ensures Hashes(p + x) == Hashes(p + y) <= |p|
  {
    if p == [] {
      assert p + x == x && p + y == y;
    } else {
      assert (p + x)[1..] == p[1..] + x && (p + y)[1..] == p[1..] + y;
      HashesSame(p[1..], x, y);
    }
  }

  lemma {:induction false} HashesEnd(p: string, x: string)
    requires x != [] && x[0] != '#'
    ensures Hashes(p + x) == Hashes(p)
  {
    if p == [] {
      assert p + x == x;
    } else {
      assert (p + x)[1..] == p[1..] + x;
      HashesEnd(p[1..], x);
    }
  }

  lemma {:induction false} RawSame(p: string, x: string, y: string, hashes: nat)
    requires x != [] && x[0] != '#' && y != [] && y[0] != '#' && RawSkip(p + x, hashes) <= |p|
    ensures RawSkip(p + y, hashes) == RawSkip(p + x, hashes)
  {
    if p != [] {
      assert (p + x)[1..] == p[1..] + x && (p + y)[1..] == p[1..] + y;
      HashesSame(p[1..], x, y);
      if p[0] != '"' || Hashes(p[1..] + x) < hashes { RawSame(p[1..], x, y, hashes); }
    }
  }

  lemma {:induction false} IdentSame(p: string, x: string, y: string)
    requires x != [] && y != [] && (x[0] == y[0] || (!IsIdent(x[0]) && !IsIdent(y[0]))) && IdentSkip(p + x) <= |p|
    ensures IdentSkip(p + x) == IdentSkip(p + y)
  {
    if p == [] {
      assert p + x == x && p + y == y;
    } else {
      assert (p + x)[1..] == p[1..] + x && (p + y)[1..] == p[1..] + y;
      if IsIdent(p[0]) { IdentSame(p[1..], x, y); }
    }
  }

  lemma {:induction false} CloseSame(w: string, x: string, y: string, left: nat, escape: bool)
    requires left <= |w| || (CloseIn(w + x, left, escape).Some? && CloseIn(w + x, left, escape).value < |w|)
    ensures CloseIn(w + y, left, escape) == CloseIn(w + x, left, escape)
  {
    if w == [] {
    } else {
      assert (w + x)[0] == w[0] == (w + y)[0];
      assert (w + x)[1..] == w[1..] + x && (w + y)[1..] == w[1..] + y;
      if left > 0 && !(!escape && w[0] == '\'') { CloseSame(w[1..], x, y, left - 1, w[0] == '\\' && !escape); }
    }
  }

  /** An apostrophe put right behind the part of the window that closed nothing closes
      there. */
  lemma {:induction false} ClosesBehind(w: string, x: string, y: string, left: nat, escape: bool)
    requires |w| < left && CloseIn(w + x, left, escape).None?
    requires if w == [] then !escape else w[|w| - 1] != '\\'
    ensures CloseIn(w + (['\''] + y), left, escape) == Some(|w|)
  {
    var t := w + (['\''] + y);
    if w == [] {
      assert t[0] == '\'';
    } else {
      assert (w + x)[1..] == w[1..] + x && t[1..] == w[1..] + (['\''] + y);
      ClosesBehind(w[1..], x, y, left - 1, w[0] == '\\' && !escape);
    }
  }

  // ----- a step before the opener -----

  /** The fixed text a comment or a literal starts with. */
  predicate IsOpener(d: string) {
    d != [] && d[0] != '#' && d[|d| - 1] != '\\'
  }

  /** A byte that no step before it looks at. */
  predicate Bland(x: string) {
    x != [] && !IsIdent(x[0]) && x[0] !in ['#', '"', '/', '*']
  }

  /** Two ways a line can go on: behind the same opener, or differently at once, if no
      step looks at the byte that stands there. */
  predicate Fork(d: string, x: string, y: string) {
    IsOpener(d) || (d == [] && Bland(x) && Bland(y))
  }

  /** How far before the opener an apostrophe can look past it. */
  function Reach(d: string): nat {
    if |d| >= CHAR_WINDOW then 0 else CHAR_WINDOW - |d|
  }

  lemma RawWidthSame(p: string, d: string, x: string, y: string)
    requires Fork(d, x, y) && p != [] && RawWidth(p + (d + x)) <= |p|
    ensures RawWidth(p + (d + y)) == RawWidth(p + (d + x))
  {
    hide Hashes, RawSkip;
    var X, Y := d + x, d + y;
    var s, t := p + X, p + Y;
    assert s[1..] == p[1..] + X && t[1..] == p[1..] + Y;
    HashesSame(p[1..], X, Y);
    var h := Hashes(s[1..]);
    if 1 + h < |p| {
      assert s[1 + h] == p[1 + h] == t[1 + h];
      if p[1 + h] == '"' {
        assert s[2 + h..] == p[2 + h..] + X && t[2 + h..] == p[2 + h..] + Y;
        RawSame(p[2 + h..], X, Y, h);
      }
    } else {
      assert s[1 + h] == X[0] && t[1 + h] == Y[0];
    }
  }

  lemma ApostropheSame(p: string, d: string, x: string, y: string)
    requires Fork(d, x, y) && p != [] && ApostropheWidth(p + (d + x)) <= |p|
    requires p[0] == '\'' && !(OpenApostrophe(p + (d + x)) && |p| <= Reach(d))
    ensures ApostropheWidth(p + (d + y)) == ApostropheWidth(p + (d + x))
    ensures OpenApostrophe(p + (d + y)) == OpenApostrophe(p + (d + x))
  {
    var X, Y := d + x, d + y;
    assert (p + X)[1..] == p[1..] + X && (p + Y)[1..] == p[1..] + Y;
    if OpenApostrophe(p + X) {
      var w := p[1..] + d;
      assert p[1..] + X == w + x && p[1..] + Y == w + y;
      CloseSame(w, x, y, CHAR_WINDOW, false);
      IdentSame(p[1..], X, Y);
    } else {
      CloseSame(p[1..], X, Y, CHAR_WINDOW, false);
    }
  }

  lemma StepSame(p: string, d: string, x: string, y: string, block: nat, m: Step)
    requires Fork(d, x, y) && p != [] && m == StepAt(p + (d + x), block) && m.Move? && m.n <= |p|
    requires !(block == 0 && OpenApostrophe(p + (d + x)) && |p| <= Reach(d))
    ensures StepAt(p + (d + y), block) == m
    ensures block == 0 ==> OpenApostrophe(p + (d + y)) == OpenApostrophe(p + (d + x))
  {
    var s, t := p + (d + x), p + (d + y);
    assert s[0] == p[0] == t[0];
    assert s[1] == t[1] || (|p| == 1 && Bland([s[1]]) && Bland([t[1]])) by {
      if |p| == 1 { assert s[1] == (d + x)[0] && t[1] == (d + y)[0]; }
    }
    if block == 0 {
      if p[0] == '"' {
        assert s[1..] == p[1..] + (d + x) && t[1..] == p[1..] + (d + y);
        StringSame(p[1..], d + x, d + y);
      } else if p[0] == 'r' {
        if Pair(s, 'r', '"') || Pair(s, 'r', '#') { RawWidthSame(p, d, x, y); }
      } else if p[0] == '\'' {
        ApostropheSame(p, d, x, y);
      }
    }
  }

  /** Without a look-ahead past the opener, what follows it does not change how the
      scan gets there. */
  lemma {:induction false} ArrivesSame(p: string, d: string, x: string, y: string, block: nat)
    requires Fork(d, x, y) && Arrives(p + (d + x), block, |p|) && !Reaching(p + (d + x), block, |p|, Reach(d))
    ensures Arrives(p + (d + y), block, |p|) && DeltaTo(p + (d + y), block, |p|) == DeltaTo(p + (d + x), block, |p|)
    decreases |p|
  {
    if p != [] {
      var s, t := p + (d + x), p + (d + y);
      var m := StepAt(s, block);
      StepSame(p, d, x, y, block, m);
      assert s[m.n..] == p[m.n..] + (d + x) && t[m.n..] == p[m.n..] + (d + y);
      ArrivesSame(p[m.n..], d, x, y, m.block);
    }
  }

  /** The braces counted before the look-ahead that goes past the opener. */
  function DetourDelta(s: string, block: nat, k: nat, reach: nat): int
    requires k <= |s| && Arrives(s, block, k) && Reaching(s, block, k, reach)
    decreases k
  {
    if block == 0 && OpenApostrophe(s) && k <= reach then 0
    else
      var m := StepAt(s, block);
      m.delta + DetourDelta(s[m.n..], m.block, k - m.n, reach)
  }

  /** The last byte before an apostrophe does not hide it. */
  predicate Unescaped(p: string) {
    p != [] ==> p[|p| - 1] != '\\'
  }

  lemma Swallows(p: string, d: string, x: string, y: string)
    requires Unescaped(p + d) && p != [] && OpenApostrophe(p + (d + x)) && |p| <= Reach(d)
    ensures StepAt(p + (d + (['\''] + y)), 0) == Move(|p| + |d| + 1, 0, 0)
  {
    var w := p[1..] + d;
    var t := p + (d + (['\''] + y));
    assert (p + (d + x))[1..] == w + x && t[1..] == w + (['\''] + y);
    ClosesBehind(w, x, y, CHAR_WINDOW, false);
  }

  /** With such a look-ahead, contents that start with an apostrophe swallow the opener
      and the scan resumes inside them. */
  lemma {:induction false} Diverts(p: string, d: string, x: string, y: string, block: nat, r: Outcome)
    requires Fork(d, x, ['\''] + y) && Unescaped(p + d)
    requires Arrives(p + (d + x), block, |p|) && Reaching(p + (d + x), block, |p|, Reach(d))
    requires r == Scan(y, 0)
    ensures Scan(p + (d + (['\''] + y)), block) == r.Plus(DetourDelta(p + (d + x), block, |p|, Reach(d)))
    decreases |p|
  {
    hide StepAt, Scan, OpenApostrophe, Fork;
    var s, t := p + (d + x), p + (d + (['\''] + y));
    if block == 0 && OpenApostrophe(s) && |p| <= Reach(d) {
      Swallows(p, d, x, y);
      assert Rest(t, |p| + |d| + 1) == y;
      ScanStep(t, 0, Move(|p| + |d| + 1, 0, 0), y);
    } else {
      var m := StepAt(s, block);
      var p' := p[m.n..];
      StepSame(p, d, x, ['\''] + y, block, m);
      assert s[m.n..] == p' + (d + x) && t[m.n..] == p' + (d + (['\''] + y));
      Diverts(p', d, x, y, m.block, r);
      ScanStep(t, block, m, t[m.n..]);
    }
  }

  // ----- comments and literals -----

  function WithComment(p: string, c: string): string {
    p + (['/', '/'] + c)
  }

  /** What can hold braces that are not code, besides line comments: strings, raw
      strings with some number of hashes, block comments. */
  datatype Literal = Str | Raw(hashes: nat) | Block

  function HashRun(n: nat): (s: string)
    ensures |s| == n && forall i :: 0 <= i < n ==> s[i] == '#'
  {
    seq(n, i => '#')
  }

  function Opener(l: Literal): (d: string)
    ensures IsOpener(d)
  {
    match l
    case Str => ['"']
    case Raw(n) => ['r'] + (HashRun(n) + ['"'])
    case Block => ['/', '*']
  }

  function Closer(l: Literal): string {
    match l
    case Str => ['"']
    case Raw(n) => ['"'] + HashRun(n)
    case Block => ['*', '/']
  }

  /** In a string, a backslash keeps the byte behind it from ending it. */
  predicate InsideString(c: string)
    decreases |c|
  {
    || c == []
    || (c[0] == '\\' && |c| >= 2 && InsideString(c[2..]))
    || (c[0] !in ['\\', '"'] && InsideString(c[1..]))
  }

  /** In a raw string, quotes with too few hashes behind them do not end it. */
  predicate InsideRaw(n: nat, c: string) {
    c == [] || ((c[0] == '"' ==> Hashes(c[1..]) < n) && InsideRaw(n, c[1..]))
  }

  /** In a block comment, comments may be nested; `depth` is the depth `c` starts at. */
  predicate InsideBlock(c: string, depth: nat)
    decreases |c|
  {
    if c == [] then depth == 1
    else if Pair(c, '*', '/') then depth > 1 && InsideBlock(c[2..], depth - 1)
    else if Pair(c, '/', '*') then InsideBlock(c[2..], depth + 1)
    else c != ['/'] && InsideBlock(c[1..], depth)
  }

  /** Contents that do not end the literal. */
  predicate Inside(l: Literal, c: string) {
    match l
    case Str => InsideString(c)
    case Raw(n) => InsideRaw(n, c)
    case Block => InsideBlock(c, 1)
  }

  function WithLiteral(l: Literal, p: string, c: string, r: string): string {
    p + (Opener(l) + (c + (Closer(l) + r)))
  }

  lemma CommentEnds(c: string)
    ensures Scan(['/', '/'] + c, 0) == Outcome(0, 0)
  {
    var s := ['/', '/'] + c;
    assert s[0] == '/' && s[1] == '/';
    ScanStep(s, 0, Stop, s);
  }

  lemma {:induction false} StringInside(c: string, r: string)
    requires InsideString(c)
    ensures StringSkip(c + (['"'] + r)) == |c| + 1 && StringSkip(c) == |c|
    decreases |c|
  {
    var s := c + (['"'] + r);
    if c != [] {
      if c[0] == '\\' {
        assert Rest(s, 2) == c[2..] + (['"'] + r) && Rest(c, 2) == c[2..];
        StringInside(c[2..], r);
      } else {
        assert s[1..] == c[1..] + (['"'] + r);
        StringInside(c[1..], r);
      }
    }
  }

  lemma {:induction false} HashesInRun(n: nat, rest: string)
    ensures Hashes(HashRun(n) + rest) == n + Hashes(rest)
  {
    if n == 0 {
      assert HashRun(n) + rest == rest;
    } else {
      assert (HashRun(n) + rest)[1..] == HashRun(n - 1) + rest;
      HashesInRun(n - 1, rest);
    }
  }

  lemma {:induction false} RawInside(n: nat, c: string, r: string)
    requires InsideRaw(n, c)
    ensures RawSkip(c + (Closer(Raw(n)) + r), n) == |c| + 1 + n && RawSkip(c, n) == |c|
  {
    var close := Closer(Raw(n)) + r;
    var s := c + close;
    if c == [] {
      assert s == close && close[1..] == HashRun(n) + r;
      HashesInRun(n, r);
    } else {
      assert s[1..] == c[1..] + close;
      HashesEnd(c[1..], close);
      RawInside(n, c[1..], r);
    }
  }

  lemma {:induction false} StringEndsTooSoonOrLate(c: string)
    requires !InsideString(c)
    ensures StringSkip(c + ['"', ' ']) != |c| + 1
    decreases |c|
  {
    var s := c + ['"', ' '];
    if c == ['\\'] {
      assert Rest(s, 2) == [' '];
      assert [' '][1..] == [] && StringSkip([' ']) == 1;
    } else if c[0] == '\\' {
      assert Rest(s, 2) == c[2..] + ['"', ' '];
      StringEndsTooSoonOrLate(c[2..]);
    } else if c[0] != '"' {
      assert s[1..] == c[1..] + ['"', ' '];
      StringEndsTooSoonOrLate(c[1..]);
    }
  }

  lemma {:induction false} RawEndsTooSoon(n: nat, c: string, r: string)
    requires !InsideRaw(n, c)
    ensures RawSkip(c + (Closer(Raw(n)) + r), n) != |c| + 1 + n
  {
    var close := Closer(Raw(n)) + r;
    assert (c + close)[1..] == c[1..] + close;
    if c[0] == '"' && Hashes(c[1..]) >= n {
      HashesEnd(c[1..], close);
    } else {
      HashesEnd(c[1..], close);
      RawEndsTooSoon(n, c[1..], r);
    }
  }

  /** With `r` behind the closer, the literal's own skip ends right behind the closer. */
  predicate SkipEndsAtCloser(l: Literal, c: string, r: string) {
    StepAt(Opener(l) + (c + (Closer(l) + r)), 0) == Move(|Opener(l)| + |c| + |Closer(l)|, 0, 0)
  }

  /** Contents are exactly what the literal's own skip takes, whatever follows; a space
      behind the closer is enough to tell. */
  lemma InsideExactlyWhenTheSkipEndsThere(l: Literal, c: string, r: string)
    requires !l.Block?
    ensures Inside(l, c) ==> SkipEndsAtCloser(l, c, r)
    ensures SkipEndsAtCloser(l, c, [' ']) ==> Inside(l, c)
  {
    hide InsideString, InsideRaw, StepAt;
    SkipWidth(l, c, r);
    SkipWidth(l, c, [' ']);
    assert ['"'] + [' '] == ['"', ' '];
    if Inside(l, c) {
      if l.Str? { StringInside(c, r); } else { RawInside(l.hashes, c, r); }
    } else {
      if l.Str? { StringEndsTooSoonOrLate(c); } else { RawEndsTooSoon(l.hashes, c, [' ']); }
    }
  }

  lemma SkipWidth(l: Literal, c: string, r: string)
    requires !l.Block?
    ensures var rest := c + (Closer(l) + r);
      StepAt(Opener(l) + rest, 0) == Move(|Opener(l)| + (if l.Str? then StringSkip(rest) else RawSkip(rest, l.hashes)), 0, 0)
  {
    var rest := c + (Closer(l) + r);
    if l.Str? {
      assert (Opener(l) + rest)[1..] == rest;
    } else {
      RawOpens(l.hashes, rest);
    }
  }

  lemma RawWidthOf(n: nat, rest: string)
    ensures RawWidth(Opener(Raw(n)) + rest) == 2 + n + RawSkip(rest, n)
  {
    hide RawSkip, Hashes, HashRun;
    var s := Opener(Raw(n)) + rest;
    HashesInRun(n, ['"'] + rest);
    NoHashes(['"'] + rest);
    assert s[1..] == HashRun(n) + (['"'] + rest);
    assert s[1 + n] == '"' && s[2 + n..] == rest;
  }

  lemma NoHashes(s: string)
    requires s != [] && s[0] != '#'
    ensures Hashes(s) == 0
  {
  }

  lemma RawOpens(n: nat, rest: string)
    ensures StepAt(Opener(Raw(n)) + rest, 0) == Move(2 + n + RawSkip(rest, n), 0, 0)
  {
    hide RawSkip, RawWidth, HashRun, StringSkip, ApostropheWidth;
    var s := Opener(Raw(n)) + rest;
    RawWidthOf(n, rest);
    assert s[0] == 'r' && s[1] == if n == 0 then '"' else '#';
  }

  lemma {:induction false} BlockInside(c: string, r: string, depth: nat)
    requires depth > 0 && InsideBlock(c, depth)
    ensures Scan(c + (['*', '/'] + r), depth) == Scan(r, 0) && Scan(c, depth) == Outcome(0, 1)
    decreases |c|
  {
    hide InCode, Scan;
    var close := ['*', '/'] + r;
    var s := c + close;
    if c == [] {
      assert s == close && Rest(close, 2) == r;
      ScanStep(s, 1, Move(2, 0, 0), r);
      NothingScanned(1);
    } else {
      assert s[0] == c[0] && s[1] == (if |c| > 1 then c[1] else '*');
      var n := if Pair(c, '*', '/') || Pair(c, '/', '*') then 2 else 1;
      var depth' := if Pair(c, '*', '/') then depth - 1 else if Pair(c, '/', '*') then depth + 1 else depth;
      BlockInside(c[n..], r, depth');
      assert Rest(s, n) == c[n..] + close && Rest(c, n) == c[n..];
      ScanStep(s, depth, Move(n, 0, depth'), Rest(s, n));
      ScanStep(c, depth, Move(n, 0, depth'), Rest(c, n));
    }
  }

  /** Behind a closed literal the scan goes on; a string left open is forgotten at the
      end of its line, a block comment is not. */
  lemma LiteralEnds(l: Literal, c: string, r: string)
    requires Inside(l, c)
    ensures Scan(Opener(l) + (c + (Closer(l) + r)), 0) == Scan(r, 0)
    ensures Scan(Opener(l) + c, 0) == Outcome(0, if l.Block? then 1 else 0)
  {
    match l
    case Str => StringEnds(c, r);
    case Raw(n) => RawEnds(n, c, r);
    case Block => BlockEnds(c, r);
  }

  lemma NothingScanned(block: nat)
    ensures Scan([], block) == Outcome(0, block)
  {
  }

  lemma StringEnds(c: string, r: string)
    requires Inside(Str, c)
    ensures Scan(Opener(Str) + (c + (Closer(Str) + r)), 0) == Scan(r, 0) && Scan(Opener(Str) + c, 0) == Outcome(0, 0)
  {
    hide Scan;
    var s, t := ['"'] + (c + (['"'] + r)), ['"'] + c;
    StringInside(c, r);
    assert s[1..] == c + (['"'] + r) && t[1..] == c;
    assert Rest(s, |c| + 2) == r && Rest(t, |c| + 1) == [];
    ScanStep(s, 0, Move(|c| + 2, 0, 0), r);
    ScanStep(t, 0, Move(|c| + 1, 0, 0), []);
    NothingScanned(0);
  }

  lemma RawEnds(n: nat, c: string, r: string)
    requires Inside(Raw(n), c)
    ensures Scan(Opener(Raw(n)) + (c + (Closer(Raw(n)) + r)), 0) == Scan(r, 0)
    ensures Scan(Opener(Raw(n)) + c, 0) == Outcome(0, 0)
  {
    hide Scan, StepAt;
    var rest := c + (Closer(Raw(n)) + r);
    RawInside(n, c, r);
    RawOpens(n, rest);
    RawOpens(n, c);
    assert Rest(Opener(Raw(n)) + rest, 2 + n + (|c| + 1 + n)) == r;
    assert Rest(Opener(Raw(n)) + c, 2 + n + |c|) == [];
    ScanStep(Opener(Raw(n)) + rest, 0, Move(2 + n + (|c| + 1 + n), 0, 0), r);
    ScanStep(Opener(Raw(n)) + c, 0, Move(2 + n + |c|, 0, 0), []);
    NothingScanned(0);
  }

  lemma BlockEnds(c: string, r: string)
    requires Inside(Block, c)
    ensures Scan(Opener(Block) + (c + (Closer(Block) + r)), 0) == Scan(r, 0)
    ensures Scan(Opener(Block) + c, 0) == Outcome(0, 1)
  {
    hide Scan;
    var s, t := ['/', '*'] + (c + (['*', '/'] + r)), ['/', '*'] + c;
    BlockInside(c, r, 1);
    assert Rest(s, 2) == c + (['*', '/'] + r) && Rest(t, 2) == c;
    assert s[0] == '/' && s[1] == '*' && t[0] == '/' && t[1] == '*';
    ScanStep(s, 0, Move(2, 0, 1), Rest(s, 2));
    ScanStep(t, 0, Move(2, 0, 1), c);
  }

  lemma BraceCounts(r: string)
    ensures Scan(['}'] + r, 0) == Scan(r, 0).Plus(-1)
  {
    var s := ['}'] + r;
    assert Rest(s, 1) == r;
    ScanStep(s, 0, Move(1, -1, 0), r);
  }

  lemma BraceOpens(r: string)
    ensures Scan(['{'] + r, 0) == Scan(r, 0).Plus(1)
  {
    var s := ['{'] + r;
    assert Rest(s, 1) == r;
    ScanStep(s, 0, Move(1, 1, 0), r);
  }

  lemma CommentResult(p: string, c: string, block: nat)
    requires Arrives(WithComment(p, c), block, |p|)
    ensures Scan(WithComment(p, c), block) == Outcome(DeltaTo(WithComment(p, c), block, |p|), 0)
  {
    assert WithComment(p, c)[|p|..] == ['/', '/'] + c;
    CommentEnds(c);
    ScanFrom(WithComment(p, c), block, |p|, Outcome(0, 0));
  }

  lemma LiteralResult(l: Literal, p: string, c: string, r: string, block: nat)
    requires Inside(l, c) && Arrives(WithLiteral(l, p, c, r), block, |p|)
    ensures Scan(WithLiteral(l, p, c, r), block) == Scan(r, 0).Plus(DeltaTo(WithLiteral(l, p, c, r), block, |p|))
  {
    hide Opener, Closer, Scan;
    assert WithLiteral(l, p, c, r)[|p|..] == Opener(l) + (c + (Closer(l) + r));
    LiteralEnds(l, c, r);
    ScanFrom(WithLiteral(l, p, c, r), block, |p|, Scan(r, 0));
  }

  /** A line's braces and the comment depth it leaves do not depend on the text of a
      line comment the scan stops at, exactly when no apostrophe on the way looked
      past the two slashes for its closing one. */
  lemma CommentTextIsIgnoredExactly(p: string, c: string, block: nat)
    requires Arrives(WithComment(p, c), block, |p|)
    ensures (forall c' :: Scan(WithComment(p, c'), block) == Scan(WithComment(p, c), block))
      <==> !Reaching(WithComment(p, c), block, |p|, Reach(['/', '/']))
  {
    hide Scan, Arrives, DetourDelta, DeltaTo;
    var d := ['/', '/'];
    if Reaching(WithComment(p, c), block, |p|, Reach(d)) {
      var one, two := ['\''] + [], ['\''] + (['}'] + []);
      var r := Scan([], 0);
      BraceCounts([]);
      Diverts(p, d, c, [], block, r);
      Diverts(p, d, c, ['}'] + [], block, r.Plus(-1));
      assert Scan(WithComment(p, one), block) != Scan(WithComment(p, two), block);
    } else {
      CommentResult(p, c, block);
      forall c'
        ensures Scan(WithComment(p, c'), block) == Scan(WithComment(p, c), block)
      {
        ArrivesSame(p, d, c, c', block);
        CommentResult(p, c', block);
      }
    }
  }

  lemma ApostropheInside(l: Literal)
    ensures Inside(l, ['\'']) && Inside(l, ['\'', '}'])
  {
    assert ['\'', '}'][1..] == ['}'] && ['}'][1..] == [] && ['\''][1..] == [];
    match l
    case Str =>
      assert InsideString([]) && InsideString(['}']);
    case Raw(n) =>
      assert InsideRaw(n, []) && InsideRaw(n, ['}']);
    case Block =>
      assert InsideBlock([], 1) && InsideBlock(['}'], 1);
  }

  /** The same for the contents of a string, a raw string or a block comment, the scan
      of the rest of the line included. */
  lemma LiteralContentsAreIgnoredExactly(l: Literal, p: string, c: string, r: string, block: nat)
    requires Inside(l, c) && Arrives(WithLiteral(l, p, c, r), block, |p|)
    ensures (forall c' :: Inside(l, c') ==> Scan(WithLiteral(l, p, c', r), block) == Scan(WithLiteral(l, p, c, r), block))
      <==> !Reaching(WithLiteral(l, p, c, r), block, |p|, Reach(Opener(l)))
  {
    hide Opener, Closer, Scan, Inside;
    var d, close := Opener(l), Closer(l) + r;
    if Reaching(WithLiteral(l, p, c, r), block, |p|, Reach(d)) {
      var one, two := ['\''], ['\'', '}'];
      ApostropheInside(l);
      assert one + close == ['\''] + close && two + close == ['\''] + (['}'] + close);
      var rest := Scan(close, 0);
      BraceCounts(close);
      Diverts(p, d, c + close, close, block, rest);
      Diverts(p, d, c + close, ['}'] + close, block, rest.Plus(-1));
      assert Scan(WithLiteral(l, p, one, r), block) != Scan(WithLiteral(l, p, two, r), block);
    } else {
      LiteralResult(l, p, c, r, block);
      forall c' | Inside(l, c')
        ensures Scan(WithLiteral(l, p, c', r), block) == Scan(WithLiteral(l, p, c, r), block)
      {
        ArrivesSame(p, d, c + close, c' + close, block);
        LiteralResult(l, p, c', r, block);
      }
    }
  }

  // ----- character literals -----

  /** What closes where the next apostrophe stands: a character, an escape, or a few. */
  predicate InsideQuotes(c: string) {
    CloseIn(c + ['\''], CHAR_WINDOW, false) == Some(|c|)
  }

  function WithChar(p: string, c: string, r: string): string {
    p + (['\''] + (c + (['\''] + r)))
  }

  lemma CharEnds(c: string, r: string)
    requires InsideQuotes(c)
    ensures Scan(['\''] + (c + (['\''] + r)), 0) == Scan(r, 0)
  {
    hide Scan;
    var s := ['\''] + (c + (['\''] + r));
    CharCloses(c, r, CHAR_WINDOW);
    assert s[1..] == c + (['\''] + r) && Rest(s, |c| + 2) == r;
    ScanStep(s, 0, Move(|c| + 2, 0, 0), r);
  }

  lemma CharCloses(c: string, r: string, left: nat)
    requires CloseIn(c + ['\''], left, false) == Some(|c|)
    ensures CloseIn(c + (['\''] + r), left, false) == Some(|c|)
  {
    var w := c + ['\''];
    assert w + [] == w && w + r == c + (['\''] + r);
    CloseSame(w, [], r, left, false);
  }

  lemma CharResult(p: string, c: string, r: string, block: nat)
    requires InsideQuotes(c) && Arrives(WithChar(p, c, r), block, |p|)
    ensures Scan(WithChar(p, c, r), block) == Scan(r, 0).Plus(DeltaTo(WithChar(p, c, r), block, |p|))
  {
    hide Scan, InsideQuotes;
    assert WithChar(p, c, r)[|p|..] == ['\''] + (c + (['\''] + r));
    CharEnds(c, r);
    ScanFrom(WithChar(p, c, r), block, |p|, Scan(r, 0));
  }

  lemma OneByteInQuotes(c: char)
    requires c != '\'' && c != '\\'
    ensures InsideQuotes([c])
  {
    assert ([c] + ['\''])[1..] == ['\''];
  }

  /** What a character literal holds, an escape included, is ignored exactly when no
      apostrophe before it, up to eleven bytes back, closed nothing: a lifetime's
      look-ahead takes the literal's opening apostrophe for its own closing one. The
      text before the literal is scanned as if a space stood behind it. */
  lemma CharContentsAreIgnoredExactly(p: string, r: string, block: nat)
    requires Unescaped(p) && Arrives(p + [' '], block, |p|)
    ensures (forall c, c' :: InsideQuotes(c) && InsideQuotes(c') ==> Scan(WithChar(p, c, r), block) == Scan(WithChar(p, c', r), block))
      <==> !Reaching(p + [' '], block, |p|, CHAR_WINDOW)
  {
    hide Scan, InsideQuotes;
    assert p + [] == p && [] + [' '] == [' '];
    if Reaching(p + [' '], block, |p|, CHAR_WINDOW) {
      var close := ['\''] + r;
      var rest := Scan(close, 0);
      BraceCounts(close);
      BraceOpens(close);
      Diverts(p, [], [' '], ['}'] + close, block, rest.Plus(-1));
      Diverts(p, [], [' '], ['{'] + close, block, rest.Plus(1));
      OneByteInQuotes('}');
      OneByteInQuotes('{');
      assert [] + (['\''] + (['}'] + close)) == ['\''] + (['}'] + close) && [] + (['\''] + (['{'] + close)) == ['\''] + (['{'] + close);
      assert Scan(WithChar(p, ['}'], r), block) != Scan(WithChar(p, ['{'], r), block);
    } else {
      forall c, c' | InsideQuotes(c) && InsideQuotes(c')
        ensures Scan(WithChar(p, c, r), block) == Scan(WithChar(p, c', r), block)
      {
        CharArrives(p, c, r, block);
        CharArrives(p, c', r, block);
        CharResult(p, c, r, block);
        CharResult(p, c', r, block);
      }
    }
  }

  lemma CharArrives(p: string, c: string, r: string, block: nat)
    requires Arrives(p + [' '], block, |p|) && !Reaching(p + [' '], block, |p|, CHAR_WINDOW)
    ensures Arrives(WithChar(p, c, r), block, |p|)
    ensures DeltaTo(WithChar(p, c, r), block, |p|) == DeltaTo(p + [' '], block, |p|)
  {
    hide Arrives, Reaching, DeltaTo;
    var x := ['\''] + (c + (['\''] + r));
    assert [] + [' '] == [' '] && [] + x == x;
    ArrivesSame(p, [], [' '], x, block);
  }

  // ----- the lines that follow -----

  lemma {:induction false} Utf8Append(a: string, b: string)
    ensures Utf8(a + b) == Utf8(a) + Utf8(b)
  {
    if a == [] {
      assert a + b == b;
    } else {
      assert (a + b)[1..] == a[1..] + b;
      Utf8Append(a[1..], b);
      var first, mid, last := Utf8Char(a[0]), Utf8(a[1..]), Utf8(b);
      assert first + (mid + last) == first + mid + last;
    }
  }

  predicate Ascii(s: string) {
    forall i :: 0 <= i < |s| ==> (s[i] as int) < 0x80
  }

  lemma {:induction false} Utf8OfAscii(s: string)
    requires Ascii(s)
    ensures Utf8(s) == s
  {
    if s != [] {
      Utf8OfAscii(s[1..]);
      assert s == [s[0]] + s[1..];
    }
  }

  lemma OpenersAreAscii(l: Literal)
    ensures Ascii(Opener(l)) && Ascii(Closer(l))
  {
  }

  /** The bytes of characters that are not ASCII, which no scan looks at. */
  predicate High(a: string) {
    forall i :: 0 <= i < |a| ==> (a[i] as int) >= 0x80
  }

  lemma {:induction false} HighInside(l: Literal, a: string, b: string, depth: nat)
    requires High(a)
    ensures InsideString(b) ==> InsideString(a + b)
    ensures l.Raw? && InsideRaw(l.hashes, b) ==> InsideRaw(l.hashes, a + b)
    ensures InsideBlock(b, depth) ==> InsideBlock(a + b, depth)
    decreases |a|
  {
    if a == [] {
      assert a + b == b;
    } else {
      assert (a + b)[1..] == a[1..] + b;
      HighInside(l, a[1..], b, depth);
    }
  }

  lemma {:induction false} Utf8Hashes(c: string)
    ensures Hashes(Utf8(c)) == Hashes(c)
  {
    if c != [] && c[0] == '#' {
      Utf8Hashes(c[1..]);
      assert Utf8(c)[1..] == Utf8(c[1..]);
    }
  }

  lemma Utf8Head(c: string)
    requires c != []
    ensures (c[0] as int) < 0x80 ==> Utf8(c)[0] == c[0] && Utf8(c)[1..] == Utf8(c[1..])
    ensures (c[0] as int) >= 0x80 ==> High(Utf8Char(c[0]))
    ensures Utf8(c) == Utf8Char(c[0]) + Utf8(c[1..])
  {
  }

  lemma {:induction false} Utf8InsideString(c: string)
    requires InsideString(c)
    ensures InsideString(Utf8(c))
    decreases |c|
  {
    hide Utf8Char;
    if c != [] {
      Utf8Head(c);
      if c[0] == '\\' {
        Utf8InsideString(c[2..]);
        Utf8Head(c[1..]);
        var a, rest := Utf8Char(c[1]), Utf8(c[2..]);
        assert c[1..][1..] == c[2..];
        assert Utf8(c)[2..] == a[1..] + rest;
        if (c[1] as int) >= 0x80 {
          HighInside(Str, a[1..], rest, 0);
        } else {
          assert Utf8(c)[2..] == rest;
        }
      } else {
        Utf8InsideString(c[1..]);
        if (c[0] as int) >= 0x80 { HighInside(Str, Utf8Char(c[0]), Utf8(c[1..]), 0); }
      }
    }
  }

  lemma {:induction false} Utf8InsideRaw(n: nat, c: string)
    requires InsideRaw(n, c)
    ensures InsideRaw(n, Utf8(c))
  {
    hide Utf8Char;
    if c != [] {
      Utf8Head(c);
      Utf8Hashes(c[1..]);
      Utf8InsideRaw(n, c[1..]);
      if (c[0] as int) >= 0x80 { HighInside(Raw(n), Utf8Char(c[0]), Utf8(c[1..]), 0); }
    }
  }

  lemma {:induction false} Utf8InsideBlock(c: string, depth: nat)
    requires InsideBlock(c, depth)
    ensures InsideBlock(Utf8(c), depth)
    decreases |c|
  {
    hide Utf8Char;
    if c != [] {
      Utf8Head(c);
      var u := Utf8(c);
      if Pair(c, '*', '/') || Pair(c, '/', '*') {
        Utf8Head(c[1..]);
        assert c[1..][1..] == c[2..] && u[2..] == Utf8(c[2..]) && u[1] == c[1];
        Utf8InsideBlock(c[2..], if Pair(c, '*', '/') then depth - 1 else depth + 1);
      } else {
        Utf8InsideBlock(c[1..], depth);
        if (c[0] as int) >= 0x80 {
          HighInside(Block, Utf8Char(c[0]), Utf8(c[1..]), depth);
        } else {
          if |c| > 1 { Utf8Head(c[1..]); }
        }
      }
    }
  }

  lemma Utf8Inside(l: Literal, c: string)
    requires Inside(l, c)
    ensures Inside(l, Utf8(c))
  {
    match l
    case Str => Utf8InsideString(c);
    case Raw(n) => Utf8InsideRaw(n, c);
    case Block => Utf8InsideBlock(c, 1);
  }

  lemma Utf8WithComment(p: string, c: string)
    ensures Utf8(WithComment(p, c)) == WithComment(Utf8(p), Utf8(c)) == Utf8(p) + Utf8(['/', '/'] + c)
  {
    Utf8Append(p, ['/', '/'] + c);
    Utf8Append(['/', '/'], c);
    Utf8OfAscii(['/', '/']);
  }

  lemma Utf8WithLiteral(l: Literal, p: string, c: string, r: string)
    ensures Utf8(WithLiteral(l, p, c, r)) == WithLiteral(l, Utf8(p), Utf8(c), Utf8(r))
      == Utf8(p) + Utf8(Opener(l) + (c + (Closer(l) + r)))
  {
    hide Opener, Closer, Utf8;
    OpenersAreAscii(l);
    Utf8Append(p, Opener(l) + (c + (Closer(l) + r)));
    Utf8Append(Opener(l), c + (Closer(l) + r));
    Utf8Append(c, Closer(l) + r);
    Utf8Append(Closer(l), r);
    Utf8OfAscii(Opener(l));
    Utf8OfAscii(Closer(l));
  }

  /** The opener's first character is not part of what the line test looks for. */
  predicate StartsLiteral(d: string) {
    d != [] && d[0] in ['/', '"', 'r', '\'']
  }

  lemma {:induction false} TrimWithOpener(p: string, d: string, x: string)
    requires StartsLiteral(d)
    ensures TrimStart(p + (d + x)) == TrimStart(p) + (d + x)
  {
    if p == [] {
      assert p + (d + x) == d + x;
      assert TrimStart(p) + (d + x) == d + x;
    } else {
      assert (p + (d + x))[1..] == p[1..] + (d + x);
      TrimWithOpener(p[1..], d, x);
    }
  }

  lemma PrefixBeforeOpener(t: string, d: string, x: string, prefix: string)
    requires d != [] && d[0] !in prefix
    ensures StartsWith(t + (d + x), prefix) <==> StartsWith(t, prefix)
  {
    var s := t + (d + x);
    assert s[|t|] == d[0];
    assert |t| < |prefix| ==> prefix[|t|] in prefix;
    if StartsWith(s, prefix) {
      assert s[..|prefix|] == t[..|prefix|];
    }
    if StartsWith(t, prefix) { assert s[..|prefix|] == t[..|prefix|]; }
  }

  lemma TestModBeforeOpener(p: string, d: string, x: string)
    requires StartsLiteral(d)
    ensures OpensTestMod(p + (d + x)) <==> OpensTestMod(p)
  {
    hide StartsWith, TrimStart;
    TrimWithOpener(p, d, x);
    PrefixBeforeOpener(TrimStart(p), d, x, "mod tests {");
    PrefixBeforeOpener(TrimStart(p), d, x, "mod test {");
  }

  /** The state behind a line that is the same up to a literal. */
  lemma SameStateBehind(s: State, p: string, d: string, x: string, y: string)
    requires StartsLiteral(d) && Scan(Utf8(p + (d + x)), s.block) == Scan(Utf8(p + (d + y)), s.block)
    ensures Next(s, p + (d + x)) == Next(s, p + (d + y))
  {
    hide Scan, OpensTestMod;
    TestModBeforeOpener(p, d, x);
    TestModBeforeOpener(p, d, y);
  }

  lemma LaterStates(s: State, before: seq<string>, line: string, line': string, after: seq<string>)
    requires Next(After(s, before), line) == Next(After(s, before), line')
    ensures After(s, before + [line] + after) == After(s, before + [line'] + after)
  {
    hide Next;
    AfterAppend(s, before + [line], after);
    AfterAppend(s, before + [line'], after);
    assert (before + [line])[..|before|] == before && (before + [line'])[..|before|] == before;
  }

  /** The scan of a line, entered at this comment depth, stops between `p` and `rest`,
      and no apostrophe on the way looked more than `reach` bytes ahead of it. */
  predicate StopsCleanly(p: string, rest: string, block: nat, reach: nat) {
    var line, k := Utf8(p) + Utf8(rest), |Utf8(p)|;
    Arrives(line, block, k) && !Reaching(line, block, k, reach)
  }

  /** Editing a comment leaves the depth every later line is entered at, and with it
      the functions found there, as they were. */
  lemma CommentEditKeepsLaterDepths(before: seq<string>, p: string, c: string, c': string, after: seq<string>)
    requires StopsCleanly(p, ['/', '/'] + c, After(START, before).block, Reach(['/', '/']))
    ensures After(START, before + [WithComment(p, c)] + after) == After(START, before + [WithComment(p, c')] + after)
  {
    hide Arrives, Reaching, Scan, Next, After, Utf8;
    var s := After(START, before);
    Utf8WithComment(p, c);
    Utf8WithComment(p, c');
    CommentTextIsIgnoredExactly(Utf8(p), Utf8(c), s.block);
    assert Scan(WithComment(Utf8(p), Utf8(c')), s.block) == Scan(WithComment(Utf8(p), Utf8(c)), s.block);
    SameStateBehind(s, p, ['/', '/'], c, c');
    LaterStates(START, before, WithComment(p, c), WithComment(p, c'), after);
  }

  /** So does editing what a string, a raw string or a block comment holds. */
  lemma LiteralEditKeepsLaterDepths(l: Literal, before: seq<string>, p: string, c: string, c': string, r: string,
                                    after: seq<string>)
    requires Inside(l, c) && Inside(l, c')
    requires StopsCleanly(p, Opener(l) + (c + (Closer(l) + r)), After(START, before).block, Reach(Opener(l)))
    ensures After(START, before + [WithLiteral(l, p, c, r)] + after) == After(START, before + [WithLiteral(l, p, c', r)] + after)
  {
    hide Arrives, Reaching, Scan, Next, After, Utf8, Inside, Closer;
    var s := After(START, before);
    Utf8WithLiteral(l, p, c, r);
    Utf8WithLiteral(l, p, c', r);
    Utf8Inside(l, c);
    Utf8Inside(l, c');
    LiteralContentsAreIgnoredExactly(l, Utf8(p), Utf8(c), Utf8(r), s.block);
    assert Scan(WithLiteral(l, Utf8(p), Utf8(c'), Utf8(r)), s.block) == Scan(WithLiteral(l, Utf8(p), Utf8(c), Utf8(r)), s.block);
    SameStateBehind(s, p, Opener(l), c + (Closer(l) + r), c' + (Closer(l) + r));
    LaterStates(START, before, WithLiteral(l, p, c, r), WithLiteral(l, p, c', r), after);
  }

  lemma Utf8WithChar(p: string, c: string, r: string)
    ensures Utf8(WithChar(p, c, r)) == WithChar(Utf8(p), Utf8(c), Utf8(r))
  {
    hide Utf8;
    var q := ['\''];
    assert Ascii(q);
    Utf8OfAscii(q);
    Utf8Append(p, q + (c + (q + r)));
    Utf8Append(q, c + (q + r));
    Utf8Append(c, q + r);
    Utf8Append(q, r);
  }

  /** And so does editing what a character literal holds. */
  lemma CharEditKeepsLaterDepths(before: seq<string>, p: string, c: string, c': string, r: string, after: seq<string>)
    requires InsideQuotes(Utf8(c)) && InsideQuotes(Utf8(c')) && Unescaped(Utf8(p))
    requires var line, k := Utf8(p) + [' '], |Utf8(p)|;
      Arrives(line, After(START, before).block, k) && !Reaching(line, After(START, before).block, k, CHAR_WINDOW)
    ensures After(START, before + [WithChar(p, c, r)] + after) == After(START, before + [WithChar(p, c', r)] + after)
  {
    hide Arrives, Reaching, Scan, Next, After, Utf8, InsideQuotes, Unescaped;
    var s := After(START, before);
    Utf8WithChar(p, c, r);
    Utf8WithChar(p, c', r);
    CharContentsAreIgnoredExactly(Utf8(p), Utf8(r), s.block);
    SameStateBehind(s, p, ['\''], c + (['\''] + r), c' + (['\''] + r));
    LaterStates(START, before, WithChar(p, c, r), WithChar(p, c', r), after);
  }

  // ----- literals that span lines -----

  /** A line that leaves a literal open ends in code if it is a string, raw or not, and
      inside the comment if it is a block comment. */
  lemma OpenLiteralAtLineEnd(l: Literal, p: string, c: string, block: nat)
    requires Inside(l, c) && Arrives(p + (Opener(l) + c), block, |p|)
    ensures Scan(p + (Opener(l) + c), block).block == if l.Block? then 1 else 0
  {
    hide Opener, Closer, Scan, Inside;
    var s := p + (Opener(l) + c);
    assert s[|p|..] == Opener(l) + c;
    LiteralEnds(l, c, []);
    ScanFrom(s, block, |p|, Scan(Opener(l) + c, 0));
  }

  /** So the next line of a block comment is ignored up to where the comment ends, but
      the next line of a string is counted as code: the depth behind it is the depth
      before it exactly when its own braces balance. */
  lemma ContinuationLineIsCountedExactly(l: Literal, before: seq<string>, p: string, c: string, next: string)
    requires Inside(l, c)
    requires var line := Utf8(p) + (Opener(l) + Utf8(c)); Arrives(line, After(START, before).block, |Utf8(p)|)
    ensures var within, behind := After(START, before + [p + (Opener(l) + c)]), After(START, before + [p + (Opener(l) + c), next]);
      && (!l.Block? ==> (behind.depth == within.depth <==> Scan(Utf8(next), 0).delta == 0))
      && (l.Block? && Inside(Block, next) ==> behind.depth == within.depth && behind.block == 1)
  {
    hide Arrives, Scan, Opener, Utf8, Inside;
    var line := p + (Opener(l) + c);
    var s := After(START, before);
    OpensOnLine(l, p, c, s.block);
    AfterSnoc(before, line);
    AfterSnoc(before + [line], next);
    assert before + [line] + [next] == before + [line, next];
    if l.Block? && Inside(Block, next) {
      Utf8Inside(Block, next);
      BlockEndsNowhere(Utf8(next));
    }
  }

  lemma BlockEndsNowhere(c: string)
    requires Inside(Block, c)
    ensures Scan(c, 1) == Outcome(0, 1)
  {
    BlockInside(c, [], 1);
  }

  lemma OpensOnLine(l: Literal, p: string, c: string, block: nat)
    requires Inside(l, c) && Arrives(Utf8(p) + (Opener(l) + Utf8(c)), block, |Utf8(p)|)
    ensures Scan(Utf8(p + (Opener(l) + c)), block).block == if l.Block? then 1 else 0
  {
    hide Arrives, Scan, Opener, Utf8, Inside;
    OpenersAreAscii(l);
    Utf8OfAscii(Opener(l));
    Utf8Append(p, Opener(l) + c);
    Utf8Append(Opener(l), c);
    Utf8Inside(l, c);
    OpenLiteralAtLineEnd(l, Utf8(p), Utf8(c), block);
  }

  lemma AfterSnoc(before: seq<string>, line: string)
    ensures After(START, before + [line]) == Next(After(START, before), line)
  {
    assert (before + [line])[..|before|] == before;
  }

  /** A lifetime close before a comment: a brace in the comment is counted. */
  lemma CommentBraceCounted()
    ensures Scan(WithComment(['\'', 'a'], []), 0).delta == 0
    ensures Scan(WithComment(['\'', 'a'], ['\'', '}']), 0).delta == -1
  {
    hide StepAt, Scan, OpenApostrophe;
    var p, d, e := ['\'', 'a'], ['/', '/'], ['}'];
    var s, t := p + (d + []), p + (d + (['\''] + e));
    LifetimeStep(s);
    assert Rest(s, 2) == d + [];
    CommentEnds([]);
    ScanStep(s, 0, Move(2, 0, 0), d + []);
    Swallows(p, d, [], e);
    assert Rest(t, 5) == e;
    ScanStep(t, 0, Move(5, 0, 0), e);
    LoneBrace();
    assert ['\''] + e == ['\'', '}'];
  }

  lemma LoneBrace()
    ensures Scan(['}'], 0) == Outcome(-1, 0)
  {
    BraceCounts([]);
    assert ['}'] + [] == ['}'];
  }

  lemma LifetimeStep(s: string)
    requires s == ['\'', 'a', '/', '/']
    ensures OpenApostrophe(s) && StepAt(s, 0) == Move(2, 0, 0)
  {
    var t := s[1..];
    assert t == ['a', '/', '/'] && t[1..] == ['/', '/'] && t[1..][1..] == ['/'] && t[1..][1..][1..] == [];
    assert CloseIn(t[1..][1..], 9, false).None?;
    assert CloseIn(t[1..], 10, false).None?;
    assert IdentSkip(t[1..]) == 0;
  }
}
