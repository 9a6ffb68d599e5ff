/** Which functions the build gate's scanner collects: a grammar for the lines that
    declare one, and the depth they are found at. */
module FreeFns {
  import opened Text
  import opened BraceScan

  // ----- what a line declares -----

  /** The code points of Unicode's White_Space property. */
  const WHITE_SPACE := {
    0x09, 0x0a, 0x0b, 0x0c, 0x0d, 0x20, 0x85, 0xa0, 0x1680, 0x2000, 0x2001, 0x2002, 0x2003, 0x2004, 0x2005, 0x2006,
    0x2007, 0x2008, 0x2009, 0x200a, 0x2028, 0x2029, 0x202f, 0x205f, 0x3000}

  predicate AllSpace(s: string) {
    forall i :: 0 <= i < |s| ==> (s[i] as int) in WHITE_SPACE
  }

  predicate Ends(c: char) {
    c == '(' || c == '<' || (c as int) in WHITE_SPACE
  }

  /** ASCII letters, digits and underscores. */
  predicate IsName(name: string) {
    forall i :: 0 <= i < |name| ==>
      'a' <= name[i] <= 'z' || 'A' <= name[i] <= 'Z' || IsDigit(name[i]) || name[i] == '_'
  }

  lemma SpaceIsWhiteSpace(c: char)
    ensures IsSpace(c) <==> (c as int) in WHITE_SPACE
  {
  }

  lemma NamesAre(s: string)
    ensures AllIdent(s) <==> IsName(s)
  {
  }

  /** A declaration taken apart: blanks, a visibility, three qualifiers in this order,
      each of them optional, then `fn`, a name, and what ends it. */
  datatype Parts = Parts(blanks: string, vis: string, unsafety: string, asyncness: string, abi: string, rest: string)

  predicate Spells(p: Parts, name: string, line: string) {
    && line == p.blanks + (p.vis + (p.unsafety + (p.asyncness + (p.abi + ("fn " + (name + p.rest))))))
    && AllSpace(p.blanks) && p.vis in ["", "pub(crate) ", "pub(super) ", "pub "]
    && p.unsafety in ["", "unsafe "] && p.asyncness in ["", "async "] && p.abi in ["", "extern \"C\" "]
    && name != "" && IsName(name) && p.rest != "" && Ends(p.rest[0])
  }

  ghost predicate Declares(line: string, name: string) {
    exists p :: Spells(p, name, line)
  }

  // ----- stripping -----

  lemma HeadDiffers(s: string, prefix: string)
    requires s != [] && prefix != [] && s[0] != prefix[0]
    ensures !StartsWith(s, prefix) && Stripped(s, prefix) == s
  {
    if |prefix| <= |s| { assert s[..|prefix|][0] == s[0]; }
  }

  lemma StripOptional(opt: string, prefix: string, s: string)
    requires (opt == "" || opt == prefix) && prefix != "" && s != "" && s[0] != prefix[0]
    ensures Stripped(opt + s, prefix) == s
  {
    HeadDiffers(s, prefix);
    if opt == "" {
      assert opt + s == s;
    } else {
      assert (opt + s)[..|prefix|] == prefix && (opt + s)[|prefix|..] == s;
    }
  }

  lemma StripTells(s: string, prefix: string)
    ensures s == (if StartsWith(s, prefix) then prefix else "") + Stripped(s, prefix)
  {
  }

  lemma {:induction false} TrimBlanks(blanks: string, s: string)
    requires AllSpace(blanks) && s != "" && !IsSpace(s[0])
    ensures TrimStart(blanks + s) == s
  {
    if blanks == "" {
      assert blanks + s == s;
    } else {
      assert (blanks + s)[1..] == blanks[1..] + s;
      TrimBlanks(blanks[1..], s);
    }
  }

  lemma {:induction false} TrimTells(s: string) returns (blanks: string)
    ensures s == blanks + TrimStart(s) && AllSpace(blanks)
    ensures TrimStart(s) != "" ==> !IsSpace(TrimStart(s)[0])
  {
    if s == "" || !IsSpace(s[0]) {
      blanks := "";
    } else {
      var more := TrimTells(s[1..]);
      blanks := [s[0]] + more;
      assert s == [s[0]] + s[1..];
    }
  }

  lemma {:induction false} NameEndBefore(name: string, rest: string)
    requires AllIdent(name) && rest != "" && Ends(rest[0])
    ensures NameEnd(name + rest) == |name|
  {
    if name == "" {
      assert name + rest == rest;
    } else {
      assert (name + rest)[1..] == name[1..] + rest;
      assert !Ends(name[0]);
      NameEndBefore(name[1..], rest);
    }
  }

  lemma {:induction false} NameEndStops(s: string)
    ensures NameEnd(s) < |s| ==> Ends(s[NameEnd(s)])
  {
    if s != "" && !Ends(s[0]) { NameEndStops(s[1..]); }
  }

  // ----- the scanner finds exactly these -----

  lemma QualifiersStrip(p: Parts, s: string)
    requires p.unsafety in ["", "unsafe "] && p.asyncness in ["", "async "] && p.abi in ["", "extern \"C\" "]
    requires s != "" && s[0] == 'f'
    ensures var q := p.unsafety + (p.asyncness + (p.abi + s));
      q != "" && q[0] in ['u', 'a', 'e', 'f'] && BehindQualifiers(q) == s
  {
    hide Stripped;
    StripOptional(p.abi, "extern \"C\" ", s);
    StripOptional(p.asyncness, "async ", p.abi + s);
    StripOptional(p.unsafety, "unsafe ", p.asyncness + (p.abi + s));
  }

  lemma VisibilityStrips(vis: string, q: string)
    requires vis in ["", "pub(crate) ", "pub(super) ", "pub "] && q != "" && q[0] in ['u', 'a', 'e', 'f']
    ensures BehindVisibility(vis + q) == q
  {
    var t := vis + q;
    if vis == "" {
      assert t == q;
      HeadDiffers(q, "pub(crate) ");
      HeadDiffers(q, "pub(super) ");
      HeadDiffers(q, "pub ");
    } else {
      assert t[..|vis|] == vis && t[|vis|..] == q;
      assert vis == "pub " ==> t[3] == ' ';
      assert vis == "pub(super) " ==> t[4] == 's';
      if StartsWith(t, "pub(crate) ") { assert t[..11][3] == '(' && t[..11][4] == 'c'; }
      if StartsWith(t, "pub(super) ") { assert t[..11][3] == '('; }
    }
  }

  lemma NameStrips(name: string, rest: string)
    requires name != "" && AllIdent(name) && rest != "" && Ends(rest[0])
    ensures NameIn("fn " + (name + rest)) == Some(name)
  {
    var s := "fn " + (name + rest);
    NameEndBefore(name, rest);
    assert s[..3] == "fn " && s[3..] == name + rest && (name + rest)[..|name|] == name;
  }

  lemma DeclaredIsFound(p: Parts, name: string, line: string)
    requires Spells(p, name, line)
    ensures FnName(line) == Some(name)
  {
    hide BehindQualifiers, BehindVisibility, NameIn, TrimStart, AllSpace, AllIdent;
    var s := "fn " + (name + p.rest);
    var q := p.unsafety + (p.asyncness + (p.abi + s));
    QualifiersStrip(p, s);
    VisibilityStrips(p.vis, q);
    assert (p.vis + q)[0] == (if p.vis == "" then q[0] else 'p');
    TrimBlanks(p.blanks, p.vis + q);
    NamesAre(name);
    NameStrips(name, p.rest);
  }

  lemma NameTells(d: string, name: string) returns (rest: string)
    requires NameIn(d) == Some(name)
    ensures d == "fn " + (name + rest) && name != "" && AllIdent(name) && rest != "" && Ends(rest[0])
  {
    var all := d[3..];
    NameEndStops(all);
    rest := all[NameEnd(all)..];
    StripTells(d, "fn ");
    assert all == name + rest;
  }

  lemma QualifiersTell(v: string) returns (unsafety: string, asyncness: string, abi: string)
    ensures v == unsafety + (asyncness + (abi + BehindQualifiers(v)))
    ensures unsafety in ["", "unsafe "] && asyncness in ["", "async "] && abi in ["", "extern \"C\" "]
  {
    hide Stripped;
    var v1 := Stripped(v, "unsafe ");
    var v2 := Stripped(v1, "async ");
    unsafety := if StartsWith(v, "unsafe ") then "unsafe " else "";
    asyncness := if StartsWith(v1, "async ") then "async " else "";
    abi := if StartsWith(v2, "extern \"C\" ") then "extern \"C\" " else "";
    StripTells(v, "unsafe ");
    StripTells(v1, "async ");
    StripTells(v2, "extern \"C\" ");
  }

  lemma VisibilityTells(t: string) returns (vis: string)
    ensures t == vis + BehindVisibility(t) && vis in ["", "pub(crate) ", "pub(super) ", "pub "]
  {
    hide Stripped;
    vis := if StartsWith(t, "pub(crate) ") then "pub(crate) " else if StartsWith(t, "pub(super) ") then "pub(super) "
      else if StartsWith(t, "pub ") then "pub " else "";
    StripTells(t, "pub(crate) ");
    StripTells(t, "pub(super) ");
    StripTells(t, "pub ");
  }

  lemma FoundIsDeclared(line: string, name: string)
    requires FnName(line) == Some(name)
    ensures Declares(line, name)
  {
    hide BehindQualifiers, BehindVisibility, NameIn, TrimStart, AllSpace, AllIdent, Ends;
    var blanks := TrimTells(line);
    var t := TrimStart(line);
    var vis := VisibilityTells(t);
    var v := BehindVisibility(t);
    var unsafety, asyncness, abi := QualifiersTell(v);
    var rest := NameTells(BehindQualifiers(v), name);
    NamesAre(name);
    assert Spells(Parts(blanks, vis, unsafety, asyncness, abi, rest), name, line);
  }

  /** A line is taken to declare a function exactly when it is spelled as one. */
  lemma FnNameExactly(line: string, name: string)
    ensures FnName(line) == Some(name) <==> Declares(line, name)
  {
    if FnName(line) == Some(name) { FoundIsDeclared(line, name); }
    if Declares(line, name) {
      var p :| Spells(p, name, line);
      DeclaredIsFound(p, name, line);
    }
  }

  // ----- test modules -----

  predicate SpellsTestMod(blanks: string, head: string, rest: string, line: string) {
    AllSpace(blanks) && head in ["mod tests {", "mod test {"] && line == blanks + (head + rest)
  }

  lemma SpelledOpens(blanks: string, head: string, rest: string, line: string)
    requires SpellsTestMod(blanks, head, rest, line)
    ensures OpensTestMod(line)
  {
    assert (head + rest)[0] == 'm' && (head + rest)[..|head|] == head;
    TrimBlanks(blanks, head + rest);
  }

  /** A line opens a test module exactly when it is blanks, then one of two spellings,
      then anything. */
  lemma OpensTestModExactly(line: string)
    ensures OpensTestMod(line) <==> exists blanks, head, rest :: SpellsTestMod(blanks, head, rest, line)
  {
    if OpensTestMod(line) {
      hide TrimStart, AllSpace;
      var blanks := TrimTells(line);
      var t := TrimStart(line);
      var head := if StartsWith(t, "mod tests {") then "mod tests {" else "mod test {";
      StripTells(t, head);
      assert SpellsTestMod(blanks, head, Stripped(t, head), line);
    }
    if blanks, head, rest :| SpellsTestMod(blanks, head, rest, line) { SpelledOpens(blanks, head, rest, line); }
  }

  lemma TestModDeclaresNothing(line: string)
    requires OpensTestMod(line)
    ensures FnName(line) == None
  {
    var t := TrimStart(line);
    assert t[0] == 'm' by {
      if StartsWith(t, "mod tests {") { assert t[..11][0] == t[0]; } else { assert t[..10][0] == t[0]; }
    }
    HeadDiffers(t, "pub(crate) ");
    HeadDiffers(t, "pub(super) ");
    HeadDiffers(t, "pub ");
    HeadDiffers(t, "unsafe ");
    HeadDiffers(t, "async ");
    HeadDiffers(t, "extern \"C\" ");
    HeadDiffers(t, "fn ");
  }

  /** The depth a line is entered at. */
  function DepthAt(lines: seq<string>, k: nat): int
    requires k <= |lines|
  {
    After(START, lines[..k]).depth
  }

  /** Line `i` opens a test module that is still open before line `k`. */
  predicate OpenSince(lines: seq<string>, i: nat, k: nat)
    requires k <= |lines|
  {
    i < k && DepthAt(lines, i) == 0 && OpensTestMod(lines[i]) && forall m :: i < m <= k ==> DepthAt(lines, m) >= 1
  }

  lemma StateSnoc(lines: seq<string>, k: nat)
    requires k < |lines|
    ensures After(START, lines[..k + 1]) == Next(After(START, lines[..k]), lines[k])
  {
    assert lines[..k + 1][..k] == lines[..k];
  }

  lemma NextTracks(s: State, line: string)
    requires s.inTestMod ==> s.testModDepth == 1 && s.depth >= 1
    ensures var t := Next(s, line);
      && (t.inTestMod ==> t.testModDepth == 1 && t.depth >= 1)
      && (t.inTestMod <==> t.depth >= 1 && (s.inTestMod || (s.depth == 0 && OpensTestMod(line))))
  {
    hide Scan, Utf8;
  }

  /** The scanner is inside a test module exactly when one was opened at depth zero and
      the depth has stayed above zero since. */
  lemma {:induction false} InTestModExactly(lines: seq<string>, k: nat)
    requires k <= |lines|
    ensures var s := After(START, lines[..k]);
      && (s.inTestMod ==> s.testModDepth == 1 && s.depth >= 1)
      && (s.inTestMod <==> exists i: nat :: OpenSince(lines, i, k))
    decreases k
  {
    if k > 0 {
      hide Next, OpensTestMod, OpenSince, After;
      var j: nat := k - 1;
      InTestModExactly(lines, j);
      StateSnoc(lines, j);
      NextTracks(After(START, lines[..j]), lines[j]);
      forall i: nat
        ensures OpenSince(lines, i, k) <==>
          DepthAt(lines, k) >= 1 && (OpenSince(lines, i, j) || (i == j && DepthAt(lines, j) == 0 && OpensTestMod(lines[j])))
      {
        OpenSinceNext(lines, i, j);
      }
      if DepthAt(lines, k) >= 1 {
        if i: nat :| OpenSince(lines, i, j) { assert OpenSince(lines, i, k); }
        if DepthAt(lines, j) == 0 && OpensTestMod(lines[j]) { assert OpenSince(lines, j, k); }
      }
    } else {
      assert lines[..0] == [];
    }
  }

  lemma OpenSinceNext(lines: seq<string>, i: nat, j: nat)
    requires j < |lines|
    ensures OpenSince(lines, i, j + 1) <==>
      DepthAt(lines, j + 1) >= 1 && (OpenSince(lines, i, j) || (i == j && DepthAt(lines, j) == 0 && OpensTestMod(lines[j])))
  {
    hide OpensTestMod, DepthAt;
  }

  // ----- what is collected -----

  lemma FoundExactly(lines: seq<string>, k: nat, name: string)
    requires k < |lines|
    ensures Found(After(START, lines[..k]), lines[k]) == Some(name) <==> DepthAt(lines, k) == 0 && Declares(lines[k], name)
  {
    hide Next, OpensTestMod, FnName, Declares;
    var s := After(START, lines[..k]);
    InTestModExactly(lines, k);
    NextTracks(s, lines[k]);
    FnNameExactly(lines[k], name);
    if OpensTestMod(lines[k]) { TestModDeclaresNothing(lines[k]); }
  }

  /** A name is collected with a line's number exactly when the line declares it and is
      entered at depth zero: keeping track of test modules changes nothing, as their
      lines are deeper anyway. */
  lemma {:induction false} CollectedExactly(lines: seq<string>, name: string, k: nat)
    ensures (name, k) in Collected(START, lines) <==>
      0 < k <= |lines| && DepthAt(lines, k - 1) == 0 && Declares(lines[k - 1], name)
  {
    if lines != [] {
      hide Found, After, Declares;
      var n := |lines| - 1;
      CollectedExactly(lines[..n], name, k);
      if 0 < k <= n { assert lines[..n][..k - 1] == lines[..k - 1]; }
      FoundExactly(lines, n, name);
      LastCollected(lines, name, k);
    }
  }

  lemma LastCollected(lines: seq<string>, name: string, k: nat)
    requires lines != []
    ensures var n := |lines| - 1;
      (name, k) in Collected(START, lines) <==>
        (name, k) in Collected(START, lines[..n]) || (k == n + 1 && Found(After(START, lines[..n]), lines[n]) == Some(name))
  {
    hide Found, After;
  }

  /** Line numbers within `n`, each larger than the one before. */
  predicate InOrder(found: seq<(string, nat)>, n: nat) {
    && (forall i :: 0 <= i < |found| ==> 0 < found[i].1 <= n)
    && forall i, j :: 0 <= i < j < |found| ==> found[i].1 < found[j].1
  }

  lemma InOrderMore(found: seq<(string, nat)>, n: nat, name: string)
    requires InOrder(found, n)
    ensures InOrder(found, n + 1) && InOrder(found + [(name, n + 1)], n + 1)
  {
  }

  /** Names come in the order of their lines, at most one for each. */
  lemma {:induction false} CollectedInOrder(lines: seq<string>)
    ensures InOrder(Collected(START, lines), |lines|)
  {
    if lines != [] {
      hide Found, After, InOrder;
      var n := |lines| - 1;
      CollectedInOrder(lines[..n]);
      var init, f := Collected(START, lines[..n]), Found(After(START, lines[..n]), lines[n]);
      InOrderMore(init, n, if f.Some? then f.value else "");
      assert init + [] == init;
    }
  }

  /** Nothing between the opening line of a test module and the line that closes it is
      collected. */
  lemma NothingInATestModule(lines: seq<string>, i: nat, k: nat, name: string)
    requires k < |lines| && (k == i || OpenSince(lines, i, k)) && DepthAt(lines, i) == 0 && OpensTestMod(lines[i])
    ensures (name, k + 1) !in Collected(START, lines)
  {
    hide OpensTestMod, Declares;
    CollectedExactly(lines, name, k + 1);
    if k == i {
      TestModDeclaresNothing(lines[i]);
      FnNameExactly(lines[i], name);
    }
  }
}
