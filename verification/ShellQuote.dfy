/** Quoting for the shell exports, and a reader for what they print. */
module ShellQuote {
  import opened Text
  import JsonText

  // ----- the writers -----

  /** `zsh_singlequote_escape`: close, escape, reopen. */
  function Escape(s: string): string {
    if s == [] then [] else EscapeOne(s[0]) + Escape(s[1..])
  }

  function EscapeOne(c: char): string {
    if c == '\'' then ['\'', '\\', '\'', '\''] else [c]
  }

  function Quoted(s: string): string {
    ['\''] + Escape(s) + ['\'']
  }

  predicate IsPlain(c: char) {
    || 'a' <= c <= 'z' || 'A' <= c <= 'Z' || '0' <= c <= '9'
    || c == '_' || c == '/' || c == '.' || c == '-' || c == ':' || c == ',' || c == '+'
  }

  predicate AllPlain(s: string) {
    forall i :: 0 <= i < |s| ==> IsPlain(s[i])
  }

  /** `shell_quote`. */
  function ShellQuote(v: string): string {
    if v == [] then ['\'', '\''] else if AllPlain(v) then v else Quoted(v)
  }

  /** `join`. */
  function Joined(vs: seq<string>, sep: char): string {
    if vs == [] then [] else if |vs| == 1 then vs[0] else vs[0] + [sep] + Joined(vs[1..], sep)
  }

  function QuotedAll(vs: seq<string>): seq<string> {
    if vs == [] then [] else [ShellQuote(vs[0])] + QuotedAll(vs[1..])
  }

  /** One catalog row: its key and its stored (JSON) value. */
  datatype Row = Row(key: string, value: string)

  function PairLine(key: string, value: string): string {
    Quoted(key) + [' '] + Quoted(value) + ['\n']
  }

  function PairLines(rows: seq<Row>): string {
    if rows == [] then []
    else
      var n := |rows| - 1;
      PairLines(rows[..n]) + PairLine(rows[n].key, JsonText.Unjson(rows[n].value))
  }

  function Assign(name: string, additive: bool): string {
    if additive then name + ['+', '='] else name + ['=']
  }

  function HeadLines(name: string, additive: bool): string {
    "typeset -gA " + name + ['\n'] + Assign(name, additive) + ['(', '\n']
  }

  function AssocHash(name: string, rows: seq<Row>, additive: bool): string {
    HeadLines(name, additive) + PairLines(rows) + [')', '\n']
  }

  method PushZshAssocHash(out: string, name: string, rows: seq<Row>, additive: bool) returns (r: string)
    ensures r == out + AssocHash(name, rows, additive)
  {
    ghost var head := HeadLines(name, additive);
    r := out + HeadLines(name, additive);
    for i := 0 to |rows|
      invariant r == out + (head + PairLines(rows[..i]))
    {
      assert rows[..i + 1][..i] == rows[..i];
      var line := PairLine(rows[i].key, JsonText.Unjson(rows[i].value));
      MoveOver(out, head, PairLines(rows[..i]), line);
      r := r + line;
    }
    assert rows[..|rows|] == rows;
    MoveOver(out, head, PairLines(rows), [')', '\n']);
    r := r + [')', '\n'];
  }

  lemma MoveOver(a: string, b: string, c: string, d: string)
    ensures a + (b + c) + d == a + (b + (c + d)) == a + (b + c + d)
  {
  }

  // ----- a reader: sections 2.2.1 and 2.2.2 of POSIX.1-2017 XCU -----

  datatype Token = Word(text: string) | Newline | Open | Close

  function Flush(word: Option<string>): seq<Token> {
    if word.None? then [] else [Word(word.value)]
  }

  function After(first: seq<Token>, rest: Option<seq<Token>>): Option<seq<Token>> {
    if rest.None? then None else Some(first + rest.value)
  }

  function Grown(word: Option<string>, more: string): string {
    if word.None? then more else word.value + more
  }

  /** What a shell may read as something else than itself where it stands unquoted, in
      any position or in some: the characters of section 2.2, those of patterns,
      braces, tildes, comments and history, and an equals sign that starts a word. */
  predicate IsSpecial(c: char, inWord: bool) {
    || c == '|' || c == '&' || c == ';' || c == '<' || c == '>' || c == '$' || c == '`' || c == '"' || c == '*' || c == '?'
    || c == '[' || c == ']' || c == '#' || c == '~' || c == '%' || c == '!' || c == '{' || c == '}' || c == '^' || c == '@'
    || (c as int) < 0x20 || (c as int) == 0x7f || (c == '=' && !inWord)
  }

  /** Split text into words, newlines and parentheses; `word` is what has been read of
      the current word. Blanks separate, a backslash keeps the next character (and
      disappears together with a newline), single quotes keep everything. Any other
      character a shell may treat specially is refused outside quotes. */
  function Lex(s: string, word: Option<string>): Option<seq<Token>>
    decreases |s|
  {
    if s == [] then Some(Flush(word))
    else if s[0] == ' ' || s[0] == '\t' then After(Flush(word), Lex(s[1..], None))
    else if s[0] == '\n' then After(Flush(word) + [Newline], Lex(s[1..], None))
    else if s[0] == '(' then After(Flush(word) + [Open], Lex(s[1..], None))
    else if s[0] == ')' then After(Flush(word) + [Close], Lex(s[1..], None))
    else if s[0] == '\'' then LexQuoted(s[1..], Grown(word, []))
    else if s[0] == '\\' then
      if |s| < 2 then None
      else if s[1] == '\n' then Lex(s[2..], word)
      else Lex(s[2..], Some(Grown(word, [s[1]])))
    else if IsSpecial(s[0], word.Some?) then None
    else Lex(s[1..], Some(Grown(word, [s[0]])))
  }

  /** The rest of a single-quoted stretch; an unclosed one is an error. */
  function LexQuoted(s: string, word: string): Option<seq<Token>>
    decreases |s|
  {
    if s == [] then None
    else if s[0] == '\'' then Lex(s[1..], Some(word))
    else LexQuoted(s[1..], word + [s[0]])
  }

  function Words(vs: seq<string>): seq<Token> {
    if vs == [] then [] else [Word(vs[0])] + Words(vs[1..])
  }

  // ----- what is written reads back -----

  lemma OneReadsBack(c: char, tail: string, word: string)
    ensures LexQuoted(EscapeOne(c) + tail, word) == LexQuoted(tail, word + [c])
  {
    var s := EscapeOne(c) + tail;
    var t := s[1..];
    if c == '\'' {
      assert t[0] == '\\' && t[1] == '\'';
      var u := t[2..];
      assert u[0] == '\'' && u[1..] == tail;
      assert Lex(t, Some(word)) == Lex(u, Some(word + ['\'']));
      assert word + ['\''] + [] == word + ['\''];
    } else {
      assert t == tail;
    }
  }

  predicate IsSeparator(c: char) {
    c == ' ' || c == '\n' || c == '(' || c == ')'
  }

  /** A word in progress and the separator that ends it. */
  function Ended(word: Option<string>, c: char): seq<Token> {
    match word
    case None => if c == '\n' then [Newline] else if c == '(' then [Open] else if c == ')' then [Close] else []
    case Some(w) =>
      if c == '\n' then [Word(w), Newline] else if c == '(' then [Word(w), Open] else if c == ')' then [Word(w), Close] else [Word(w)]
  }

  lemma SeparatorReadsBack(c: char, rest: string, word: Option<string>)
    requires IsSeparator(c)
    ensures Lex([c] + rest, word) == After(Ended(word, c), Lex(rest, None))
  {
    assert ([c] + rest)[1..] == rest;
    assert c == '\n' ==> Flush(word) + [Newline] == Ended(word, c);
    assert c == '(' ==> Flush(word) + [Open] == Ended(word, c);
    assert c == ')' ==> Flush(word) + [Close] == Ended(word, c);
  }

  lemma {:induction false} EscapeReadsBack(v: string, rest: string, word: string)
    ensures LexQuoted(Escape(v) + (['\''] + rest), word) == Lex(rest, Some(word + v))
  {
    var close := ['\''] + rest;
    if v == [] {
      assert Escape(v) + close == close;
      assert close[1..] == rest;
      assert word + v == word;
    } else {
      var tail := Escape(v[1..]) + close;
      assert Escape(v) + close == EscapeOne(v[0]) + tail;
      OneReadsBack(v[0], tail, word);
      EscapeReadsBack(v[1..], rest, word + [v[0]]);
      assert word + [v[0]] + v[1..] == word + v;
    }
  }

  /** A quoted stretch adds exactly its contents to the word it is part of. */
  lemma QuotedReadsBack(v: string, rest: string, word: Option<string>)
    ensures Lex(Quoted(v) + rest, word) == Lex(rest, Some(Grown(word, v)))
  {
    assert (Quoted(v) + rest)[1..] == Escape(v) + (['\''] + rest);
    EscapeReadsBack(v, rest, Grown(word, []));
    assert Grown(word, []) + v == Grown(word, v);
  }

  /** What ends a word or begins a quotation. */
  predicate IsBreak(c: char) {
    c == ' ' || c == '\t' || c == '\n' || c == '(' || c == ')' || c == '\'' || c == '\\'
  }

  /** What the writer leaves unquoted no shell takes for anything else. */
  lemma PlainIsNotSpecial(c: char, inWord: bool)
    requires IsPlain(c)
    ensures !IsSpecial(c, inWord) && !IsBreak(c)
  {
  }

  lemma EqualsInsideAWord()
    ensures !IsSpecial('=', true)
  {
  }

  lemma LiteralStep(s: string, word: Option<string>)
    requires s != [] && !IsSpecial(s[0], word.Some?) && !IsBreak(s[0])
    ensures Lex(s, word) == Lex(s[1..], Some(Grown(word, [s[0]])))
  {
    hide IsSpecial;
  }

  lemma PlainStep(s: string, word: Option<string>)
    requires s != [] && IsPlain(s[0])
    ensures Lex(s, word) == Lex(s[1..], Some(Grown(word, [s[0]])))
  {
    hide Lex, IsPlain, IsSpecial;
    PlainIsNotSpecial(s[0], word.Some?);
    LiteralStep(s, word);
  }

  lemma {:induction false} PlainReadsBack(v: string, rest: string, word: Option<string>)
    requires AllPlain(v) && v != []
    ensures Lex(v + rest, word) == Lex(rest, Some(Grown(word, v)))
  {
    hide Lex;
    assert (v + rest)[1..] == v[1..] + rest && (v + rest)[0] == v[0];
    PlainStep(v + rest, word);
    if |v| == 1 {
      assert v[1..] + rest == rest;
      assert [v[0]] == v;
    } else {
      PlainReadsBack(v[1..], rest, Some(Grown(word, [v[0]])));
      assert Grown(word, [v[0]]) + v[1..] == Grown(word, v);
    }
  }

  /** Whatever `v` holds, its quoted form adds exactly `v` to the word it is part of. */
  lemma ShellQuoteReadsBack(v: string, rest: string, word: Option<string>)
    ensures Lex(ShellQuote(v) + rest, word) == Lex(rest, Some(Grown(word, v)))
  {
    if v == [] {
      assert ShellQuote(v) == Quoted(v);
      QuotedReadsBack(v, rest, word);
    } else if AllPlain(v) {
      PlainReadsBack(v, rest, word);
    } else {
      QuotedReadsBack(v, rest, word);
    }
  }

  /** `shell_quote(v)` is the single word `v`. */
  lemma ShellQuoteIsOneWord(v: string)
    ensures Lex(ShellQuote(v), None) == Some([Word(v)])
  {
    ShellQuoteReadsBack(v, [], None);
    assert ShellQuote(v) + [] == ShellQuote(v);
  }

  lemma {:induction false} ListReadsBack(vs: seq<string>, rest: string)
    requires vs != []
    ensures Lex(Joined(QuotedAll(vs), ' ') + rest, None) == After(Words(vs[..|vs| - 1]), Lex(rest, Some(vs[|vs| - 1])))
  {
    var all := QuotedAll(vs);
    if |vs| == 1 {
      assert QuotedAll(vs[1..]) == [];
      ShellQuoteReadsBack(vs[0], rest, None);
      assert Words(vs[..0]) == [];
      SameAfter(Lex(rest, Some(vs[0])));
    } else {
      var tail := Joined(QuotedAll(vs[1..]), ' ') + rest;
      assert all[1..] == QuotedAll(vs[1..]);
      assert Joined(all, ' ') + rest == ShellQuote(vs[0]) + ([' '] + tail);
      ShellQuoteReadsBack(vs[0], [' '] + tail, None);
      assert ([' '] + tail)[1..] == tail;
      ListReadsBack(vs[1..], rest);
      var init := vs[..|vs| - 1];
      assert init[1..] == vs[1..][..|vs| - 2];
      assert Words(init) == [Word(vs[0])] + Words(init[1..]);
      AfterTwice([Word(vs[0])], Words(init[1..]), Words(init), Lex(rest, Some(vs[|vs| - 1])));
    }
  }

  lemma SameAfter(rest: Option<seq<Token>>)
    ensures After([], rest) == rest
  {
    if rest.Some? { assert [] + rest.value == rest.value; }
  }

  lemma AfterTwice(a: seq<Token>, b: seq<Token>, ab: seq<Token>, rest: Option<seq<Token>>)
    requires a + b == ab
    ensures After(a, After(b, rest)) == After(ab, rest)
  {
    if rest.Some? { assert a + (b + rest.value) == ab + rest.value; }
  }

  lemma {:induction false} WordsSnoc(vs: seq<string>)
    requires vs != []
    ensures Words(vs) == Words(vs[..|vs| - 1]) + [Word(vs[|vs| - 1])]
  {
    if |vs| > 1 {
      WordsSnoc(vs[1..]);
      assert vs[1..][..|vs| - 2] == vs[..|vs| - 1][1..];
    }
  }

  /** A space-joined list of quoted values splits back into the list. */
  lemma JoinedListSplitsBack(vs: seq<string>)
    ensures Lex(Joined(QuotedAll(vs), ' '), None) == Some(Words(vs))
  {
    if vs != [] {
      ListReadsBack(vs, []);
      WordsSnoc(vs);
      assert Joined(QuotedAll(vs), ' ') + [] == Joined(QuotedAll(vs), ' ');
    }
  }

  // ----- the associative-array export -----

  function PairTokens(rows: seq<Row>): seq<Token> {
    if rows == [] then []
    else
      var n := |rows| - 1;
      PairTokens(rows[..n]) + [Word(rows[n].key), Word(JsonText.Unjson(rows[n].value)), Newline]
  }

  lemma WordReadsBack(v: string, c: char, rest: string)
    requires IsSeparator(c)
    ensures Lex(Quoted(v) + ([c] + rest), None) == After(Ended(Some(v), c), Lex(rest, None))
  {
    QuotedReadsBack(v, [c] + rest, None);
    SeparatorReadsBack(c, rest, Some(v));
  }

  lemma PlainWordReadsBack(v: string, c: char, rest: string)
    requires IsSeparator(c) && AllPlain(v) && v != []
    ensures Lex(v + ([c] + rest), None) == After(Ended(Some(v), c), Lex(rest, None))
  {
    PlainReadsBack(v, [c] + rest, None);
    SeparatorReadsBack(c, rest, Some(v));
  }

  lemma PairReadsBack(key: string, value: string, rest: string)
    ensures Lex(PairLine(key, value) + rest, None) == After([Word(key), Word(value), Newline], Lex(rest, None))
  {
    var tail := Quoted(value) + (['\n'] + rest);
    assert PairLine(key, value) + rest == Quoted(key) + ([' '] + tail);
    WordReadsBack(key, ' ', tail);
    WordReadsBack(value, '\n', rest);
    AfterTwice([Word(key)], [Word(value), Newline], [Word(key), Word(value), Newline], Lex(rest, None));
  }

  lemma {:induction false} PairLinesReadBack(rows: seq<Row>, rest: string)
    ensures Lex(PairLines(rows) + rest, None) == After(PairTokens(rows), Lex(rest, None))
  {
    if rows == [] {
      assert PairLines(rows) + rest == rest;
      SameAfter(Lex(rest, None));
    } else {
      var n := |rows| - 1;
      var key, value := rows[n].key, JsonText.Unjson(rows[n].value);
      var line := PairLine(key, value);
      assert PairLines(rows) + rest == PairLines(rows[..n]) + (line + rest);
      PairLinesReadBack(rows[..n], line + rest);
      PairReadsBack(key, value, rest);
      AfterTwice(PairTokens(rows[..n]), [Word(key), Word(value), Newline], PairTokens(rows), Lex(rest, None));
    }
  }

  /** The export reads back as the two head lines and then exactly the rows' key and
      value words, in order, whatever quotes and newlines they hold. */
  lemma AssocHashReadsBack(name: string, rows: seq<Row>, additive: bool)
    requires name != [] && AllPlain(name)
    ensures Lex(AssocHash(name, rows, additive), None)
      == Some([Word("typeset"), Word("-gA"), Word(name), Newline]
              + [Word(if additive then name + "+=" else name + "="), Open, Newline] + (PairTokens(rows) + [Close, Newline]))
  {
    var pairs := PairLines(rows) + [')', '\n'];
    assert AssocHash(name, rows, additive) == HeadLines(name, additive) + pairs;
    HeadReadsBack(name, additive, pairs);
    PairLinesReadBack(rows, [')', '\n']);
    TailReadsBack();
  }

  lemma TailReadsBack()
    ensures Lex([')', '\n'], None) == Some([Close, Newline])
  {
    assert [')', '\n'] == [')'] + ['\n'] && ['\n'] + [] == ['\n'];
    SeparatorReadsBack(')', ['\n'], None);
    SeparatorReadsBack('\n', [], None);
    assert Lex([], None) == Some([]);
    AfterTwice([Close], [Newline], [Close, Newline], Some([]));
    assert [Close, Newline] + [] == [Close, Newline];
  }

  lemma HeadReadsBack(name: string, additive: bool, rest: string)
    requires name != [] && AllPlain(name)
    ensures Lex(HeadLines(name, additive) + rest, None)
      == After([Word("typeset"), Word("-gA"), Word(name), Newline] + [Word(Assign(name, additive)), Open, Newline], Lex(rest, None))
  {
    var body := Assign(name, additive) + (['('] + (['\n'] + rest));
    assert HeadLines(name, additive) + rest == "typeset -gA " + name + (['\n'] + body);
    FirstLineReadsBack(name, body);
    AssignReadsBack(name, additive, rest);
    AfterTwice([Word("typeset"), Word("-gA"), Word(name), Newline], [Word(Assign(name, additive)), Open, Newline],
               [Word("typeset"), Word("-gA"), Word(name), Newline] + [Word(Assign(name, additive)), Open, Newline], Lex(rest, None));
  }

  lemma FirstLineReadsBack(name: string, rest: string)
    requires name != [] && AllPlain(name)
    ensures Lex("typeset -gA " + name + (['\n'] + rest), None)
      == After([Word("typeset"), Word("-gA"), Word(name), Newline], Lex(rest, None))
  {
    var last := name + (['\n'] + rest);
    var second := "-gA" + ([' '] + last);
    assert "typeset -gA " + last == "typeset" + ([' '] + second);
    assert "typeset -gA " + name + (['\n'] + rest) == "typeset -gA " + last;
    PlainWordReadsBack("typeset", ' ', second);
    PlainWordReadsBack("-gA", ' ', last);
    PlainWordReadsBack(name, '\n', rest);
    AfterTwice([Word("-gA")], [Word(name), Newline], [Word("-gA"), Word(name), Newline], Lex(rest, None));
    AfterTwice([Word("typeset")], [Word("-gA"), Word(name), Newline], [Word("typeset"), Word("-gA"), Word(name), Newline], Lex(rest, None));
  }

  /** `name=` or `name+=` at the start of a word. */
  lemma TargetReadsBack(name: string, additive: bool, rest: string)
    requires name != [] && AllPlain(name)
    ensures Lex(Assign(name, additive) + rest, None) == Lex(rest, Some(Assign(name, additive)))
  {
    var word := Assign(name, additive);
    var stem := if additive then name + ['+'] else name;
    assert word == stem + ['='];
    assert word + rest == stem + (['='] + rest);
    hide Lex, IsSpecial, AllPlain;
    if additive { PlusIsPlain(name); }
    PlainReadsBack(stem, ['='] + rest, None);
    assert (['='] + rest)[1..] == rest;
    EqualsInsideAWord();
    LiteralStep(['='] + rest, Some(stem));
  }

  lemma PlusIsPlain(name: string)
    requires AllPlain(name)
    ensures AllPlain(name + ['+'])
  {
  }

  lemma AssignReadsBack(name: string, additive: bool, rest: string)
    requires name != [] && AllPlain(name)
    ensures Lex(Assign(name, additive) + (['('] + (['\n'] + rest)), None)
      == After([Word(Assign(name, additive)), Open, Newline], Lex(rest, None))
  {
    var word := Assign(name, additive);
    TargetReadsBack(name, additive, ['('] + (['\n'] + rest));
    SeparatorReadsBack('(', ['\n'] + rest, Some(word));
    SeparatorReadsBack('\n', rest, None);
    AfterTwice([Word(word), Open], [Newline], [Word(word), Open, Newline], Lex(rest, None));
  }

  // ----- the search-path export -----

  /** The lines `render_sh` writes for a search path: the array, wiped first unless
      additive, and the colon-joined variable. */
  function PathExport(lower: string, upper: string, dirs: seq<string>, additive: bool): string {
    (if additive then [] else WipeLine(lower)) + SetLines(lower, upper, dirs)
  }

  function SetLines(lower: string, upper: string, dirs: seq<string>): string {
    if dirs == [] then [] else ArrayLine(lower, dirs) + VariableLine(upper, dirs)
  }

  function WipeLine(lower: string): string {
    Assign(lower, false) + (['('] + ([')'] + ['\n']))
  }

  function ArrayLine(lower: string, dirs: seq<string>): string {
    Assign(lower, true) + (['('] + (Joined(QuotedAll(dirs), ' ') + ([')'] + ['\n'])))
  }

  function VariableLine(upper: string, dirs: seq<string>): string {
    "export " + (Assign(upper, false) + (ShellQuote(Joined(dirs, ':')) + ['\n']))
  }

  function PathTokens(lower: string, upper: string, dirs: seq<string>, additive: bool): seq<Token> {
    (if additive then [] else [Word(lower + "="), Open, Close, Newline]) + SetTokens(lower, upper, dirs)
  }

  function SetTokens(lower: string, upper: string, dirs: seq<string>): seq<Token> {
    if dirs == [] then []
    else
      ([Word(lower + "+="), Open] + (Words(dirs) + [Close, Newline]))
      + [Word("export"), Word(upper + "=" + Joined(dirs, ':')), Newline]
  }

  lemma WipeReadsBack(lower: string, rest: string)
    requires lower != [] && AllPlain(lower)
    ensures Lex(WipeLine(lower) + rest, None) == After([Word(Assign(lower, false)), Open, Close, Newline], Lex(rest, None))
  {
    var word := Assign(lower, false);
    var tail := ['\n'] + rest;
    assert WipeLine(lower) + rest == word + (['('] + ([')'] + tail));
    TargetReadsBack(lower, false, ['('] + ([')'] + tail));
    SeparatorReadsBack('(', [')'] + tail, Some(word));
    SeparatorReadsBack(')', tail, None);
    SeparatorReadsBack('\n', rest, None);
    AfterTwice([Close], [Newline], [Close, Newline], Lex(rest, None));
    AfterTwice([Word(word), Open], [Close, Newline], [Word(word), Open, Close, Newline], Lex(rest, None));
  }

  lemma ArrayReadsBack(lower: string, dirs: seq<string>, rest: string)
    requires lower != [] && AllPlain(lower) && dirs != []
    ensures Lex(ArrayLine(lower, dirs) + rest, None)
      == After([Word(Assign(lower, true)), Open] + (Words(dirs) + [Close, Newline]), Lex(rest, None))
  {
    var word, list, found := Assign(lower, true), Joined(QuotedAll(dirs), ' '), Lex(rest, None);
    var last, init := dirs[|dirs| - 1], Words(dirs[..|dirs| - 1]);
    var tail := [')'] + (['\n'] + rest);
    assert ArrayLine(lower, dirs) + rest == word + (['('] + (list + tail));
    TargetReadsBack(lower, true, ['('] + (list + tail));
    SeparatorReadsBack('(', list + tail, Some(word));
    ListReadsBack(dirs, tail);
    SeparatorReadsBack(')', ['\n'] + rest, Some(last));
    SeparatorReadsBack('\n', rest, None);
    AfterTwice([Word(last), Close], [Newline], [Word(last), Close, Newline], found);
    WordsSnoc(dirs);
    AfterTwice(init, [Word(last), Close, Newline], Words(dirs) + [Close, Newline], found);
    AfterTwice([Word(word), Open], Words(dirs) + [Close, Newline],
               [Word(word), Open] + (Words(dirs) + [Close, Newline]), found);
  }

  lemma VariableReadsBack(upper: string, dirs: seq<string>)
    requires upper != [] && AllPlain(upper)
    ensures Lex(VariableLine(upper, dirs), None)
      == Some([Word("export"), Word(Assign(upper, false) + Joined(dirs, ':')), Newline])
  {
    var name, value := Assign(upper, false), Joined(dirs, ':');
    var tail := name + (ShellQuote(value) + ['\n']);
    assert VariableLine(upper, dirs) == "export" + ([' '] + tail);
    PlainWordReadsBack("export", ' ', tail);
    TargetReadsBack(upper, false, ShellQuote(value) + ['\n']);
    ShellQuoteReadsBack(value, ['\n'], Some(name));
    assert ['\n'] + [] == ['\n'];
    SeparatorReadsBack('\n', [], Some(name + value));
    assert Lex([], None) == Some([]);
    var line := [Word(name + value), Newline];
    AfterTwice([Word("export")], line, [Word("export")] + line, Some([]));
    assert [Word("export")] + line + [] == [Word("export"), Word(name + value), Newline];
  }

  /** A search-path export reads back as assignments of exactly the directories, one
      word each, and of their colon-joined list, whatever the names hold. */
  lemma PathExportReadsBack(lower: string, upper: string, dirs: seq<string>, additive: bool)
    requires lower != [] && AllPlain(lower) && upper != [] && AllPlain(upper)
    ensures Lex(PathExport(lower, upper, dirs, additive), None) == Some(PathTokens(lower, upper, dirs, additive))
  {
    var rest := SetLines(lower, upper, dirs);
    SetReadsBack(lower, upper, dirs);
    if additive {
      assert PathExport(lower, upper, dirs, additive) == rest;
      assert PathTokens(lower, upper, dirs, additive) == SetTokens(lower, upper, dirs);
    } else {
      WipeReadsBack(lower, rest);
    }
  }

  lemma SetReadsBack(lower: string, upper: string, dirs: seq<string>)
    requires lower != [] && AllPlain(lower) && upper != [] && AllPlain(upper)
    ensures Lex(SetLines(lower, upper, dirs), None) == Some(SetTokens(lower, upper, dirs))
  {
    if dirs == [] {
      assert Lex([], None) == Some([]);
    } else {
      ArrayReadsBack(lower, dirs, VariableLine(upper, dirs));
      VariableReadsBack(upper, dirs);
    }
  }
}
