/** `glob_to_regex`: a shell glob translated to regex text, and what the text matches
    once a regex engine has parsed it. */
module Glob {
  import opened Text

  // ----- the translation -----

  predicate IsEscaped(c: char) {
    || c == '.' || c == '+' || c == '(' || c == ')' || c == '|' || c == '^' || c == '$' || c == '{' || c == '}'
    || c == '\\'
  }

  /** How much of `s`, the text behind a `[`, is copied as it is: up to and including
      the first `]`. */
  function BracketLength(s: string): (n: nat)
    ensures n <= |s|
  {
    if s == [] then 0 else if s[0] == ']' then 1 else 1 + BracketLength(s[1..])
  }

  /** The text for one character outside brackets. */
  function Piece(c: char): string {
    if c == '*' then ['.', '*'] else if c == '?' then ['.'] else if IsEscaped(c) then ['\\', c] else [c]
  }

  function Body(glob: string): string
    decreases |glob|
  {
    if glob == [] then []
    else if glob[0] == '[' then
      var n := 1 + BracketLength(glob[1..]);
      glob[..n] + Body(glob[n..])
    else Piece(glob[0]) + Body(glob[1..])
  }

  function Emitted(glob: string): string {
    "^" + Body(glob) + "$"
  }

  method GlobToRegex(glob: string) returns (re: string)
    ensures re == Emitted(glob)
  {
    re := "^";
    var i := 0;
    while i < |glob|
      invariant i <= |glob|
      invariant re + Body(glob[i..]) == "^" + Body(glob)
    {
      ghost var before, start := re, i;
      if glob[i] == '[' {
        i, re := CopyBracket(glob, i, re);
      } else {
        if glob[i] == '*' {
          re := re + ['.', '*'];
        } else if glob[i] == '?' {
          re := re + ['.'];
        } else if IsEscaped(glob[i]) {
          re := re + ['\\', glob[i]];
        } else {
          re := re + [glob[i]];
        }
        i := i + 1;
      }
      BodyStep(glob, start, i, before, re);
    }
    re := re + "$";
  }

  /** The inner loop: copy a bracket expression through its `]`. */
  method CopyBracket(glob: string, start: nat, out: string) returns (i: nat, re: string)
    requires start < |glob| && glob[start] == '['
    ensures i == start + 1 + BracketLength(glob[start + 1..]) && re == out + glob[start..i]
  {
    i, re := start + 1, out + ['['];
    while i < |glob|
      invariant start < i <= |glob|
      invariant re == out + glob[start..i]
      invariant BracketLength(glob[start + 1..]) == i - start - 1 + BracketLength(glob[i..])
    {
      assert glob[i..][1..] == glob[i + 1..];
      if glob[i] == ']' {
        re := re + [']'];
        i := i + 1;
        break;
      }
      re := re + [glob[i]];
      i := i + 1;
    }
  }

  lemma BodyStep(glob: string, i: nat, next: nat, before: string, after: string)
    requires i < next <= |glob|
    requires if glob[i] == '[' then next == i + 1 + BracketLength(glob[i + 1..]) && after == before + glob[i..next]
             else next == i + 1 && after == before + Piece(glob[i])
    ensures after + Body(glob[next..]) == before + Body(glob[i..])
  {
    hide IsEscaped, Piece, BracketLength;
    var rest := glob[i..];
    assert rest[1..] == glob[i + 1..] && rest[next - i..] == glob[next..] && rest[..next - i] == glob[i..next];
    var front, more := if glob[i] == '[' then glob[i..next] else Piece(glob[i]), Body(glob[next..]);
    assert Body(rest) == front + more;
    assert before + (front + more) == before + front + more;
  }

  // ----- brackets the model follows -----

  /** A character that means itself inside brackets, to shells and regex engines
      alike. */
  predicate IsPlain(c: char) {
    c != '[' && c != ']' && c != '\\' && c != '^' && c != '-' && c != '&' && c != '~' && c != '!'
  }

  /** Plain characters and ranges of them. */
  predicate Items(body: string) {
    body == [] ||
    (IsPlain(body[0]) &&
     if |body| >= 2 && body[1] == '-' then |body| >= 3 && IsPlain(body[2]) && body[0] <= body[2] && Items(body[3..])
     else Items(body[1..]))
  }

  /** How much of the glob stands for one thing: a bracket expression, or a character. */
  function Width(glob: string): (w: nat)
    requires glob != []
    ensures 1 <= w <= |glob|
  {
    if glob[0] == '[' then 1 + BracketLength(glob[1..]) else 1
  }

  /** What is between the brackets at the front. */
  function Inside(glob: string): string
    requires glob != []
  {
    if Width(glob) >= 2 then glob[1..Width(glob) - 1] else []
  }

  /** Every bracket expression is closed and made of plain characters and ranges. */
  predicate Modelled(glob: string)
    decreases |glob|
  {
    glob == [] ||
    ((glob[0] == '[' ==> glob[Width(glob) - 1] == ']' && Inside(glob) != [] && Items(Inside(glob))) && Modelled(glob[Width(glob)..]))
  }

  lemma {:induction false} BracketFreeIsModelled(glob: string)
    requires '[' !in glob
    ensures Modelled(glob)
  {
    if glob != [] { BracketFreeIsModelled(glob[1..]); }
  }

  // ----- a regex engine for the text -----

  datatype Atom = Any | Lit(c: char) | Class(ranges: seq<(char, char)>)

  datatype Node = Start | End | One(atom: Atom) | Star(atom: Atom)

  /** Parse regex text made of literals, escaped punctuation, `.`, `^`, `$`, stars and
      classes of plain characters and ranges. Anything else a regex can hold (groups,
      other repetitions, class operators) is refused. */
  function Parse(re: string): Option<seq<Node>>
    decreases |re|, 0
  {
    if re == [] then Some([])
    else if re[0] == '^' then Then(Start, Parse(re[1..]))
    else if re[0] == '$' then Then(End, Parse(re[1..]))
    else if re[0] == '\\' then
      if |re| >= 2 && IsEscaped(re[1]) then Repeated(Lit(re[1]), re[2..]) else None
    else if re[0] == '[' then
      var r := Ranges(re[1..]);
      if r.None? || r.value.0 == [] then None else Repeated(Class(r.value.0), re[1 + r.value.1..])
    else if Unmodelled(re[0]) then None
    else Repeated(if re[0] == '.' then Any else Lit(re[0]), re[1..])
  }

  predicate Unmodelled(c: char) {
    c == '*' || c == '+' || c == '?' || c == '(' || c == ')' || c == '|' || c == '{' || c == '}'
  }

  /** A class from behind its `[`: the ranges, and how much of the text they take with
      the closing bracket. */
  function Ranges(s: string): (r: Option<(seq<(char, char)>, nat)>)
    ensures r.Some? ==> 1 <= r.value.1 <= |s|
  {
    if s == [] then None
    else if s[0] == ']' then Some(([], 1))
    else if !IsPlain(s[0]) then None
    else if |s| >= 2 && s[1] == '-' then
      if |s| >= 3 && IsPlain(s[2]) && s[0] <= s[2] then Ranged((s[0], s[2]), 3, Ranges(s[3..])) else None
    else Ranged((s[0], s[0]), 1, Ranges(s[1..]))
  }

  function Ranged(range: (char, char), width: nat, rest: Option<(seq<(char, char)>, nat)>): Option<(seq<(char, char)>, nat)> {
    if rest.None? then None else Some(([range] + rest.value.0, width + rest.value.1))
  }

  /** An atom and the star that may follow it. */
  function Repeated(atom: Atom, rest: string): Option<seq<Node>>
    decreases |rest|, 1
  {
    if rest != [] && rest[0] == '*' then Then(Star(atom), Parse(rest[1..])) else Then(One(atom), Parse(rest))
  }

  function Then(node: Node, rest: Option<seq<Node>>): Option<seq<Node>> {
    if rest.None? then None else Some([node] + rest.value)
  }

  predicate Within(ranges: seq<(char, char)>, c: char) {
    exists i :: 0 <= i < |ranges| && ranges[i].0 <= c <= ranges[i].1
  }

  /** `.` is any character but a newline; a class may hold one. */
  predicate Takes(atom: Atom, c: char) {
    match atom
    case Any => c != '\n'
    case Lit(l) => c == l
    case Class(ranges) => Within(ranges, c)
  }

  predicate MatchAt(nodes: seq<Node>, name: string, i: nat)
    requires i <= |name|
    decreases |nodes|, |name| - i
  {
    if nodes == [] then true
    else match nodes[0]
      case Start => i == 0 && MatchAt(nodes[1..], name, i)
      case End => i == |name| && MatchAt(nodes[1..], name, i)
      case One(atom) => i < |name| && Takes(atom, name[i]) && MatchAt(nodes[1..], name, i + 1)
      case Star(atom) =>
        MatchAt(nodes[1..], name, i) || (i < |name| && Takes(atom, name[i]) && MatchAt(nodes, name, i + 1))
  }

  /** `Regex::is_match`: a match starting anywhere. */
  predicate IsMatch(nodes: seq<Node>, name: string) {
    exists i :: 0 <= i <= |name| && MatchAt(nodes, name, i)
  }

  // ----- what the glob itself accepts -----

  /** A bracket expression: one of its characters, or one within its ranges. */
  predicate InBracket(body: string, c: char) {
    if body == [] then false
    else if |body| >= 3 && body[1] == '-' then body[0] <= c <= body[2] || InBracket(body[3..], c)
    else body[0] == c || InBracket(body[1..], c)
  }

  predicate Wild(c: char, lines: bool) {
    lines ==> c != '\n'
  }

  /** What the front of the glob, if it is not a star, takes. */
  predicate TakesOne(glob: string, c: char, lines: bool)
    requires glob != []
  {
    if glob[0] == '?' then Wild(c, lines)
    else if glob[0] == '[' then InBracket(Inside(glob), c)
    else c == glob[0]
  }

  /** Section 2.13 of POSIX.1-2017 XCU: `*` is any string, `?` any character, a bracket
      expression one of its members, everything else itself. With `lines` the wildcards
      stay within one line. */
  predicate Accepts(glob: string, name: string, lines: bool)
    decreases |glob|, |name|
  {
    if glob == [] then name == []
    else if glob[0] == '*' then
      Accepts(glob[1..], name, lines) || (name != [] && Wild(name[0], lines) && Accepts(glob, name[1..], lines))
    else
      name != [] && TakesOne(glob, name[0], lines) && Accepts(glob[Width(glob)..], name[1..], lines)
  }

  // ----- the translation means the glob -----

  function BodyRanges(body: string): seq<(char, char)>
    requires Items(body)
  {
    if body == [] then []
    else if |body| >= 2 && body[1] == '-' then [(body[0], body[2])] + BodyRanges(body[3..])
    else [(body[0], body[0])] + BodyRanges(body[1..])
  }

  lemma {:induction false} RangesParse(body: string, rest: string)
    requires Items(body)
    ensures Ranges(body + ([']'] + rest)) == Some((BodyRanges(body), |body| + 1))
  {
    var s := body + ([']'] + rest);
    if body == [] {
    } else if |body| >= 2 && body[1] == '-' {
      assert s[3..] == body[3..] + ([']'] + rest);
      RangesParse(body[3..], rest);
    } else {
      assert s[1..] == body[1..] + ([']'] + rest);
      RangesParse(body[1..], rest);
    }
  }

  lemma WithinFirst(range: (char, char), ranges: seq<(char, char)>, c: char)
    ensures Within([range] + ranges, c) <==> range.0 <= c <= range.1 || Within(ranges, c)
  {
    var all := [range] + ranges;
    if Within(ranges, c) {
      var i :| 0 <= i < |ranges| && ranges[i].0 <= c <= ranges[i].1;
      assert all[i + 1] == ranges[i];
    }
    if range.0 <= c <= range.1 { assert all[0] == range; }
  }

  lemma {:induction false} RangesAreTheBracket(body: string, c: char)
    requires Items(body)
    ensures Within(BodyRanges(body), c) <==> InBracket(body, c)
  {
    if body == [] {
    } else if |body| >= 2 && body[1] == '-' {
      RangesAreTheBracket(body[3..], c);
      WithinFirst((body[0], body[2]), BodyRanges(body[3..]), c);
    } else {
      RangesAreTheBracket(body[1..], c);
      WithinFirst((body[0], body[0]), BodyRanges(body[1..]), c);
    }
  }

  function NodeOf(glob: string): Node
    requires glob != [] && Modelled(glob)
  {
    if glob[0] == '*' then Star(Any)
    else if glob[0] == '?' then One(Any)
    else if glob[0] == '[' then One(Class(BodyRanges(Inside(glob))))
    else One(Lit(glob[0]))
  }

  function Nodes(glob: string): seq<Node>
    requires Modelled(glob)
    decreases |glob|
  {
    if glob == [] then [End] else [NodeOf(glob)] + Nodes(glob[Width(glob)..])
  }

  /** The text for the front of the glob. */
  function First(glob: string): string
    requires glob != []
  {
    if glob[0] == '[' then glob[..Width(glob)] else Piece(glob[0])
  }

  lemma {:induction false} BodyParses(glob: string)
    requires Modelled(glob)
    ensures Parse(Body(glob) + ['$']) == Some(Nodes(glob))
    ensures Body(glob) + ['$'] != [] && (Body(glob) + ['$'])[0] != '*'
    decreases |glob|
  {
    if glob == [] {
      assert Body(glob) + ['$'] == ['$'] && ['$'][1..] == [];
      assert Parse([]) == Some([]) && Nodes(glob) == [End] + [];
    } else {
      var rest := Body(glob[Width(glob)..]) + ['$'];
      BodyParses(glob[Width(glob)..]);
      assert Body(glob) + ['$'] == First(glob) + rest;
      if glob[0] == '[' { BracketParses(glob, rest); } else { PieceParses(glob, rest); }
    }
  }

  lemma ClassParses(body: string, rest: string)
    requires Items(body) && body != [] && rest != [] && rest[0] != '*'
    ensures Parse(['['] + (body + ([']'] + rest))) == Then(One(Class(BodyRanges(body))), Parse(rest))
  {
    hide IsEscaped, Unmodelled, Items;
    var tail := body + ([']'] + rest);
    var re := ['['] + tail;
    assert re[0] == '[' && re[1..] == tail;
    RangesParse(body, rest);
    assert re[1 + (|body| + 1)..] == rest;
    assert BodyRanges(body) != [];
  }

  lemma BracketParses(glob: string, rest: string)
    requires glob != [] && glob[0] == '[' && Modelled(glob) && rest != [] && rest[0] != '*'
    ensures Parse(First(glob) + rest) == Then(NodeOf(glob), Parse(rest))
  {
    hide Parse, Items, BodyRanges;
    var body := Inside(glob);
    assert First(glob) + rest == ['['] + (body + ([']'] + rest));
    ClassParses(body, rest);
  }

  lemma PieceParses(glob: string, rest: string)
    requires glob != [] && glob[0] != '[' && Modelled(glob) && rest != [] && rest[0] != '*'
    ensures Parse(First(glob) + rest) == Then(NodeOf(glob), Parse(rest))
  {
    var c := glob[0];
    var re := Piece(c) + rest;
    if c == '*' {
      assert re[1..] == ['*'] + rest && re[1..][1..] == rest;
    } else if c == '?' {
      assert re[1..] == rest;
    } else if IsEscaped(c) {
      assert re[2..] == rest;
    } else {
      assert re[1..] == rest;
    }
  }

  lemma FrontTakes(glob: string, c: char)
    requires glob != [] && glob[0] != '*' && Modelled(glob)
    ensures NodeOf(glob).One? && (Takes(NodeOf(glob).atom, c) <==> TakesOne(glob, c, true))
  {
    if glob[0] == '[' { RangesAreTheBracket(Inside(glob), c); }
  }

  lemma {:induction false} NodesMatch(glob: string, name: string, i: nat)
    requires Modelled(glob) && i <= |name|
    ensures MatchAt(Nodes(glob), name, i) <==> Accepts(glob, name[i..], true)
    decreases |glob|, |name| - i
  {
    if glob == [] {
      assert MatchAt([], name, i);
    } else {
      var more := glob[Width(glob)..];
      assert Nodes(glob)[0] == NodeOf(glob) && Nodes(glob)[1..] == Nodes(more);
      if i < |name| {
        assert name[i..][0] == name[i] && name[i..][1..] == name[i + 1..];
      }
      if glob[0] == '*' {
        NodesMatch(more, name, i);
        if i < |name| { NodesMatch(glob, name, i + 1); }
      } else if i < |name| {
        FrontTakes(glob, name[i]);
        NodesMatch(more, name, i + 1);
      } else {
        FrontTakes(glob, 'x');
      }
    }
  }

  /** For every glob whose brackets are plain the emitted text is a regex, and it
      matches exactly the names the glob accepts with its wildcards kept to one line. */
  lemma TranslationMeans(glob: string, name: string)
    requires Modelled(glob)
    ensures Parse(Emitted(glob)).Some?
    ensures IsMatch(Parse(Emitted(glob)).value, name) <==> Accepts(glob, name, true)
  {
    BodyParses(glob);
    assert Emitted(glob)[1..] == Body(glob) + ['$'];
    var nodes := Parse(Emitted(glob)).value;
    assert nodes == [Start] + Nodes(glob) && nodes[1..] == Nodes(glob);
    NodesMatch(glob, name, 0);
    assert name[0..] == name;
    assert MatchAt(nodes, name, 0) <==> Accepts(glob, name, true);
  }

  lemma {:induction false} OneLineNames(glob: string, name: string)
    requires '\n' !in name
    ensures Accepts(glob, name, true) <==> Accepts(glob, name, false)
    decreases |glob|, |name|
  {
    if glob != [] {
      if glob[0] == '*' { OneLineNames(glob[1..], name); }
      if name != [] {
        if glob[0] == '*' { OneLineNames(glob, name[1..]); } else { OneLineNames(glob[Width(glob)..], name[1..]); }
      }
    }
  }

  /** On names without a newline the regex is the glob. */
  lemma TranslationPreservesMeaning(glob: string, name: string)
    requires Modelled(glob) && '\n' !in name
    ensures Parse(Emitted(glob)).Some?
    ensures IsMatch(Parse(Emitted(glob)).value, name) <==> Accepts(glob, name, false)
  {
    TranslationMeans(glob, name);
    OneLineNames(glob, name);
  }

  // ----- and only there -----

  function Newlines(s: string): nat {
    if s == [] then 0 else (if s[0] == '\n' then 1 else 0) + Newlines(s[1..])
  }

  function Wildcards(glob: string): nat
    decreases |glob|
  {
    if glob == [] then 0
    else (if glob[0] == '*' || glob[0] == '?' then 1 else 0) + Wildcards(glob[Width(glob)..])
  }

  /** How many newlines the glob itself can ask for. */
  function OwnNewlines(glob: string): nat
    decreases |glob|
  {
    if glob == [] then 0
    else
      (if glob[0] == '\n' || (glob[0] == '[' && InBracket(Inside(glob), '\n')) then 1 else 0)
      + OwnNewlines(glob[Width(glob)..])
  }

  /** A name whose every wildcard was taken for a newline, and every bracket for one if
      it may. */
  function Broken(glob: string): string
    decreases |glob|
  {
    if glob == [] then []
    else
      [if glob[0] == '*' || glob[0] == '?' then '\n'
       else if glob[0] == '[' && (Inside(glob) == [] || InBracket(Inside(glob), '\n')) then '\n'
       else if glob[0] == '[' then Inside(glob)[0]
       else glob[0]]
      + Broken(glob[Width(glob)..])
  }

  lemma {:induction false} BrokenIsAccepted(glob: string)
    requires Modelled(glob)
    ensures Accepts(glob, Broken(glob), false)
    ensures Newlines(Broken(glob)) == OwnNewlines(glob) + Wildcards(glob)
    decreases |glob|
  {
    if glob != [] {
      BrokenIsAccepted(glob[Width(glob)..]);
      assert Broken(glob)[1..] == Broken(glob[Width(glob)..]);
      if glob[0] == '*' { assert Accepts(glob, Broken(glob)[1..], false); }
    }
  }

  lemma {:induction false} NewlinesAreTheGlobs(glob: string, name: string)
    requires Accepts(glob, name, true)
    ensures Newlines(name) <= OwnNewlines(glob)
    decreases |glob|, |name|
  {
    if glob != [] {
      if glob[0] == '*' && Accepts(glob[1..], name, true) {
        NewlinesAreTheGlobs(glob[1..], name);
      } else if glob[0] == '*' {
        NewlinesAreTheGlobs(glob, name[1..]);
      } else {
        NewlinesAreTheGlobs(glob[Width(glob)..], name[1..]);
      }
    }
  }

  lemma {:induction false} WithoutWildcards(glob: string, name: string)
    requires Wildcards(glob) == 0
    ensures Accepts(glob, name, true) <==> Accepts(glob, name, false)
    decreases |glob|
  {
    if glob != [] && name != [] { WithoutWildcards(glob[Width(glob)..], name[1..]); }
  }

  /** Over names of every kind the regex is the glob exactly when the glob has no
      wildcard: `.` does not match a newline. */
  lemma PreservedForAllNamesExactlyWithoutWildcards(glob: string)
    requires Modelled(glob)
    ensures Parse(Emitted(glob)).Some?
    ensures (forall name :: IsMatch(Parse(Emitted(glob)).value, name) <==> Accepts(glob, name, false))
      <==> Wildcards(glob) == 0
  {
    TranslationMeans(glob, []);
    forall name
      ensures IsMatch(Parse(Emitted(glob)).value, name) <==> Accepts(glob, name, true)
      ensures Wildcards(glob) == 0 ==> (Accepts(glob, name, true) <==> Accepts(glob, name, false))
    {
      TranslationMeans(glob, name);
      if Wildcards(glob) == 0 { WithoutWildcards(glob, name); }
    }
    var name := Broken(glob);
    BrokenIsAccepted(glob);
    if Accepts(glob, name, true) { NewlinesAreTheGlobs(glob, name); }
  }
}
