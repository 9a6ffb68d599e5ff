/** `base64_encode`, and a strict reader of section 4 of RFC 4648. */
module Base64 {
  import opened Text

  /** A character of the text by its number: 0 to 63 in the alphabet, 64 the pad. */
  type Digit = d: int | 0 <= d <= 64

  const PAD: Digit := 64

  /** The alphabet: upper case, lower case, digits, plus and slash; the pad last. */
  function Letter(d: Digit): char {
    if d < 26 then 'A' + d as char
    else if d < 52 then 'a' + (d - 26) as char
    else if d < 62 then '0' + (d - 52) as char
    else if d == 62 then '+'
    else if d == 63 then '/'
    else '='
  }

  /** The characters are those of table 1 of RFC 4648, in its order. */
  lemma AlphabetIsInOrder(d: Digit)
    ensures Letter(0) == 'A' && Letter(26) == 'a' && Letter(52) == '0' && Letter(62) == '+' && Letter(63) == '/' && Letter(PAD) == '='
    ensures d < 61 && d != 25 && d != 51 ==> Letter(d + 1) as int == Letter(d) as int + 1
  {
  }

  function NumberOf(c: char): (d: Option<Digit>)
    ensures d.Some? ==> Letter(d.value) == c
    ensures forall x: Digit :: Letter(x) == c ==> d == Some(x)
  {
    if 'A' <= c <= 'Z' then Some((c as int) - ('A' as int))
    else if 'a' <= c <= 'z' then Some((c as int) - ('a' as int) + 26)
    else if '0' <= c <= '9' then Some((c as int) - ('0' as int) + 52)
    else if c == '+' then Some(62)
    else if c == '/' then Some(63)
    else if c == '=' then Some(64)
    else None
  }

  // ----- the encoder -----

  /** The four digits for a chunk of one, two or three bytes, most significant bits
      first. */
  function Quad(chunk: seq<Byte>): (q: seq<Digit>)
    requires 1 <= |chunk| <= 3
    ensures |q| == 4
  {
    var b1 := if |chunk| > 1 then chunk[1] else 0;
    var b2 := if |chunk| > 2 then chunk[2] else 0;
    [chunk[0] / 4, chunk[0] % 4 * 16 + b1 / 16,
     if |chunk| > 1 then b1 % 16 * 4 + b2 / 64 else PAD, if |chunk| > 2 then b2 % 64 else PAD]
  }

  function Digits(bytes: seq<Byte>): seq<Digit> {
    if bytes == [] then []
    else if |bytes| <= 3 then Quad(bytes)
    else Quad(bytes[..3]) + Digits(bytes[3..])
  }

  function Render(ds: seq<Digit>): string {
    seq(|ds|, i requires 0 <= i < |ds| => Letter(ds[i]))
  }

  method Base64Encode(bytes: seq<Byte>) returns (out: string)
    ensures out == Render(Digits(bytes))
  {
    out := "";
    var i := 0;
    ghost var done: seq<Digit> := [];
    while i < |bytes|
      invariant i <= |bytes|
      invariant out == Render(done) && done + Digits(bytes[i..]) == Digits(bytes)
    {
      var end := if i + 3 < |bytes| then i + 3 else |bytes|;
      var quad := EncodeChunk(bytes[i..end]);
      DigitsStep(bytes, i, end);
      RenderMore(done, Quad(bytes[i..end]), Digits(bytes[end..]));
      out := out + quad;
      done := done + Quad(bytes[i..end]);
      i := end;
    }
    assert bytes[i..] == [];
  }

  /** The loop body: pack the bytes into one number and shift the digits out. */
  method EncodeChunk(chunk: seq<Byte>) returns (quad: string)
    requires 1 <= |chunk| <= 3
    ensures quad == Render(Quad(chunk))
  {
    var b0: int := chunk[0];
    var b1: int := if |chunk| > 1 then chunk[1] else 0;
    var b2: int := if |chunk| > 2 then chunk[2] else 0;
    var n := b0 * 65536 + b1 * 256 + b2;
    Shifted(b0, b1, b2);
    quad := [Letter(n / 262144 % 64)];
    quad := quad + [Letter(n / 4096 % 64)];
    quad := quad + [if |chunk| > 1 then Letter(n / 64 % 64) else '='];
    quad := quad + [if |chunk| > 2 then Letter(n % 64) else '='];
  }

  lemma Shifted(b0: int, b1: int, b2: int)
    requires 0 <= b0 < 256 && 0 <= b1 < 256 && 0 <= b2 < 256
    ensures var n := b0 * 65536 + b1 * 256 + b2;
      && n / 262144 % 64 == b0 / 4 && n / 4096 % 64 == b0 % 4 * 16 + b1 / 16
      && n / 64 % 64 == b1 % 16 * 4 + b2 / 64 && n % 64 == b2 % 64
  {
    var n := b0 * 65536 + b1 * 256 + b2;
    var a, b, c, d := b0 / 4, b0 % 4 * 16 + b1 / 16, b1 % 16 * 4 + b2 / 64, b2 % 64;
    assert n == 262144 * a + 4096 * b + 64 * c + d;
    LastSextet(n, 4096 * a + 64 * b + c, d);
    LastSextet(n / 64, 64 * a + b, c);
    LastSextet(n / 64 / 64, a, b);
    ShiftedTwice(n);
  }

  lemma LastSextet(n: int, m: int, d: int)
    requires n == 64 * m + d && 0 <= d < 64
    ensures n / 64 == m && n % 64 == d
  {
  }

  lemma ShiftedTwice(n: int)
    requires 0 <= n
    ensures n / 4096 == n / 64 / 64 && n / 262144 == n / 64 / 64 / 64
  {
  }

  lemma RenderMore(done: seq<Digit>, q: seq<Digit>, rest: seq<Digit>)
    ensures Render(done) + Render(q) == Render(done + q)
    ensures done + (q + rest) == done + q + rest
  {
  }

  lemma DigitsStep(bytes: seq<Byte>, i: nat, end: nat)
    requires i < |bytes| && end == (if i + 3 < |bytes| then i + 3 else |bytes|)
    ensures Digits(bytes[i..]) == Quad(bytes[i..end]) + Digits(bytes[end..])
  {
    var rest := bytes[i..];
    assert rest[..end - i] == bytes[i..end] && rest[end - i..] == bytes[end..];
    if |rest| <= 3 { assert rest == bytes[i..end]; }
  }

  // ----- the reader -----

  /** The bytes of four digits. Padding may stand only where `last`, and the bits it
      leaves over must be zero. */
  function Group(q: seq<Digit>, last: bool): Option<seq<Byte>>
    requires |q| == 4
  {
    var a: int, b: int, c: int, d: int := q[0], q[1], q[2], q[3];
    if a == PAD || b == PAD then None
    else if c == PAD then
      if last && d == PAD && b % 16 == 0 then Some([a * 4 + b / 16]) else None
    else if d == PAD then
      if last && c % 4 == 0 then Some([a * 4 + b / 16, b % 16 * 16 + c / 4]) else None
    else Some([a * 4 + b / 16, b % 16 * 16 + c / 4, c % 4 * 64 + d])
  }

  function Ungroup(ds: seq<Digit>): Option<seq<Byte>> {
    if ds == [] then Some([])
    else if |ds| < 4 then None
    else
      var first, rest := Group(ds[..4], |ds| == 4), Ungroup(ds[4..]);
      if first.None? || rest.None? then None else Some(first.value + rest.value)
  }

  function Read(t: string): Option<seq<Digit>> {
    if t == [] then Some([])
    else
      var d, rest := NumberOf(t[0]), Read(t[1..]);
      if d.None? || rest.None? then None else Some([d.value] + rest.value)
  }

  function Decode(t: string): Option<seq<Byte>> {
    if Read(t).None? then None else Ungroup(Read(t).value)
  }

  // ----- they undo each other -----

  lemma {:induction false} RenderReads(ds: seq<Digit>)
    ensures Read(Render(ds)) == Some(ds)
  {
    if ds != [] {
      assert Render(ds)[1..] == Render(ds[1..]);
      RenderReads(ds[1..]);
      assert [ds[0]] + ds[1..] == ds;
    }
  }

  lemma {:induction false} ReadRenders(t: string)
    requires Read(t).Some?
    ensures Render(Read(t).value) == t
  {
    if t != [] {
      ReadRenders(t[1..]);
      assert Render(Read(t).value) == [t[0]] + Render(Read(t[1..]).value);
    }
  }

  /** Splitting bytes into sextets and putting them together again. */
  lemma SextetsOfBytes(b0: int, b1: int, b2: int)
    requires 0 <= b0 < 256 && 0 <= b1 < 256 && 0 <= b2 < 256
    ensures var a, b, c, d := b0 / 4, b0 % 4 * 16 + b1 / 16, b1 % 16 * 4 + b2 / 64, b2 % 64;
      && 0 <= a < 64 && 0 <= b < 64 && 0 <= c < 64 && 0 <= d < 64
      && a * 4 + b / 16 == b0 && b % 16 * 16 + c / 4 == b1 && c % 4 * 64 + d == b2
      && (b1 == 0 ==> b % 16 == 0) && (b2 == 0 ==> c % 4 == 0)
  {
    var b, c := b0 % 4 * 16 + b1 / 16, b1 % 16 * 4 + b2 / 64;
    assert b / 16 == b0 % 4 && b % 16 == b1 / 16;
    assert c / 4 == b1 % 16 && c % 4 == b2 / 64;
  }

  lemma BytesOfSextets(a: int, b: int, c: int, d: int)
    requires 0 <= a < 64 && 0 <= b < 64 && 0 <= c < 64 && 0 <= d < 64
    ensures var b0, b1, b2 := a * 4 + b / 16, b % 16 * 16 + c / 4, c % 4 * 64 + d;
      && 0 <= b0 < 256 && 0 <= b1 < 256 && 0 <= b2 < 256
      && b0 / 4 == a && b0 % 4 * 16 + b1 / 16 == b && b1 % 16 * 4 + b2 / 64 == c && b2 % 64 == d
      && (b % 16 == 0 ==> b0 % 4 * 16 == b) && (c % 4 == 0 ==> b1 % 16 * 4 == c)
  {
    var b0, b1, b2 := a * 4 + b / 16, b % 16 * 16 + c / 4, c % 4 * 64 + d;
    assert b0 / 4 == a && b0 % 4 == b / 16;
    assert b1 / 16 == b % 16 && b1 % 16 == c / 4;
    assert b2 / 64 == c % 4 && b2 % 64 == d;
  }

  lemma QuadGroups(chunk: seq<Byte>, last: bool)
    requires 1 <= |chunk| <= 3 && (|chunk| < 3 ==> last)
    ensures Group(Quad(chunk), last) == Some(chunk)
    ensures forall i :: 0 <= i < 4 ==> (Quad(chunk)[i] == PAD <==> i > |chunk|)
  {
    SextetsOfBytes(chunk[0], if |chunk| > 1 then chunk[1] else 0, if |chunk| > 2 then chunk[2] else 0);
    assert |chunk| == 1 ==> chunk == [chunk[0]];
    assert |chunk| == 2 ==> chunk == [chunk[0], chunk[1]];
    assert |chunk| == 3 ==> chunk == [chunk[0], chunk[1], chunk[2]];
  }

  lemma GroupQuads(q: seq<Digit>, last: bool)
    requires |q| == 4 && Group(q, last).Some?
    ensures var chunk := Group(q, last).value; 1 <= |chunk| <= 3 && Quad(chunk) == q && (|chunk| < 3 ==> last)
  {
    BytesOfSextets(q[0], q[1], if q[2] == PAD then 0 else q[2], if q[3] == PAD then 0 else q[3]);
  }

  lemma UngroupStep(q: seq<Digit>, rest: seq<Digit>, chunk: seq<Byte>, more: seq<Byte>)
    requires |q| == 4 && Group(q, rest == []) == Some(chunk) && Ungroup(rest) == Some(more)
    ensures Ungroup(q + rest) == Some(chunk + more)
  {
    assert (q + rest)[..4] == q && (q + rest)[4..] == rest;
  }

  /** How many bytes the first group takes. */
  function FirstChunk(bytes: seq<Byte>): nat {
    if |bytes| <= 3 then |bytes| else 3
  }

  lemma DigitsUnfold(bytes: seq<Byte>)
    requires bytes != []
    ensures Digits(bytes) == Quad(bytes[..FirstChunk(bytes)]) + Digits(bytes[FirstChunk(bytes)..])
  {
    DigitsStep(bytes, 0, FirstChunk(bytes));
    assert bytes[0..] == bytes;
  }

  lemma {:induction false} DigitsLength(bytes: seq<Byte>)
    ensures |Digits(bytes)| == 4 * ((|bytes| + 2) / 3)
  {
    if |bytes| > 3 { DigitsLength(bytes[3..]); }
  }

  lemma {:induction false} DigitsUngroup(bytes: seq<Byte>)
    ensures Ungroup(Digits(bytes)) == Some(bytes)
  {
    if bytes != [] {
      hide Digits, Ungroup, Group, Quad;
      var n := FirstChunk(bytes);
      var chunk, more := bytes[..n], bytes[n..];
      DigitsUnfold(bytes);
      DigitsUngroup(more);
      DigitsLength(more);
      QuadGroups(chunk, Digits(more) == []);
      UngroupStep(Quad(chunk), Digits(more), chunk, more);
      Rejoined(bytes, n);
    }
  }

  lemma Rejoined(bytes: seq<Byte>, n: nat)
    requires n <= |bytes|
    ensures bytes[..n] + bytes[n..] == bytes
  {
  }

  /** Decoding the encoding of any bytes gives the bytes back; the text is four
      characters for every three bytes or part of three. */
  lemma EncodeDecodes(bytes: seq<Byte>)
    ensures Decode(Render(Digits(bytes))) == Some(bytes)
    ensures |Render(Digits(bytes))| == 4 * ((|bytes| + 2) / 3)
  {
    RenderReads(Digits(bytes));
    DigitsUngroup(bytes);
    DigitsLength(bytes);
  }

  /** The padding: two `=` after one byte too many for whole groups, one after two,
      none otherwise, and none anywhere else. */
  lemma {:induction false} Padding(bytes: seq<Byte>, i: nat)
    requires i < |Digits(bytes)|
    ensures Digits(bytes)[i] == PAD <==> i >= |Digits(bytes)| - (3 - |bytes| % 3) % 3
  {
    var n := FirstChunk(bytes);
    var chunk, more := bytes[..n], bytes[n..];
    DigitsLength(bytes);
    DigitsLength(more);
    QuadGroups(chunk, true);
    DigitsUnfold(bytes);
    if i >= 4 {
      PaddingLater(|bytes|);
      Padding(more, i - 4);
    }
  }

  lemma PaddingLater(n: nat)
    ensures n > 3 ==> (3 - n % 3) % 3 == (3 - (n - 3) % 3) % 3
  {
  }

  lemma {:induction false} UngroupDigits(ds: seq<Digit>)
    requires Ungroup(ds).Some?
    ensures Digits(Ungroup(ds).value) == ds
  {
    if ds != [] {
      var first, rest := Group(ds[..4], |ds| == 4).value, Ungroup(ds[4..]).value;
      GroupQuads(ds[..4], |ds| == 4);
      UngroupDigits(ds[4..]);
      var bytes := first + rest;
      if |ds| == 4 {
        assert rest == [] && bytes == first;
      } else {
        assert bytes[..3] == first && bytes[3..] == rest;
      }
      assert ds == ds[..4] + ds[4..];
    }
  }

  /** A text the strict reader accepts is the encoding of what it read. */
  lemma DecodeEncodes(t: string)
    requires Decode(t).Some?
    ensures Render(Digits(Decode(t).value)) == t
  {
    UngroupDigits(Read(t).value);
    ReadRenders(t);
  }
}
