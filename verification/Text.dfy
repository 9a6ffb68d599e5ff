/** Text shared by the daemon's stores: byte-wise string order, the key order of
    an ordered map, and the decimal numerals that positional rows are keyed by. */
module Text {
  datatype Option<+T> = None | Some(value: T)

  type Byte = b: int | 0 <= b < 256

  const I64_MIN := -0x8000_0000_0000_0000
  const I64_MAX := 0x7FFF_FFFF_FFFF_FFFF

  /** `i64` addition and subtraction in a release build: wrap around. */
  function Wrap64(n: int): int {
    (n - I64_MIN) % 0x1_0000_0000_0000_0000 + I64_MIN
  }

  /** `secs.saturating_mul(1_000_000_000)`. */
  function SaturatingNanos(secs: int): int {
    var ns := secs * 1_000_000_000;
    if ns > I64_MAX then I64_MAX else if ns < I64_MIN then I64_MIN else ns
  }

  /** The wrapped number is the one in range that differs by a multiple of 2^64. */
  lemma WrapsAround(n: int)
    ensures I64_MIN <= Wrap64(n) <= I64_MAX && (Wrap64(n) - n) % 0x1_0000_0000_0000_0000 == 0
    ensures I64_MIN <= n <= I64_MAX ==> Wrap64(n) == n
  {
    var k := (n - I64_MIN) / 0x1_0000_0000_0000_0000;
    assert Wrap64(n) - n == -k * 0x1_0000_0000_0000_0000;
  }

  /** A product out of range becomes the end of the range it runs into. */
  lemma SaturatesAtTheEnds(secs: int)
    ensures var ns := SaturatingNanos(secs);
      && I64_MIN <= ns <= I64_MAX
      && (I64_MIN <= secs * 1_000_000_000 <= I64_MAX ==> ns == secs * 1_000_000_000)
      && (secs * 1_000_000_000 > I64_MAX ==> ns == I64_MAX) && (secs * 1_000_000_000 < I64_MIN ==> ns == I64_MIN)
  {
  }

  datatype Ordering = Less | Equal | Greater {
    function Flip(): Ordering {
      match this
      case Less => Greater
      case Equal => Equal
      case Greater => Less
    }
  }

  /** Rust's `str` order: code point by code point, a proper prefix first. */
  function CompareText(a: string, b: string): Ordering {
    if a == [] then (if b == [] then Equal else Less)
    else if b == [] then Greater
    else if a[0] < b[0] then Less
    else if a[0] > b[0] then Greater
    else CompareText(a[1..], b[1..])
  }

  predicate Before(a: string, b: string) {
    CompareText(a, b) == Less
  }

  lemma {:induction false} TextFlip(a: string, b: string)
    ensures CompareText(b, a) == CompareText(a, b).Flip()
    ensures CompareText(a, b) == Equal <==> a == b
  {
    if a != [] && b != [] && a[0] == b[0] {
      TextFlip(a[1..], b[1..]);
      assert a == [a[0]] + a[1..] && b == [b[0]] + b[1..];
    }
  }

  lemma {:induction false} TextTransitive(a: string, b: string, c: string)
    requires Before(a, b) && Before(b, c)
    ensures Before(a, c)
  {
    if a != [] && b[0] == a[0] && c[0] == b[0] {
      TextTransitive(a[1..], b[1..], c[1..]);
    }
  }

  /** `a` and `b` part at `n`: one ends there, or their characters differ. */
  predicate PartsAt(a: string, b: string, n: nat) {
    n <= |a| && n < |b| && a[..n] == b[..n] && (n == |a| || a[n] < b[n])
  }

  lemma SameHeads(a: string, b: string, n: nat)
    ensures PartsAt(a, b, n) && n > 0 ==> a != [] && b != [] && a[0] == b[0]
  {
    if PartsAt(a, b, n) && n > 0 { assert a[..n][0] == b[..n][0]; }
  }

  /** One text is before another exactly when it is a proper prefix of it or has the
      lesser character where they first differ. */
  lemma {:induction false} BeforeExactly(a: string, b: string)
    ensures Before(a, b) <==> exists n: nat :: PartsAt(a, b, n)
  {
    if a == [] || b == [] || a[0] != b[0] {
      if Before(a, b) { assert PartsAt(a, b, 0); }
      forall n: nat
        ensures PartsAt(a, b, n) ==> n == 0
      {
        SameHeads(a, b, n);
      }
    } else {
      BeforeExactly(a[1..], b[1..]);
      if n: nat :| PartsAt(a[1..], b[1..], n) {
        assert a[..n + 1] == [a[0]] + a[1..][..n] && b[..n + 1] == [b[0]] + b[1..][..n];
        assert PartsAt(a, b, n + 1);
      }
      if n: nat :| PartsAt(a, b, n) {
        assert a[1..][..n - 1] == a[..n][1..] && b[1..][..n - 1] == b[..n][1..];
        assert PartsAt(a[1..], b[1..], n - 1);
      }
    }
  }

  // ----- ordered-map iteration -----

  predicate Ascending(keys: seq<string>) {
    forall i, j :: 0 <= i < j < |keys| ==> Before(keys[i], keys[j])
  }

  predicate IsLeast(k: string, s: set<string>) {
    k in s && forall o :: o in s && o != k ==> Before(k, o)
  }

  lemma {:induction false} LeastExists(s: set<string>) returns (k: string)
    requires s != {}
    ensures IsLeast(k, s)
  {
    var x :| x in s;
    k := x;
    var rest := s - {x};
    if rest != {} {
      var y := LeastExists(rest);
      TextFlip(x, y);
      k := if Before(y, x) then y else x;
      forall o | o in s && o != k
        ensures Before(k, o)
      {
        if o != x && o != y && k == x { TextTransitive(x, y, o); }
      }
    } else {
      forall o | o in s
        ensures o == x
      {
        assert o !in rest;
      }
    }
  }

  lemma HasLeast(s: set<string>)
    requires s != {}
    ensures exists k :: k in s && IsLeast(k, s)
  {
    var k := LeastExists(s);
  }

  lemma LeastUnique(s: set<string>, a: string, b: string)
    requires IsLeast(a, s) && IsLeast(b, s)
    ensures a == b
  {
    TextFlip(a, b);
  }

  function Least(s: set<string>): (k: string)
    requires s != {}
    ensures IsLeast(k, s)
  {
    HasLeast(s);
    assert forall a, b :: IsLeast(a, s) && IsLeast(b, s) ==> a == b by {
      forall a, b | IsLeast(a, s) && IsLeast(b, s) ensures a == b { LeastUnique(s, a, b); }
    }
    var k :| k in s && IsLeast(k, s);
    k
  }

  lemma AscendingCons(k: string, rest: seq<string>)
    requires Ascending(rest) && forall o :: o in rest ==> Before(k, o)
    ensures Ascending([k] + rest)
    ensures forall o :: o in [k] + rest <==> o == k || o in rest
  {
  }

  /** The keys of an ordered map (`BTreeMap`), in the order it visits them. */
  function SortedKeys(s: set<string>): (keys: seq<string>)
    ensures forall k :: k in keys <==> k in s
    ensures Ascending(keys)
    ensures |keys| == |s|
  {
    if s == {} then [] else
      var k := Least(s);
      var rest := SortedKeys(s - {k});
      assert forall o :: o in s <==> o == k || o in s - {k};
      AscendingCons(k, rest);
      [k] + rest
  }

  lemma AscendingDistinct(keys: seq<string>)
    requires Ascending(keys)
    ensures forall i, j :: 0 <= i < j < |keys| ==> keys[i] != keys[j]
  {
    forall i, j | 0 <= i < j < |keys|
      ensures keys[i] != keys[j]
    {
      TextFlip(keys[i], keys[j]);
    }
  }

  // ----- decimal numerals -----

  predicate IsDigit(c: char) { '0' <= c <= '9' }

  predicate AllDigits(s: string) { forall i :: 0 <= i < |s| ==> IsDigit(s[i]) }

  function DigitChar(d: nat): (c: char)
    requires d < 10
  {
    '0' + d as char
  }

  function DigitValue(c: char): nat
    requires IsDigit(c)
  {
    (c as int) - ('0' as int)
  }

  /** `usize::to_string`. */
  function ToDec(n: nat): string {
    if n < 10 then [DigitChar(n)] else ToDec(n / 10) + [DigitChar(n % 10)]
  }

  function DecValue(s: string): nat
    requires AllDigits(s)
  {
    if s == [] then 0 else 10 * DecValue(s[..|s| - 1]) + DigitValue(s[|s| - 1])
  }

  /** `str::parse` for an unsigned type whose greatest value is `max`: one optional
      plus sign, then digits only, leading zeros allowed, overflow refused. */
  function ParseUnsigned(s: string, max: nat): Option<nat> {
    var digits := if |s| > 1 && s[0] == '+' then s[1..] else s;
    if digits == [] || !AllDigits(digits) || DecValue(digits) > max then None
    else Some(DecValue(digits))
  }

  predicate SpellsNumber(s: string, sign: string, digits: string, n: nat) {
    s == sign + digits && sign in ["", "+"] && digits != "" && AllDigits(digits) && DecValue(digits) == n
  }

  /** A text is parsed exactly when it spells a number in range. */
  lemma ParsedExactly(s: string, max: nat, n: nat)
    ensures ParseUnsigned(s, max) == Some(n) <==> n <= max && exists sign, digits :: SpellsNumber(s, sign, digits, n)
  {
    var digits := if |s| > 1 && s[0] == '+' then s[1..] else s;
    if ParseUnsigned(s, max) == Some(n) {
      assert s == (if |s| > 1 && s[0] == '+' then "+" else "") + digits;
      assert SpellsNumber(s, if |s| > 1 && s[0] == '+' then "+" else "", digits, n);
    }
    if sign, ds :| n <= max && SpellsNumber(s, sign, ds, n) {
      if sign == "+" { assert s[1..] == ds; } else { assert s == ds && IsDigit(s[0]); }
    }
  }

  lemma {:induction false} DecRoundTrip(n: nat)
    ensures ToDec(n) != [] && AllDigits(ToDec(n)) && DecValue(ToDec(n)) == n
    ensures n > 0 ==> ToDec(n)[0] != '0'
  {
    if n >= 10 {
      DecRoundTrip(n / 10);
      assert ToDec(n)[..|ToDec(n)| - 1] == ToDec(n / 10);
    }
  }

  lemma ParseOfDec(n: nat, max: nat)
    ensures ParseUnsigned(ToDec(n), max) == if n <= max then Some(n) else None
  {
    DecRoundTrip(n);
  }

  /** Distinct numbers have distinct numerals. */
  lemma DecInjective(m: nat, n: nat)
    requires ToDec(m) == ToDec(n)
    ensures m == n
  {
    DecRoundTrip(m);
    DecRoundTrip(n);
  }
}
