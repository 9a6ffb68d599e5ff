/** `key_order`: the order in which a subsystem's rows are listed. Keys that start
    with a number sort by that number first, every other key as text. */
module KeyOrder {
  import opened Text

  const U64_MAX: nat := 0xFFFF_FFFF_FFFF_FFFF

  /** Length of the run of ASCII digits a key starts with. */
  function LeadLength(k: string): (n: nat)
    ensures n <= |k| && AllDigits(k[..n])
    ensures n < |k| ==> !IsDigit(k[n])
  {
    if k == [] || !IsDigit(k[0]) then 0
    else
      var n := LeadLength(k[1..]);
      assert k[..n + 1] == [k[0]] + k[1..][..n];
      n + 1
  }

  function LeadDigits(k: string): string {
    k[..LeadLength(k)]
  }

  /** The number a key starts with, if it has one that fits in a `u64`. */
  function Lead(k: string): Option<nat> {
    ParseUnsigned(LeadDigits(k), U64_MAX)
  }

  function Compare(a: string, b: string): Ordering {
    var x, y := Lead(a), Lead(b);
    if x.Some? && y.Some? then
      if x.value < y.value then Less
      else if x.value > y.value then Greater
      else CompareText(a, b)
    else CompareText(a, b)
  }

  /** The key's leading digit run, if any, is the numeral of a `u64`. */
  predicate Fits(k: string) {
    DecValue(LeadDigits(k)) <= U64_MAX
  }

  lemma LeadOf(k: string)
    ensures Lead(k) == if LeadLength(k) == 0 || !Fits(k) then None else Some(DecValue(LeadDigits(k)))
    ensures LeadLength(k) > 0 <==> k != [] && IsDigit(k[0])
  {
    assert LeadLength(k) > 0 ==> LeadDigits(k)[0] == k[0];
  }

  predicate StartsWithNumber(k: string) {
    k != [] && IsDigit(k[0]) && Fits(k)
  }

  /** Keys that both start with a number that fits sort by it, and by their text only
      when the numbers are the same; any other two keys sort by their text. */
  lemma NumbersFirstThenText(a: string, b: string)
    ensures Compare(a, b) == Less <==>
      if StartsWithNumber(a) && StartsWithNumber(b) then
        || DecValue(LeadDigits(a)) < DecValue(LeadDigits(b))
        || (DecValue(LeadDigits(a)) == DecValue(LeadDigits(b)) && Before(a, b))
      else Before(a, b)
  {
    LeadOf(a);
    LeadOf(b);
  }

  /** The comparator never contradicts itself on one pair, whatever the keys. */
  lemma CompareFlips(a: string, b: string)
    ensures Compare(b, a) == Compare(a, b).Flip()
    ensures Compare(a, b) == Equal <==> a == b
  {
    TextFlip(a, b);
  }

  lemma CompareTransitive(a: string, b: string, c: string)
    requires Fits(a) && Fits(b) && Fits(c)
    requires Compare(a, b) == Less && Compare(b, c) == Less
    ensures Compare(a, c) == Less
  {
    LeadOf(a);
    LeadOf(b);
    LeadOf(c);
    if Before(a, b) && Before(b, c) { TextTransitive(a, b, c); }
  }

  /** A digit run that overflows has a longest prefix that still fits, and that
      prefix is already a large number. */
  lemma {:induction false} LongestFittingPrefix(s: string) returns (m: nat)
    requires AllDigits(s) && DecValue(s) > U64_MAX
    ensures 0 < m < |s| && 9 < DecValue(s[..m]) <= U64_MAX
  {
    var init := s[..|s| - 1];
    if DecValue(init) > U64_MAX {
      m := LongestFittingPrefix(init);
      assert init[..m] == s[..m];
    } else {
      m := |s| - 1;
    }
  }

  lemma {:induction false} PrefixIsBefore(s: string, m: nat)
    requires m < |s|
    ensures Before(s[..m], s)
  {
    if m > 0 {
      assert s[..m][1..] == s[1..][..m - 1];
      PrefixIsBefore(s[1..], m - 1);
    }
  }

  lemma AllDigitsLead(s: string)
    requires AllDigits(s)
    ensures LeadDigits(s) == s
  {
  }

  /** Three keys ordered in a circle: no sort order contains them all. */
  predicate Cycle(a: string, b: string, c: string) {
    Compare(a, b) == Less && Compare(b, c) == Less && Compare(c, a) == Less
  }

  /** Every over-long digit run closes a circle with two ordinary keys: it stands
      between them as text while they stand the other way round as numbers. */
  lemma OverlongKeyMakesCycle(x: string) returns (a: string, b: string)
    requires !Fits(x)
    ensures Fits(a) && Fits(b) && Cycle(a, b, x)
  {
    var run := LeadDigits(x);
    var m := LongestFittingPrefix(run);
    a, b := "9:", x[..m];
    assert b == run[..m];
    AllDigitsLead(b);
    LeadOf(b);
    LeadOf(x);
    PrefixIsBefore(x, m);
    assert Compare(b, x) == Less;
    assert x[0] == run[0] && x[1] == run[1];
    assert a[1..][0] == ':' && x[1..][0] == run[1];
    assert Before(x, a);
    assert Compare(x, a) == Less;
    assert LeadDigits(a) == "9" && DecValue("9") == 9;
    assert Compare(a, b) == Less;
  }

  /** The order is a total order with `x` among ordinary keys exactly when x's
      leading number fits in a `u64`. */
  lemma TotalExactlyWhenFits(x: string)
    ensures Fits(x) <==> forall a, b :: Fits(a) && Fits(b) ==> !Cycle(a, b, x)
  {
    if Fits(x) {
      forall a, b | Fits(a) && Fits(b)
        ensures !Cycle(a, b, x)
      {
        if Cycle(a, b, x) {
          CompareTransitive(a, b, x);
          CompareFlips(a, x);
        }
      }
    } else {
      var a, b := OverlongKeyMakesCycle(x);
    }
  }

  // ----- positional rows -----

  lemma NumeralOrder(i: nat, j: nat)
    requires i < j <= U64_MAX
    ensures Compare(ToDec(i), ToDec(j)) == Less
  {
    DecRoundTrip(i);
    DecRoundTrip(j);
    AllDigitsLead(ToDec(i));
    AllDigitsLead(ToDec(j));
  }

  ghost predicate IsNumeralBelow(key: string, n: nat) {
    exists k: nat :: k < n && key == ToDec(k)
  }

  ghost function NumberOf(key: string, n: nat): (k: nat)
    requires IsNumeralBelow(key, n)
    ensures k < n && key == ToDec(k)
  {
    var k: nat :| k < n && key == ToDec(k);
    k
  }

  predicate Sorted(keys: seq<string>) {
    forall i, j :: 0 <= i < j < |keys| ==> Compare(keys[i], keys[j]) != Greater
  }

  lemma {:induction false} IncreasingIsIdentity(p: seq<nat>, n: nat)
    requires |p| == n && (forall i :: 0 <= i < n ==> p[i] < n)
    requires forall i, j :: 0 <= i < j < n ==> p[i] < p[j]
    ensures forall i :: 0 <= i < n ==> p[i] == i
  {
    if n > 0 {
      var q := p[..n - 1];
      assert forall i :: 0 <= i < n - 1 ==> q[i] == p[i] < p[n - 1];
      IncreasingIsIdentity(q, n - 1);
      assert n > 1 ==> q[n - 2] == n - 2;
    }
  }

  /** Rows keyed 0..n-1, listed in any order the comparator accepts, come back in
      numeric order: `10` after `2`. */
  lemma PositionalRowsComeBackInOrder(keys: seq<string>, n: nat)
    requires n <= U64_MAX + 1 && |keys| == n
    requires forall i, j :: 0 <= i < j < n ==> keys[i] != keys[j]
    requires forall i :: 0 <= i < n ==> IsNumeralBelow(keys[i], n)
    requires Sorted(keys)
    ensures forall i :: 0 <= i < n ==> keys[i] == ToDec(i)
  {
    var p := seq(n, i requires 0 <= i < n => NumberOf(keys[i], n));
    forall i, j | 0 <= i < j < n
      ensures p[i] < p[j]
    {
      if p[j] < p[i] {
        NumeralOrder(p[j], p[i]);
        CompareFlips(keys[j], keys[i]);
      }
    }
    IncreasingIsIdentity(p, n);
    forall i | 0 <= i < n
      ensures keys[i] == ToDec(i)
    {
      assert p[i] == i;
    }
  }
}
