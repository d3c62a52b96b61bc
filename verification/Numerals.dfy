/** Strings as the Go library splits them, and numerals as it reads them into 64-bit integers. */
module Numerals {
  import opened Text

  const INT64_MAX := 0x7FFF_FFFF_FFFF_FFFF
  const INT64_MIN := -0x8000_0000_0000_0000

  function Find(s: string, c: char): (i: nat)
    ensures i <= |s| && (forall k :: 0 <= k < i ==> s[k] != c) && (i < |s| ==> s[i] == c)
  {
    if s == [] || s[0] == c then 0 else 1 + Find(s[1..], c)
  }

  /** strings.Split on one character: always at least one part. */
  function Split(s: string, c: char): (parts: seq<string>)
    ensures parts != []
    decreases |s|
  {
    var i := Find(s, c);
    if i == |s| then [s] else [s[..i]] + Split(s[i + 1..], c)
  }

  predicate Contains(s: string, c: char) {
    c in s
  }

  /** The two parts of strings.SplitN(s, c, 2) when s contains c. */
  function SplitHead(s: string, c: char): string {
    s[..Find(s, c)]
  }

  function SplitTail(s: string, c: char): string {
    var i := Find(s, c);
    if i == |s| then "" else s[i + 1..]
  }

  predicate IsDigit(c: char) {
    '0' <= c <= '9'
  }

  predicate AllDigits(s: string) {
    forall i :: 0 <= i < |s| ==> IsDigit(s[i])
  }

  function DigitsValue(s: string): nat
    requires AllDigits(s)
  {
    if s == [] then 0 else 10 * DigitsValue(s[..|s| - 1]) + (s[|s| - 1] - '0') as int
  }

  function Magnitude(s: string): string {
    if s != "" && (s[0] == '+' || s[0] == '-') then s[1..] else s
  }

  predicate IsNumeral(s: string) {
    Magnitude(s) != "" && AllDigits(Magnitude(s))
  }

  function Unbounded(s: string): int
    requires IsNumeral(s)
  {
    if s[0] == '-' then 0 - DigitsValue(Magnitude(s)) else DigitsValue(Magnitude(s))
  }

  /** strconv.Atoi: whether it succeeds. */
  predicate AtoiOk(s: string) {
    IsNumeral(s) && INT64_MIN <= Unbounded(s) <= INT64_MAX
  }

  /** strconv.Atoi: the value, which a caller may use in spite of an error: zero for text that is
      no numeral, the nearest bound for one out of range. */
  function Atoi(s: string): (n: int)
    ensures INT64_MIN <= n <= INT64_MAX
  {
    if !IsNumeral(s) then 0
    else if Unbounded(s) > INT64_MAX then INT64_MAX
    else if Unbounded(s) < INT64_MIN then INT64_MIN
    else Unbounded(s)
  }

  // ----- written numbers

  lemma {:induction false} ItoaDigits(n: nat)
    ensures AllDigits(Itoa(n)) && DigitsValue(Itoa(n)) == n
  {
    if n >= 10 {
      ItoaDigits(n / 10);
      var init, last := Itoa(n / 10), Digit(n % 10);
      assert (init + [last])[..|init|] == init;
    } else {
      var s := [Digit(n)];
      assert s[..|s| - 1] == [];
      assert DigitsValue(s[..|s| - 1]) == 0;
    }
  }

  function Capped(n: nat): int {
    if n > INT64_MAX then INT64_MAX else n
  }

  /** A numeral is read back, up to the largest 64-bit integer. */
  lemma ItoaReads(n: nat)
    ensures (AtoiOk(Itoa(n)) <==> n <= INT64_MAX) && Atoi(Itoa(n)) == Capped(n)
  {
    ItoaDigits(n);
    assert '0' <= Itoa(n)[0] <= '9';
    assert Magnitude(Itoa(n)) == Itoa(n);
  }
}
