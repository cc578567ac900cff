/** Decimal digit sequences, and the text that Go's strconv.FormatInt(n, 10)
    and strconv.Itoa(n) produce for an integer n. */
module Decimal {

  /** Every element is a decimal digit 0..9. */
  predicate IsDigits(ds: seq<int>) {
    forall i :: 0 <= i < |ds| ==> 0 <= ds[i] <= 9
  }

  /** The canonical digits of a number: non-empty, and no leading zero unless the number is 0. */
  predicate IsCanonical(ds: seq<int>) {
    IsDigits(ds) && |ds| >= 1 && (ds[0] != 0 || |ds| == 1)
  }

  /** The number a digit sequence denotes, read most significant digit first
      (the accumulation n = n*10 + d). */
  function Value(ds: seq<int>): (v: int)
    ensures IsDigits(ds) ==> v >= 0
  {
    if ds == [] then 0 else Value(ds[..|ds| - 1]) * 10 + ds[|ds| - 1]
  }

  /** The canonical decimal digits of n. */
  function Digits(n: nat): (ds: seq<int>)
    ensures IsCanonical(ds)
  {
    if n < 10 then [n] else Digits(n / 10) + [n % 10]
  }

  lemma {:induction false} ValueOfDigits(n: nat)
    ensures Value(Digits(n)) == n
  {
    if n >= 10 {
      var ds := Digits(n);
      assert ds[..|ds| - 1] == Digits(n / 10);
      ValueOfDigits(n / 10);
    }
  }

  lemma {:induction false} ValuePositive(ds: seq<int>)
    requires IsDigits(ds) && |ds| >= 1 && ds[0] != 0
    ensures Value(ds) >= 1
  {
    if |ds| > 1 {
      var init := ds[..|ds| - 1];
      assert init[0] == ds[0];
      ValuePositive(init);
    }
  }

  /** Canonical digit sequences and natural numbers are in one-to-one correspondence. */
  lemma {:induction false} DigitsOfValue(ds: seq<int>)
    requires IsCanonical(ds)
    ensures Digits(Value(ds)) == ds
  {
    if |ds| > 1 {
      var init, last := ds[..|ds| - 1], ds[|ds| - 1];
      assert init[0] == ds[0];
      ValuePositive(init);
      var v := Value(ds);
      assert v == Value(init) * 10 + last;
      assert v / 10 == Value(init) && v % 10 == last;
      DigitsOfValue(init);
      assert ds == init + [last];
    }
  }

  function DigitChar(d: int): (c: char)
    requires 0 <= d <= 9
  {
    ('0' as int + d) as char
  }

  /** The value of a decimal character, as Go's int(r - '0') computes it for a rune r;
      for a character that is not a digit this is simply the code difference. */
  function CharValue(c: char): int {
    c as int - '0' as int
  }

  function DigitString(ds: seq<int>): (s: string)
    requires IsDigits(ds)
    ensures |s| == |ds|
  {
    seq(|ds|, i requires 0 <= i < |ds| => DigitChar(ds[i]))
  }

  /** strconv.FormatInt(n, 10): an optional minus sign followed by the canonical digits of |n|. */
  function FormatInt(n: int): (s: string)
    ensures |s| >= 1
    ensures n < 0 <==> s[0] == '-'
    ensures forall i :: (if n < 0 then 1 else 0) <= i < |s| ==> '0' <= s[i] <= '9'
  {
    if n < 0 then "-" + DigitString(Digits(-n)) else DigitString(Digits(n))
  }

  /** Reading the characters of FormatInt(n) back as digit values gives the digits of n. */
  lemma FormatIntDigits(n: nat)
    ensures |FormatInt(n)| == |Digits(n)|
    ensures forall i :: 0 <= i < |FormatInt(n)| ==> CharValue(FormatInt(n)[i]) == Digits(n)[i]
  {
  }

  /** Reading FormatInt(n) back character by character (c - '0') gives the digits of n. */
  lemma FormatIntReadBack(n: nat, r: seq<int>)
    requires |r| == |FormatInt(n)|
    requires forall k :: 0 <= k < |r| ==> r[k] == CharValue(FormatInt(n)[k])
    ensures r == Digits(n)
  {
    FormatIntDigits(n);
  }
}
