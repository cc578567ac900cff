/** task1_05.go: adding one to a number given as an array of decimal digits,
    most significant digit first, in two ways: by carrying in place (test) and
    by converting to an integer and back through its decimal text (test2). */
module PlusOne {
  import opened Decimal

  function Zeros(n: nat): (z: seq<int>)
    ensures |z| == n && forall i :: 0 <= i < n ==> z[i] == 0
  {
    seq(n, _ => 0)
  }

  /** What the carrying loop of test yields for a digit array: the last
      position is incremented; a value that reaches 10 becomes 0 and the carry
      moves one position left; a carry out of the first position prepends a 1. */
  function PlusOne(ds: seq<int>): (r: seq<int>)
    ensures |r| == |ds| || |r| == |ds| + 1
    ensures |r| == |ds| + 1 ==> r == [1] + Zeros(|ds|)
  {
    if ds == [] then [1]
    else if ds[|ds| - 1] + 1 < 10 then ds[..|ds| - 1] + [ds[|ds| - 1] + 1]
    else PlusOne(ds[..|ds| - 1]) + [0]
  }

  /** A run of t trailing positions that carry (t may be 0) becomes zeros; the position to
      their left is incremented, and everything further left is unchanged. */
  lemma {:induction false} PlusOneTrailingCarries(ds: seq<int>, t: nat)
    requires t < |ds|
    requires forall k :: |ds| - t <= k < |ds| ==> ds[k] >= 9
    requires ds[|ds| - 1 - t] < 9
    ensures PlusOne(ds) == ds[..|ds| - 1 - t] + [ds[|ds| - 1 - t] + 1] + Zeros(t)
  {
    if t > 0 {
      var init := ds[..|ds| - 1];
      PlusOneTrailingCarries(init, t - 1);
      assert init[..|init| - 1 - (t - 1)] == ds[..|ds| - 1 - t];
      assert Zeros(t - 1) + [0] == Zeros(t);
    }
  }

  /** An input made only of nines (or larger values, which also carry) becomes 1 followed by zeros. */
  lemma {:induction false} PlusOneAllCarry(ds: seq<int>)
    requires forall k :: 0 <= k < |ds| ==> ds[k] >= 9
    ensures PlusOne(ds) == [1] + Zeros(|ds|)
  {
    if ds != [] {
      PlusOneAllCarry(ds[..|ds| - 1]);
      assert Zeros(|ds| - 1) + [0] == Zeros(|ds|);
    }
  }

  /** On decimal digits, the result denotes the input's value plus one. */
  lemma {:induction false} PlusOneValue(ds: seq<int>)
    requires IsDigits(ds)
    ensures IsDigits(PlusOne(ds))
    ensures Value(PlusOne(ds)) == Value(ds) + 1
  {
    if ds != [] {
      var init, r := ds[..|ds| - 1], PlusOne(ds);
      assert r[..|r| - 1] == if ds[|ds| - 1] + 1 < 10 then init else PlusOne(init);
      PlusOneValue(init);
    }
  }

  /** When no new digit is prepended, the first digit is kept or incremented. */
  lemma {:induction false} PlusOneFirstDigit(ds: seq<int>)
    requires |ds| > 0 && |PlusOne(ds)| == |ds|
    ensures PlusOne(ds)[0] == ds[0] || PlusOne(ds)[0] == ds[0] + 1
  {
    if |ds| > 1 && ds[|ds| - 1] + 1 >= 10 {
      var init := ds[..|ds| - 1];
      PlusOneFirstDigit(init);
    }
  }

  /** For canonical digits (no leading zero) the result is the canonical digits of value plus one. */
  lemma PlusOneCanonical(ds: seq<int>)
    requires IsCanonical(ds)
    ensures PlusOne(ds) == Digits(Value(ds) + 1)
  {
    PlusOneValue(ds);
    var r := PlusOne(ds);
    if |r| == |ds| { PlusOneFirstDigit(ds); }
    DigitsOfValue(r);
  }

  /** One step of the carrying loop at position i, seen on the prefix ending at i. */
  lemma PlusOnePrefixStep(ds: seq<int>, i: nat)
    requires i < |ds|
    ensures ds[i] + 1 < 10 ==> PlusOne(ds[..i + 1]) == ds[..i] + [ds[i] + 1]
    ensures ds[i] + 1 >= 10 ==> PlusOne(ds[..i + 1]) == PlusOne(ds[..i]) + [0]
  {
    assert ds[..i + 1][..i] == ds[..i];
  }

  /** test: carries through num in place. The result is num itself unless a
      carry comes out of the first position, in which case it is a new array:
      1 followed by num, whose positions all became 0. */
  method PlusOneInPlace(num: array<int>) returns (r: array<int>)
    modifies num
    ensures r[..] == PlusOne(old(num[..]))
    ensures r == num || (fresh(r) && r[..] == [1] + num[..])
  {
    ghost var orig := num[..];
    var n := num.Length;
    var i := n - 1;
    assert orig[..n] == orig;
    while i >= 0
      invariant -1 <= i < n
      invariant num[..i + 1] == orig[..i + 1]
      invariant num[i + 1..] == Zeros(n - 1 - i)
      invariant PlusOne(orig) == PlusOne(orig[..i + 1]) + Zeros(n - 1 - i)
    {
      PlusOnePrefixStep(orig, i);
      assert num[..i] == orig[..i];
      num[i] := num[i] + 1;
      if num[i] < 10 {
        assert num[..] == num[..i] + [num[i]] + num[i + 1..];
        return num;
      }
      num[i] := 0;
      assert Zeros(1) + Zeros(n - 1 - i) == Zeros(n - i);
      assert num[i..] == [0] + num[i + 1..];
      i := i - 1;
    }
    assert num[..] == Zeros(n) && orig[..0] == [];
    r := PrependOne(num);
  }

  /** append([]int{1}, num...): a new array holding 1 followed by the elements of num. */
  method PrependOne(num: array<int>) returns (r: array<int>)
    ensures fresh(r) && r[..] == [1] + num[..]
  {
    var n := num.Length;
    r := new int[n + 1];
    r[0] := 1;
    var k := 0;
    while k < n
      invariant 0 <= k <= n
      invariant r[0] == 1 && r[1..k + 1] == num[..k]
    {
      r[k + 1] := num[k];
      k := k + 1;
    }
    assert r[..] == [1] + num[..];
  }

  /** The last loop of test2: each character c of the text becomes c - '0'. */
  method ReadDigits(numStr: string) returns (r: seq<int>)
    ensures |r| == |numStr|
    ensures forall k :: 0 <= k < |r| ==> r[k] == CharValue(numStr[k])
  {
    var result := new int[|numStr|];
    var i := 0;
    while i < |numStr|
      invariant 0 <= i <= |numStr|
      invariant forall k :: 0 <= k < i ==> result[k] == CharValue(numStr[k])
    {
      result[i] := CharValue(numStr[i]);
      i := i + 1;
    }
    r := result[..];
  }

  /** test2: adds one by accumulating the digits into an integer, formatting
      value + 1 in decimal and reading each character back as c - '0'. Inputs
      longer than 18 make test2 call itself on the same input, recursing without
      bound until the Go runtime aborts with a stack overflow, so they are
      excluded. */
  method PlusOneViaInt(num: seq<int>) returns (r: seq<int>)
    requires |num| <= 18
    ensures |r| >= 1
    ensures |num| == 0 ==> r == [1]
    ensures IsDigits(num) ==> r == Digits(Value(num) + 1)
    ensures IsCanonical(num) ==> r == PlusOne(num)
    ensures |r| == |FormatInt(Value(num) + 1)|
    ensures forall k :: 0 <= k < |r| ==> r[k] == CharValue(FormatInt(Value(num) + 1)[k])
  {
    if |num| == 0 {
      return [1];
    }
    var n := 0;
    var i := 0;
    while i < |num|
      invariant 0 <= i <= |num|
      invariant n == Value(num[..i])
    {
      assert num[..i + 1][..i] == num[..i];
      n := n * 10 + num[i];
      i := i + 1;
    }
    assert num[..|num|] == num;
    n := n + 1;
    assert n == Value(num) + 1;
    var numStr := FormatInt(n);
    r := ReadDigits(numStr);
    if IsDigits(num) {
      FormatIntReadBack(n, r);
      if IsCanonical(num) {
        PlusOneCanonical(num);
      }
    }
  }

  /** The demo call test2([]int{1, 2, 3}) yields [1, 2, 4]. */
  lemma DemoViaInt()
    ensures IsDigits([1, 2, 3]) && Digits(Value([1, 2, 3]) + 1) == [1, 2, 4]
  {
    assert [1, 2, 3][..2] == [1, 2] && [1, 2][..1] == [1];
    assert [1, 2, 4][..2] == [1, 2];
    DigitsOfValue([1, 2, 4]);
  }
}
