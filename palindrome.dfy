/** golang_task1/task1_02.go: whether an integer reads the same backwards in decimal. */
module Palindrome {
  import opened Decimal

  function Reverse<T>(s: seq<T>): (r: seq<T>)
    ensures |r| == |s| && forall k :: 0 <= k < |s| ==> r[k] == s[|s| - 1 - k]
  {
    seq(|s|, k requires 0 <= k < |s| => s[|s| - 1 - k])
  }

  /** s reads the same from both ends. */
  predicate IsPalindromic<T(==)>(s: seq<T>) {
    forall k :: 0 <= k < |s| ==> s[k] == s[|s| - 1 - k]
  }

  lemma PalindromicIsSelfReverse<T>(s: seq<T>)
    ensures IsPalindromic(s) <==> s == Reverse(s)
  {
    if s == Reverse(s) {
      forall k | 0 <= k < |s| ensures s[k] == s[|s| - 1 - k] {
        assert Reverse(s)[k] == s[|s| - 1 - k];
      }
    }
  }

  /** The decimal text of x is palindromic exactly when its digit sequence is. */
  lemma TextPalindromicIffDigits(x: nat)
    ensures IsPalindromic(FormatInt(x)) <==> IsPalindromic(Digits(x))
  {
    var s, ds := FormatInt(x), Digits(x);
    FormatIntDigits(x);
    if IsPalindromic(s) {
      forall k | 0 <= k < |ds| ensures ds[k] == ds[|ds| - 1 - k] {
        assert CharValue(s[k]) == ds[k] && CharValue(s[|s| - 1 - k]) == ds[|ds| - 1 - k];
      }
    }
    if IsPalindromic(ds) {
      forall k | 0 <= k < |s| ensures s[k] == s[|s| - 1 - k] {
        assert s[k] == DigitChar(ds[k]) && s[|s| - 1 - k] == DigitChar(ds[|ds| - 1 - k]);
      }
    }
  }

  /** A positive multiple of 10 ends in 0 but does not start with 0. */
  lemma {:induction false} MultipleOfTenNotPalindrome(x: nat)
    requires x > 0 && x % 10 == 0
    ensures Digits(x) != Reverse(Digits(x))
  {
    var ds := Digits(x);
    assert ds == Digits(x / 10) + [0];
    assert ds[0] == Digits(x / 10)[0] != 0;
    assert Reverse(ds)[0] == ds[|ds| - 1] == 0;
  }

  /** temp: the guard rejects negatives and non-zero multiples of 10; otherwise
      the decimal text strconv.Itoa(x) is checked from both ends. */
  method IsPalindrome(x: int) returns (b: bool)
    ensures x < 0 ==> !b
    ensures x > 0 && x % 10 == 0 ==> !b
    ensures x == 0 ==> b
    ensures b <==> x >= 0 && Digits(x) == Reverse(Digits(x))
  {
    if x < 0 || (x % 10 == 0 && x != 0) {
      if x > 0 { MultipleOfTenNotPalindrome(x); }
      return false;
    }
    var s := FormatInt(x);
    b := MirrorCheck(s);
    TextPalindromicIffDigits(x);
    PalindromicIsSelfReverse(Digits(x));
  }

  /** The two-pointer loop of temp: left and right walk inwards while the characters they point at agree. */
  method MirrorCheck(s: string) returns (b: bool)
    ensures b <==> IsPalindromic(s)
  {
    var left, right := 0, |s| - 1;
    while left < right
      invariant 0 <= left <= right + 1 && left + right == |s| - 1
      invariant forall k :: 0 <= k < left ==> s[k] == s[|s| - 1 - k]
    {
      if s[left] != s[right] {
        return false;
      }
      left := left + 1;
      right := right - 1;
    }
    forall k | 0 <= k < |s| ensures s[k] == s[|s| - 1 - k] {
      if k >= left {
        assert s[|s| - 1 - k] == s[k];
      }
    }
    return true;
  }

  /** The demo input 12332 is not a palindrome. */
  lemma DemoNotPalindrome()
    ensures Digits(12332) != Reverse(Digits(12332))
  {
    var ds := Digits(12332);
    assert ds == [1, 2, 3, 3, 2];
    assert Reverse(ds)[0] == 2;
  }
}
