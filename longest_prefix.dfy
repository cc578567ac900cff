/** task1_04.go: the longest common byte prefix of a list of strings. */
module LongestPrefix {
  import opened Bytes

  /** The single space `test` returns for an empty list. */
  const Space: byte := 32

  /** p is a prefix of every string of the list. */
  ghost predicate IsCommonPrefix(strs: seq<seq<byte>>, p: seq<byte>) {
    forall j :: 0 <= j < |strs| ==> p <= strs[j]
  }

  /** p is a common prefix that cannot be extended by one more byte: either some
      string ends right after it, or at the next position some string differs
      from the first one. */
  ghost predicate IsLongestCommonPrefix(strs: seq<seq<byte>>, p: seq<byte>)
    requires |strs| > 0
  {
    IsCommonPrefix(strs, p) &&
    ((exists j :: 0 <= j < |strs| && |strs[j]| == |p|) ||
     (|p| < |strs[0]| && exists j :: 0 <= j < |strs| && |p| < |strs[j]| && strs[j][|p|] != strs[0][|p|]))
  }

  /** The longest common prefix contains every common prefix, so it is unique. */
  lemma LongestContainsCommon(strs: seq<seq<byte>>, r: seq<byte>, p: seq<byte>)
    requires |strs| > 0 && IsLongestCommonPrefix(strs, r) && IsCommonPrefix(strs, p)
    ensures p <= r
  {
    assert r <= strs[0] && p <= strs[0];
    if exists j :: 0 <= j < |strs| && |strs[j]| == |r| {
      var j :| 0 <= j < |strs| && |strs[j]| == |r|;
      assert p <= strs[j];
    } else {
      var j :| 0 <= j < |strs| && |r| < |strs[j]| && strs[j][|r|] != strs[0][|r|];
      assert p <= strs[j];
    }
  }

  lemma LongestIsUnique(strs: seq<seq<byte>>, r: seq<byte>, r': seq<byte>)
    requires |strs| > 0 && IsLongestCommonPrefix(strs, r) && IsLongestCommonPrefix(strs, r')
    ensures r == r'
  {
    LongestContainsCommon(strs, r, r');
    LongestContainsCommon(strs, r', r);
  }

  /** test: the longest common prefix of task1_04.go. */
  method LongestCommonPrefix(str: seq<seq<byte>>) returns (r: seq<byte>)
    ensures |str| == 0 ==> r == [Space]
    ensures |str| > 0 ==> IsLongestCommonPrefix(str, r)
    ensures |str| > 0 ==> forall j :: 0 <= j < |str| ==> |r| <= |str[j]|
    ensures |str| == 1 ==> r == str[0]
  {
    if |str| == 0 {
      return [Space];
    }
    var minLen := |str[0]|;
    var i := 1;
    while i < |str|
      invariant 1 <= i <= |str|
      invariant exists j :: 0 <= j < i && minLen == |str[j]|
      invariant forall j :: 0 <= j < i ==> minLen <= |str[j]|
    {
      if |str[i]| < minLen {
        minLen := |str[i]|;
      }
      i := i + 1;
    }

    i := 0;
    while i < minLen
      invariant 0 <= i <= minLen
      invariant forall j :: 0 <= j < |str| ==> str[0][..i] <= str[j]
    {
      var currentChar := str[0][i];
      var j := 1;
      while j < |str|
        invariant 1 <= j <= |str|
        invariant forall jj :: 0 <= jj < j ==> str[jj][i] == currentChar
      {
        if str[j][i] != currentChar {
          return str[0][..i];
        }
        j := j + 1;
      }
      forall jj | 0 <= jj < |str| ensures str[0][..i + 1] <= str[jj] {
        assert str[0][..i + 1] == str[0][..i] + [currentChar];
        assert str[jj][..i + 1] == str[jj][..i] + [str[jj][i]];
      }
      i := i + 1;
    }
    return str[0][..minLen];
  }

  /** The demo list ["flower", "flow", "flight"] has longest common prefix "fl". */
  lemma DemoFlower(r: seq<byte>)
    requires IsLongestCommonPrefix([Ascii("flower"), Ascii("flow"), Ascii("flight")], r)
    ensures r == Ascii("fl")
  {
    var strs := [Ascii("flower"), Ascii("flow"), Ascii("flight")];
    var fl := Ascii("fl");
    assert fl <= strs[0] && fl <= strs[1] && fl <= strs[2];
    assert strs[2][2] != strs[0][2];
    assert IsLongestCommonPrefix(strs, fl);
    LongestIsUnique(strs, r, fl);
  }
}
