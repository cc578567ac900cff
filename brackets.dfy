/** task1_03.go: checking that a string is balanced over the bracket pairs
    (), [] and {} with an explicit stack of bytes. */
module Brackets {
  import opened Bytes

  const LeftParen: byte := 40
  const RightParen: byte := 41
  const LeftBracket: byte := 91
  const RightBracket: byte := 93
  const LeftBrace: byte := 123
  const RightBrace: byte := 125

  /** task1_03.go's table tempMap: each closing bracket mapped to its opening partner. */
  const Partners: map<byte, byte> := map[RightParen := LeftParen, RightBracket := LeftBracket, RightBrace := LeftBrace]

  predicate IsCloser(c: byte) { c in Partners }

  predicate IsOpener(c: byte) { c == LeftParen || c == LeftBracket || c == LeftBrace }

  function CloserOf(o: byte): (c: byte)
    requires IsOpener(o)
    ensures IsCloser(c) && Partners[c] == o
  {
    if o == LeftParen then RightParen else if o == LeftBracket then RightBracket else RightBrace
  }

  /** The well-nested strings over the three pairs: either empty, or an opening
      bracket, a well-nested string, the matching closing bracket, and a
      well-nested string. */
  ghost predicate Nested(s: seq<byte>)
    decreases |s|, 1
  {
    s == [] || exists k :: 0 < k < |s| && SplitsAt(s, k)
  }

  /** s is an opening bracket, a well-nested string, the partner of that
      opening bracket at position k, and a well-nested string. */
  ghost predicate SplitsAt(s: seq<byte>, k: int)
    requires 0 < k < |s|
    decreases |s|, 0
  {
    IsOpener(s[0]) && s[k] == CloserOf(s[0]) && Nested(s[1..k]) && Nested(s[k + 1..])
  }

  datatype Option<T> = None | Some(value: T)

  /** Scanning s from a given stack: a closing bracket pops its partner (or the
      scan fails), anything else is pushed. The result is the final stack. */
  function Scan(stack: seq<byte>, s: seq<byte>): (r: Option<seq<byte>>)
    ensures r.Some? ==> |r.value| <= |stack| + |s|
    decreases |s|
  {
    if s == [] then Some(stack)
    else if IsCloser(s[0]) then
      if stack == [] || stack[|stack| - 1] != Partners[s[0]] then None
      else Scan(stack[..|stack| - 1], s[1..])
    else Scan(stack + [s[0]], s[1..])
  }

  /** A well-nested block leaves the stack as it found it. */
  lemma {:induction false} ScanSkipsNested(stack: seq<byte>, s: seq<byte>, rest: seq<byte>)
    requires Nested(s)
    ensures Scan(stack, s + rest) == Scan(stack, rest)
    decreases |s|
  {
    if s == [] {
      assert s + rest == rest;
    } else {
      var k :| 0 < k < |s| && SplitsAt(s, k);
      var a, b := s[1..k], s[k + 1..];
      var pushed := stack + [s[0]];
      var tail := [s[k]] + (b + rest);
      assert s + rest == [s[0]] + (a + tail);
      assert Scan(stack, s + rest) == Scan(pushed, a + tail);
      ScanSkipsNested(pushed, a, tail);
      assert pushed[..|pushed| - 1] == stack;
      assert Scan(pushed, tail) == Scan(stack, b + rest);
      ScanSkipsNested(stack, b, rest);
    }
  }

  /** An opening bracket, a well-nested string, its partner and a well-nested string form a well-nested string. */
  lemma NestedIntro(o: byte, a: seq<byte>, b: seq<byte>)
    requires IsOpener(o) && Nested(a) && Nested(b)
    ensures Nested([o] + a + [CloserOf(o)] + b)
  {
    var w := [o] + a + [CloserOf(o)] + b;
    var k := |a| + 1;
    assert w[1..k] == a && w[k + 1..] == b;
    assert SplitsAt(w, k);
  }

  /** Inserting a matched pair anywhere into a well-nested string keeps it well-nested. */
  lemma {:induction false} InsertPair(u: seq<byte>, j: nat, o: byte)
    requires Nested(u) && j <= |u| && IsOpener(o)
    ensures Nested(u[..j] + [o, CloserOf(o)] + u[j..])
    decreases |u|, 1
  {
    if j == 0 {
      assert u[..j] + [o, CloserOf(o)] + u[j..] == [o] + [] + [CloserOf(o)] + u;
      NestedIntro(o, [], u);
    } else {
      var k :| 0 < k < |u| && SplitsAt(u, k);
      if j <= k {
        InsertPairInside(u, k, j, o);
      } else {
        InsertPairAfter(u, k, j, o);
      }
    }
  }

  /** The inductive step of InsertPair, inserting into the part enclosed by the first bracket pair of u. */
  lemma {:induction false} InsertPairInside(u: seq<byte>, k: nat, j: nat, o: byte)
    requires 0 < k < |u| && SplitsAt(u, k) && 0 < j <= k && IsOpener(o)
    ensures Nested(u[..j] + [o, CloserOf(o)] + u[j..])
    decreases |u|, 0
  {
    var a, b := u[1..k], u[k + 1..];
    InsertPair(a, j - 1, o);
    SpliceInside(u, k, j, [o, CloserOf(o)]);
    NestedIntro(u[0], a[..j - 1] + [o, CloserOf(o)] + a[j - 1..], b);
  }

  /** The inductive step of InsertPair, inserting after the first bracket pair of u. */
  lemma {:induction false} InsertPairAfter(u: seq<byte>, k: nat, j: nat, o: byte)
    requires 0 < k < |u| && SplitsAt(u, k) && k < j <= |u| && IsOpener(o)
    ensures Nested(u[..j] + [o, CloserOf(o)] + u[j..])
    decreases |u|, 0
  {
    var a, b := u[1..k], u[k + 1..];
    InsertPair(b, j - k - 1, o);
    SpliceAfter(u, k, j, [o, CloserOf(o)]);
    NestedIntro(u[0], a, b[..j - k - 1] + [o, CloserOf(o)] + b[j - k - 1..]);
  }

  /** Splicing p into u at j <= k splices it into u[1..k] at j - 1. */
  lemma SpliceInside(u: seq<byte>, k: nat, j: nat, p: seq<byte>)
    requires 0 < j <= k < |u|
    ensures u[..j] + p + u[j..] == [u[0]] + (u[1..k][..j - 1] + p + u[1..k][j - 1..]) + [u[k]] + u[k + 1..]
  {
    var a := u[1..k];
    assert u[..j] == [u[0]] + a[..j - 1];
    assert u[j..] == a[j - 1..] + [u[k]] + u[k + 1..];
  }

  /** Splicing p into u at j > k splices it into u[k + 1..] at j - k - 1. */
  lemma SpliceAfter(u: seq<byte>, k: nat, j: nat, p: seq<byte>)
    requires 0 < k < j <= |u|
    ensures u[..j] + p + u[j..] == [u[0]] + u[1..k] + [u[k]] + (u[k + 1..][..j - k - 1] + p + u[k + 1..][j - k - 1..])
  {
    var b := u[k + 1..];
    assert u[..j] == [u[0]] + u[1..k] + [u[k]] + b[..j - k - 1];
    assert u[j..] == b[j - k - 1..];
  }

  /** A scan that ends with an empty stack started from a stack of unmatched
      openers that, together with the rest of the input, is well-nested. */
  lemma {:induction false} ScanEmptyIsNested(stack: seq<byte>, s: seq<byte>)
    requires Scan(stack, s) == Some([])
    ensures Nested(stack + s)
    decreases |s|
  {
    if s == [] {
      assert stack + s == [];
    } else if IsCloser(s[0]) {
      var below, o := stack[..|stack| - 1], stack[|stack| - 1];
      ScanEmptyIsNested(below, s[1..]);
      assert IsOpener(o) && CloserOf(o) == s[0];
      InsertPair(below + s[1..], |below|, o);
      assert (below + s[1..])[..|below|] + [o, CloserOf(o)] + (below + s[1..])[|below|..] == stack + s;
    } else {
      ScanEmptyIsNested(stack + [s[0]], s[1..]);
      assert stack + [s[0]] + s[1..] == stack + s;
    }
  }

  /** The stack discipline decides exactly the well-nested strings. */
  lemma ScanDecidesNested(s: seq<byte>)
    ensures Scan([], s) == Some([]) <==> Nested(s)
  {
    if Nested(s) {
      ScanSkipsNested([], s, []);
      assert s + [] == s;
    }
    if Scan([], s) == Some([]) {
      ScanEmptyIsNested([], s);
      assert [] + s == s;
    }
  }

  lemma {:induction false} NestedHasEvenLength(s: seq<byte>)
    requires Nested(s)
    ensures |s| % 2 == 0
    decreases |s|
  {
    if s != [] {
      var k :| 0 < k < |s| && SplitsAt(s, k);
      NestedHasEvenLength(s[1..k]);
      NestedHasEvenLength(s[k + 1..]);
    }
  }

  /** A well-nested string contains nothing but the six bracket characters. */
  lemma {:induction false} NestedHasOnlyBrackets(s: seq<byte>)
    requires Nested(s)
    ensures forall i :: 0 <= i < |s| ==> IsOpener(s[i]) || IsCloser(s[i])
    decreases |s|
  {
    if s != [] {
      var k :| 0 < k < |s| && SplitsAt(s, k);
      var a, b := s[1..k], s[k + 1..];
      NestedHasOnlyBrackets(a);
      NestedHasOnlyBrackets(b);
      forall i | 0 <= i < |s| ensures IsOpener(s[i]) || IsCloser(s[i]) {
        if 0 < i < k { assert s[i] == a[i - 1]; }
        else if k < i { assert s[i] == b[i - k - 1]; }
      }
    }
  }

  /** temp: the balance check of task1_03.go. */
  method IsBalanced(test: seq<byte>) returns (ok: bool)
    ensures ok <==> Nested(test)
    ensures |test| == 0 ==> ok
    ensures |test| % 2 == 1 ==> !ok
    ensures (exists i :: 0 <= i < |test| && !IsOpener(test[i]) && !IsCloser(test[i])) ==> !ok
  {
    var n := |test|;
    if n % 2 == 1 {
      if Nested(test) { NestedHasEvenLength(test); }
      return false;
    }
    var stack: seq<byte> := [];
    var i := 0;
    while i < |test|
      invariant 0 <= i <= |test|
      invariant Scan(stack, test[i..]) == Scan([], test)
      invariant |stack| <= i
      invariant forall k :: 0 <= k < |stack| ==> !IsCloser(stack[k])
    {
      var c := test[i];
      assert test[i..][0] == c && test[i..][1..] == test[i + 1..];
      if c in Partners {
        var matching := Partners[c];
        if |stack| == 0 || stack[|stack| - 1] != matching {
          ScanDecidesNested(test);
          return false;
        }
        stack := stack[..|stack| - 1];
      } else {
        stack := stack + [c];
      }
      i := i + 1;
    }
    ok := |stack| == 0;
    ScanDecidesNested(test);
    if Nested(test) { NestedHasOnlyBrackets(test); }
  }

  /** The demo input "[])())" is not balanced. */
  lemma DemoUnbalanced()
    ensures !Nested(Ascii("[])())"))
  {
    var s := Ascii("[])())");
    assert s == [LeftBracket, RightBracket, RightParen, LeftParen, RightParen, RightParen];
    assert Scan([], s) == Scan([LeftBracket], s[1..]) == Scan([], s[2..]) == None;
    ScanDecidesNested(s);
  }
}
