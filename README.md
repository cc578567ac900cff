# Sequential exercises of GO_Task, modelled in Dafny

This project models seven small Go functions from six files of the GO_Task repository and proves what each one computes:

- `task1_03.go` `temp`: checks that a string is balanced over `()`, `[]` and `{}` using a stack of bytes.
- `task1_04.go` `test`: the longest common byte prefix of a list of strings.
- `task1_05.go` `test`: adds one to a decimal digit array by carrying in place.
- `task1_05.go` `test2`: adds one by building an integer from the digits and reading back its decimal text.
- `golang_task1/task1_01.go` `test`: counts values into a package-level map that persists across calls, then returns a key whose count is 1, or -1.
- `golang_task1/task1_02.go` `temp`: checks whether an integer is a decimal palindrome with two pointers.
- `golang_task1/task1_08.go` `test`: two-sum with a map from each value to its latest index.

Each Go file becomes one module: `Brackets`, `LongestPrefix`, `PlusOne`, `SingleNumber`, `Palindrome` and `TwoSum`. Two shared modules support them:

- `Bytes` holds the byte type. Go indexes strings by byte, so the input strings of task1_03.go `temp` and task1_04.go `test` are `seq<byte>`.
- `Decimal` holds digit sequences, their value, and a model of `strconv.FormatInt(n, 10)` / `strconv.Itoa(n)`.

The Go code changes state step by step, so the model is imperative:

- Methods with loops and loop invariants, in the same order as the source, with the same early returns.
- The in-place increment works on an `array<int>`. It returns either that same array or a new one.
- The package-level `testMap` is a field of a class, `SingleNumber.Tally`, so counts persist from one `Test` call to the next.
- Go's map iteration order is unspecified. The scan for a count-1 key therefore picks each next key nondeterministically (`:|`).

Each method is proved against a separate specification:

- Bracket balance is checked against a grammar of well-nested strings (`Brackets.Nested`), both directions.
- The longest common prefix is checked against "a common prefix that cannot be extended". That answer is proved unique.
- Both plus-one versions are checked against "the digits of value + 1". On canonical inputs the two versions are proved to give the same result.
- The palindrome check is checked against "the digit sequence equals its reverse".
- Two-sum is checked against soundness, completeness, and which pair the map overwrites select.
- The counting map is checked against occurrence counts (multisets).

Five of the six files have a `main` that calls the function on one demo input. Each of those demo calls is a lemma here. The `main` of `golang_task1/task1_08.go` is empty.

## Model

| member | source | states |
|---|---|---|
| `Brackets.CloserOf` | task1_03.go:17-21 | each opening bracket has a closer that maps back to it in task1_03.go's table |
| `Brackets.Scan` | task1_03.go:25-39 | the stack after a scan is never longer than the starting stack plus the bytes scanned, since each byte pushes at most one entry |
| `Brackets.ScanSkipsNested` | task1_03.go:25-39 | scanning a well-nested block leaves the stack exactly as it was before the block |
| `Brackets.InsertPair` | task1_03.go:29-34 | inserting a matched pair at any position keeps a string well-nested |
| `Brackets.ScanEmptyIsNested` | task1_03.go:25-41 | a scan from stack `st` over `s` that ends with an empty stack means `st + s` is well-nested |
| `Brackets.ScanDecidesNested` | task1_03.go:23-41 | the pop-on-partner / push-otherwise discipline ends with an empty stack iff the input is well-nested |
| `Brackets.NestedHasEvenLength` | task1_03.go:12-15 | well-nested strings have even length, so the odd-length early return loses nothing |
| `Brackets.NestedHasOnlyBrackets` | task1_03.go:35-41 | a well-nested string has only the six bracket bytes, so any other byte (which gets pushed) makes the result false |
| `Brackets.IsBalanced` | task1_03.go:11-42 | result is true iff the input is well-nested; the empty string gives true; odd length gives false; any non-bracket byte gives false; loop invariant: the stack holds only non-closing bytes and is no longer than the part scanned |
| `Brackets.DemoUnbalanced` | task1_03.go:8 | the demo input `"[])())"` is not balanced |
| `LongestPrefix.LongestContainsCommon` | task1_04.go:23-32 | a result that cannot be extended contains every common prefix |
| `LongestPrefix.LongestIsUnique` | task1_04.go:23-32 | at most one common prefix cannot be extended |
| `LongestPrefix.LongestCommonPrefix` | task1_04.go:12-33 | the empty list gives `" "`; otherwise the result is a prefix of every string, no longer than the shortest, and either some string ends there or some string differs from the first at the next byte; a one-element list gives that string |
| `LongestPrefix.DemoFlower` | task1_04.go:8 | the longest common prefix of `["flower","flow","flight"]` is `"fl"` |
| `PlusOne.PlusOne` | task1_05.go:15-23 | the carried result is as long as the input, or one longer; when it is one longer it is `1` followed by zeros |
| `PlusOne.PlusOneTrailingCarries` | task1_05.go:15-20 | with `t` trailing positions that carry (`t` may be 0), those become 0, the position to their left gains 1, and every position further left is unchanged |
| `PlusOne.PlusOneAllCarry` | task1_05.go:15-23 | an input of n nines gives `1` followed by n zeros |
| `PlusOne.PlusOneValue` | task1_05.go:12-24 | digits in give digits out, and the output's decimal value is the input's value plus one |
| `PlusOne.PlusOneCanonical` | task1_05.go:31-45 | on canonical digits (no leading zero) the carried result is exactly the canonical digits of value + 1 |
| `PlusOne.PlusOneInPlace` | task1_05.go:12-24 | the returned digits are `PlusOne` of the input; the result is the input array itself (changed in place), or a fresh array holding 1 followed by the input array, whose positions all became 0 |
| `PlusOne.PrependOne` | task1_05.go:23 | `append([]int{1}, num...)` gives a fresh array: 1, then the elements of `num` |
| `PlusOne.DemoViaInt` | task1_05.go:8-9 | the demo call `test2([]int{1,2,3})` gives `[1,2,4]` |
| `PlusOne.ReadDigits` | task1_05.go:41-44 | each character `c` of the decimal text becomes `c - '0'`, position by position |
| `PlusOne.PlusOneViaInt` | task1_05.go:26-48 | the empty input gives `[1]`; for up to 18 elements the result reads back `FormatInt(value + 1)`; on digit inputs that is the canonical digits of value + 1, with leading zeros dropped (`[0,0,1]` gives `[2]`); on canonical inputs it equals the result of the carrying version |
| `Decimal.Value` | task1_05.go:32-37 | the accumulation `n = n*10 + d` of a digit sequence is never negative |
| `Decimal.FormatInt` | task1_05.go:40 | the decimal text is non-empty, starts with `-` iff the number is negative, and every other character is a digit `0`..`9` |
| `Decimal.Digits` | task1_05.go:40 | the decimal digits that `FormatInt` prints are canonical: non-empty, each 0..9, no leading zero except for 0 |
| `Decimal.ValueOfDigits` | task1_05.go:38-44 | the value of the printed digits of n is n |
| `Decimal.DigitsOfValue` | task1_05.go:31-45 | printing the value of a canonical digit sequence gives that sequence back |
| `Decimal.FormatIntDigits` | golang_task1/task1_02.go:17 | for n >= 0, `Itoa(n)` has one character per digit, and each character reads back as that digit |
| `Decimal.FormatIntReadBack` | task1_05.go:40-44 | reading `FormatInt(n)` back by `c - '0'` gives exactly the digits of n |
| `Palindrome.PalindromicIsSelfReverse` | golang_task1/task1_02.go:19-26 | comparing positions `left` and `len-1-left` over the whole sequence decides whether it equals its reverse |
| `Palindrome.TextPalindromicIffDigits` | golang_task1/task1_02.go:17-26 | the decimal text of x is a palindrome iff its digit sequence is |
| `Palindrome.MultipleOfTenNotPalindrome` | golang_task1/task1_02.go:13-15 | a positive multiple of 10 is never a palindrome, so the guard's early false agrees with the digit test |
| `Palindrome.IsPalindrome` | golang_task1/task1_02.go:12-27 | negatives give false; non-zero multiples of 10 give false; 0 gives true; in general the result is true iff x >= 0 and its digits equal their reverse |
| `Palindrome.MirrorCheck` | golang_task1/task1_02.go:18-26 | the two-pointer loop returns true iff the text equals its reverse; loop invariant: `left + right == len(s) - 1` and `s[..left)` mirrors the end of `s` |
| `Palindrome.DemoNotPalindrome` | golang_task1/task1_02.go:9 | 12332 is not a palindrome |
| `TwoSum.LastIndexMapStep` | golang_task1/task1_08.go:15 | writing `numMap[num] = i` keeps the map sending each value seen to its last index |
| `TwoSum.LastIndexMapAbsent` | golang_task1/task1_08.go:10-11 | a complement missing from the map occurs at no earlier index |
| `TwoSum.TwoSum` | golang_task1/task1_08.go:6-18 | a returned `[i, j]` has `i < j` and `nums[i] + nums[j] == target`; `j` is the smallest index with an earlier partner; `i` is the last index below `j` holding `target - nums[j]`; nil is returned iff no pair `i < j` sums to target |
| `SingleNumber.Counted` | golang_task1/task1_01.go:13-16 | counting never removes a key of the map, and the last value counted is a key afterwards |
| `SingleNumber.CountedAdds` | golang_task1/task1_01.go:13-16 | counting a list adds to each key exactly its number of occurrences, and every value seen becomes a key |
| `SingleNumber.CountedAccumulates` | golang_task1/task1_01.go:6-16 | counting one list and then another equals counting their concatenation, so repeated calls accumulate |
| `SingleNumber.PickSingleton` | golang_task1/task1_01.go:18-24 | returns some key whose count is 1 when one exists (visiting keys in any order), and -1 otherwise |
| `SingleNumber.Tally.constructor` | golang_task1/task1_01.go:6 | the package-level map starts empty |
| `SingleNumber.Tally.Test` | golang_task1/task1_01.go:12-25 | the map grows by the occurrence count of each value of the list, and the result is a key of count 1 if there is one, otherwise -1 |
| `SingleNumber.DemoFreshMap` | golang_task1/task1_01.go:5-9 | after counting `[1,1,2,2,3,4,4]` into a fresh map, 3 is the only key of count 1 |

## Left out

- Printing: every `fmt.Println` inside the functions is output only and is dropped. Each demo call in a `main` is a lemma instead.
- Go integer widths: `target - num` in two-sum and the `int64` accumulation in `test2` use unbounded integers. Overflow is not modelled.
- `PlusOne.PlusOneViaInt`: requires at most 18 elements. For longer inputs `test2` calls itself on the same input and recurses without bound until the Go runtime aborts with a stack overflow (Go has no tail-call elimination). That abort is not modelled.
- `PlusOne.PlusOneViaInt`: Go's `range` over a string decodes runes. `FormatInt` only produces ASCII, so indexing characters gives the same positions.
- `Palindrome.MirrorCheck`: compares the characters of the ASCII text `Itoa(x)`, a Dafny `string`, where Go compares its bytes. For ASCII text the characters are the same as the bytes, so no result changes.
- `strconv.FormatInt` and `strconv.Itoa` are library code, not part of this model. Their behaviour is modelled by `Decimal.FormatInt` rather than verified: an optional minus sign, then canonical decimal digits.
- `SingleNumber.PickSingleton`: Go's map iteration order is not modelled. Any admissible key may be returned, chosen by `:|`. The code's observable answer is unspecified whenever several keys have count 1.
- Aliasing of Go slices: `PlusOne.PlusOneInPlace` states identity (the result is `num`, or a fresh array). The model does not track slice headers or capacity.
- The rest of the repository is not part of this model:
  - the concurrent task scheduler, mutex and atomic counters, and channel demos in `golang_task2`, which are about goroutines and timing;
  - the ORM, SQL, HTTP-handler and bcrypt code of the blog, book, bank, employee and student services.
