# constexpr-string in Dafny

A model of `ConstexprString<TSize>`, the compile-time fixed-length string of
the header `include/constexpr-string/constexpr-string.hpp`, together with
proofs of what its operations compute.

A `ConstexprString<TSize>` stores its `TSize` characters followed by a NUL in
`char mData[TSize + 1]`. Every operation is a `constexpr` single-expression
recursion over a bounded index, and nothing is changed after construction.
The model is therefore a datatype with functions and lemmas over it:

- `constexpr_string.dfy`, module `ConstexprStrings`. It holds the datatype
  `ConstexprString(len, mData)`: `len` is the template argument `TSize` and
  `mData` the storage. `Valid()` says the storage is `len + 1` long and ends
  in NUL. It also holds the C-string helpers `cstrlen` and `cstreq`, every
  member of the class and the `String` factory. A C pointer into a buffer is
  modelled as the sequence from that character to the end of the buffer, so
  `p + 1` is `s[1..]` and `*p` is `s[0]`. A literal argument
  `char const (&str)[N]` is the sequence of its `N` array elements, the
  terminator included.
- `properties.dfy`, module `StringProperties`. It holds properties that
  relate several operations:
  - construction from a literal, and `cstrlen` on it;
  - equality, which is an equivalence and is identity on NUL-free strings;
  - slicing a concatenation, which gives back its operands;
  - associativity and the empty string as unit for concatenation;
  - `allOf` over a concatenation;
  - the character search against the substring search;
  - uniqueness and shape of the first occurrence.
- `scenarios.dfy`, module `TestScenarios`. It holds the `static_assert`s of
  `test/main.cpp` that use operations the header defines, each stated as a
  lemma. `Lit("text")` is the character array the compiler makes of the
  literal `"text"`. `IsSentence(s)` holds of a string whose content is
  `"I think this is a test string."`, and `SentenceText` proves it holds of
  `prefix + str + postfix`.

The not-found result of both searches is `NotFound`, which is `-1`, the value
`findInternal` returns (constexpr-string.hpp:105).

## Model

| member | source | states |
|---|---|---|
| ConstexprStrings.CStrLen | include/constexpr-string/constexpr-string.hpp:36-38 | The result is the position of the first NUL: that character is NUL and none before it is. |
| ConstexprStrings.CStrEq | include/constexpr-string/constexpr-string.hpp:40-42 | True exactly when both C strings hold the same characters before their first NUL; this holds in both directions. |
| ConstexprStrings.ConstexprString.Size | include/constexpr-string/constexpr-string.hpp:61 | `size()` is one less than the length of the storage, and the storage ends in NUL at that index. |
| ConstexprStrings.ConstexprString.CStr | include/constexpr-string/constexpr-string.hpp:59 | `cStr()` is `size() + 1` characters long: the characters `operator[]` reads at `[0, size())`, then the terminator at `size()`. |
| ConstexprStrings.ConstexprString.At | include/constexpr-string/constexpr-string.hpp:52 | `operator[]` at index `size()` reads the terminator. |
| ConstexprStrings.ConstexprString.Content | include/constexpr-string/constexpr-string.hpp:95-101 | `[begin(), end())` has `size()` characters that agree with `operator[]`. The storage is that range followed by one NUL. |
| ConstexprStrings.ConstexprString.FromChars | include/constexpr-string/constexpr-string.hpp:125-127 | The pointer constructor (lines 49-50 delegate to it) gives a valid string of size `n`. Character `i` is `src[i]` for `i < n`, and index `n` holds a fresh NUL. |
| ConstexprStrings.ConstexprString.Concat | include/constexpr-string/constexpr-string.hpp:129-134 | The two-string constructor (lines 54-57 delegate to it) gives size `lhs.size() + rhs.size()`. The left characters come first, then the right ones, then NUL. |
| ConstexprStrings.ConstexprString.Plus | include/constexpr-string/constexpr-string.hpp:68-71 | `operator+` gives a valid string whose content is the left content followed by the right content. |
| ConstexprStrings.ConstexprString.Substr | include/constexpr-string/constexpr-string.hpp:73-76 | `substr<from, to>` has size `to - from` and character `i` is `at(from + i)`. Within the content it is the slice `[from, to)`. |
| ConstexprStrings.ConstexprString.Equals | include/constexpr-string/constexpr-string.hpp:78-81 | `operator==` holds exactly when the sizes agree and the storages agree as C strings, up to the first NUL. |
| ConstexprStrings.ConstexprString.NotEquals | include/constexpr-string/constexpr-string.hpp:83-86 | `operator!=` holds exactly when the sizes differ or the C strings differ. |
| ConstexprStrings.ConstexprString.ContentEquals | include/constexpr-string/constexpr-string.hpp:78-81 | Corrected equality: same size and the same character at every offset. |
| ConstexprStrings.ConstexprString.AllOfInternal | include/constexpr-string/constexpr-string.hpp:120-123 | True exactly when `p` holds of every character from `index` to the end. |
| ConstexprStrings.ConstexprString.AllOf | include/constexpr-string/constexpr-string.hpp:63-66 | True exactly when `p` holds of every content character; always true for the empty string. |
| ConstexprStrings.ConstexprString.FindCharInternal | include/constexpr-string/constexpr-string.hpp:104-106 | Either -1 exactly when no index from `index` on holds `c`, or the least such index. |
| ConstexprStrings.ConstexprString.FindChar | include/constexpr-string/constexpr-string.hpp:93 | `find(c, pos)` is -1 exactly when `c` is absent from `[pos, size())`, and otherwise the least index there holding `c`. A `pos` at or past the size gives -1. |
| ConstexprStrings.ConstexprString.FindInternal | include/constexpr-string/constexpr-string.hpp:108-115 | With `index2` needle characters already matched at `index - index2`, the result is the first occurrence from that start on, or -1. This is the naive search with restart, and it terminates on a lexicographic measure. |
| ConstexprStrings.ConstexprString.Find | include/constexpr-string/constexpr-string.hpp:88-91 | `find(str, pos)` returns the least start `k >= pos` with `str` (without its terminator) at `[k, k + m)`, or -1 if there is none. An empty literal returns `pos`. |
| ConstexprStrings.String | include/constexpr-string/constexpr-string.hpp:139-142 | `String(str)` of an `N`-element array has size `N - 1` and content the first `N - 1` elements. |
| StringProperties.SameContentSameString | include/constexpr-string/constexpr-string.hpp:136 | Two valid strings are the same value exactly when their contents agree. The storage is fixed by the content. |
| StringProperties.CStrLenOfLiteral | include/constexpr-string/constexpr-string.hpp:36-38 | `cstrlen` of a literal is the number of characters before its one NUL. |
| StringProperties.StringStoresArray | include/constexpr-string/constexpr-string.hpp:139-142 | `String` on an array ending in NUL stores that array unchanged. |
| StringProperties.StringFromLiteral | include/constexpr-string/constexpr-string.hpp:139-142 | `String` on a literal stores the literal itself. `cstrlen` of it equals `size()`. |
| StringProperties.CStrLenOfString | include/constexpr-string/constexpr-string.hpp:59-61 | `cstrlen(cStr())` never exceeds `size()`. It equals `size()` exactly when the content holds no NUL. |
| StringProperties.EqualsIsEquivalence | include/constexpr-string/constexpr-string.hpp:78-81 | `operator==` is reflexive, symmetric and transitive. |
| StringProperties.ContentEqualsIsIdentity | include/constexpr-string/constexpr-string.hpp:78-81 | The corrected equality holds exactly when the two strings are the same value. |
| StringProperties.EqualsOnNulFree | include/constexpr-string/constexpr-string.hpp:78-81 | On NUL-free strings, `operator==` agrees with the corrected equality and with identity. |
| StringProperties.EqualsIgnoresCharactersAfterNul | include/constexpr-string/constexpr-string.hpp:80 | `String("a\0b") == String("a\0c")` holds although the contents differ. |
| StringProperties.ConcatSubstrRoundTrip | include/constexpr-string/constexpr-string.hpp:68-76 | Slicing `a + b` at the seam gives back `a` and `b`. |
| StringProperties.ConcatSubstrMiddle | include/constexpr-string/constexpr-string.hpp:68-76 | Slicing `a + b + c` between the two seams gives back `b`. |
| StringProperties.PlusAssociative | include/constexpr-string/constexpr-string.hpp:68-71 | `(a + b) + c == a + (b + c)`. |
| StringProperties.PlusEmpty | include/constexpr-string/constexpr-string.hpp:68-71 | `String("")` is a left and right unit of `operator+`. |
| StringProperties.SubstrWhole | include/constexpr-string/constexpr-string.hpp:73-76 | `substr<0>()` with the default `to` is the string itself. |
| StringProperties.SubstrOfSubstr | include/constexpr-string/constexpr-string.hpp:73-76 | A slice of a slice is the slice at the summed offsets. |
| StringProperties.SubstrThroughTerminator | include/constexpr-string/constexpr-string.hpp:73-76 | `to == size() + 1` is accepted, because `to` is not clamped, and it copies the terminator into the content. |
| StringProperties.AllOfPlus | include/constexpr-string/constexpr-string.hpp:63-71 | `allOf` over `a + b` holds exactly when it holds over `a` and over `b`. |
| StringProperties.AllOfIsMembership | include/constexpr-string/constexpr-string.hpp:63-66 | `allOf(p)` holds exactly when `p` holds of every character the content contains. |
| StringProperties.OccursAtIsSlice | include/constexpr-string/constexpr-string.hpp:108-115 | A needle occurs at `k` exactly when the content slice `[k, k + m)` equals it. |
| StringProperties.FirstOccurrenceUnique | include/constexpr-string/constexpr-string.hpp:108-115 | There is at most one first occurrence from a given start. |
| StringProperties.FindCharIsLeast | include/constexpr-string/constexpr-string.hpp:104-106 | A `c` at `k` with none in `[pos, k)` is exactly what `find(c, pos)` returns. |
| StringProperties.FindIsLeast | include/constexpr-string/constexpr-string.hpp:108-115 | An occurrence at `k` with none in `[pos, k)` is exactly what `find(str, pos)` returns. |
| StringProperties.FindCharAgreesWithFind | include/constexpr-string/constexpr-string.hpp:88-93 | `find(c, pos)` equals `find` of the one-character literal holding `c`. |
| StringProperties.FindCharStable | include/constexpr-string/constexpr-string.hpp:104-106 | Searching again from a found index returns that index. |
| StringProperties.FindThenSubstr | include/constexpr-string/constexpr-string.hpp:88-91 | When `find(str, pos)` finds `r`, then `substr<r, r + m>` is the needle. |
| StringProperties.FindTooLong | include/constexpr-string/constexpr-string.hpp:111-113 | A non-empty needle longer than what is left after `pos` gives -1. |
| StringProperties.FindCharNotFoundIff | include/constexpr-string/constexpr-string.hpp:104-106 | `find(c, pos)` is -1 exactly when `c` is not in the content from `pos` on. |
| StringProperties.FindMissingChar | include/constexpr-string/constexpr-string.hpp:108-115 | A needle with a character the content lacks is never found. |
| StringProperties.PlusAt | include/constexpr-string/constexpr-string.hpp:129-134 | Indexing `a + b` reads `a` below `a.size()` and `b` at the offset above. |
| StringProperties.FindCharInPlus | include/constexpr-string/constexpr-string.hpp:104-106 | `find(c)` on `a + b` finds `c` in `a` if it is there, otherwise at `a.size()` plus its index in `b`, otherwise -1. |
| TestScenarios.SentenceText | test/main.cpp:24-26 | `prefix + str + postfix` holds the text `I think this is a test string.`. |
| TestScenarios.HexStrChecks | test/main.cpp:16-18 | `hexStr` has even size and holds hex characters only. |
| TestScenarios.LowerStrChecks | test/main.cpp:20-22 | `str` has size 14 and is lower case throughout. |
| TestScenarios.ChainedConcatEquals | test/main.cpp:28 | `String("ABC") + "def" + String("Ghi") == String("ABCdefGhi")`, with the middle operand built by `String`. |
| TestScenarios.SentenceChecks | test/main.cpp:29-31 | The sentence's size is the sum of its parts. It equals its literal and is terminated. |
| TestScenarios.SentenceSubstrHead | test/main.cpp:33 | `substr<0, 1>()` is `String("I")`. |
| TestScenarios.SentenceSubstrMiddle | test/main.cpp:34 | `substr<8, 22>()` is `String("this is a test")`. |
| TestScenarios.SentenceSubstrTail | test/main.cpp:35 | `substr<23>()` is `String("string.")`. |
| TestScenarios.SentenceFindI | test/main.cpp:37 | `find('I') == 0`. |
| TestScenarios.SentenceFindT | test/main.cpp:38 | `find('t') == 2`, which is also `find('t', 0)` at line 44. |
| TestScenarios.SentenceFindCharMissing | test/main.cpp:39 | `find('!')` is the not-found value. |
| TestScenarios.SentenceFindDot | test/main.cpp:40 | `find('.') == size() - 1`. |
| TestScenarios.SentenceFindK6 | test/main.cpp:42 | `find('k', 6) == 6`. |
| TestScenarios.SentenceFindK7 | test/main.cpp:43 | `find('k', 7)` is the not-found value. |
| TestScenarios.SentenceFindT10 | test/main.cpp:45 | `find('t', 10) == 18`. |
| TestScenarios.SentenceFindThink | test/main.cpp:46 | `find("think", 0) == 2`, which is also `find("think")` at line 53. |
| TestScenarios.SentenceFindThinkFrom3 | test/main.cpp:47 | `find("think", 3)` is the not-found value. |
| TestScenarios.SentenceFindIs | test/main.cpp:48 | `find("is", 5) == 10`. |
| TestScenarios.SentenceFindIsFrom11 | test/main.cpp:49 | `find("is", 11) == 13`. |
| TestScenarios.SentenceFindAbc | test/main.cpp:51 | `find("abc")` is the not-found value. |
| TestScenarios.SentenceFindIThink | test/main.cpp:52 | `find("I think") == 0`. |
| TestScenarios.StrFindSpaceIsATest | test/main.cpp:55 | On the text `this is a test`, `find(" is a test") == 4`. |
| TestScenarios.StrFindIsATest | test/main.cpp:56 | On the text `this is a test`, `find("is a test") == 5`. The restart after the partial match inside `this` is exercised. |
| TestScenarios.StrFindSATest | test/main.cpp:57 | On the text `this is a test`, `find("s a test") == 6`. |
| TestScenarios.SentenceSubstrFinds | test/main.cpp:55-57 | The three searches on `sentence.substr<8, 22>()` return 4, 5 and 6. |

## Left out

- `rfind`, `replace`, `toLower`, `toUpper`, `findFirstOf`,
  `findFirstNotOf`, `findLastOf`, `findLastNotOf` and `StringNpos` are
  called by test/main.cpp:39 and 59-112. The header defines none of them,
  so they are left out together with the assertions that use them. Where a
  `find` assertion compares against `StringNpos`, the model uses the -1
  that `findInternal` returns.
- Test line 28 adds the raw literal `"def"` to a string. The header has no
  `operator+` taking a character array, and its pointer constructor is
  `explicit`. The model builds that operand with `String("def")`.
- `IntSequence`, `append` and `MakeIntSequence` (lines 9-34) are type-level
  index packs. The model uses sequence comprehensions in their place.
- The length in the type and the `EnableIf` guards are preconditions, not
  types:
  - `TOtherSize <= TSize` at line 54;
  - `TFrom <= TTo` at line 73;
  - the needle no longer than the string at line 88.
- `static_assert(TSize >= -1)` at line 47 admits `TSize == -1`, but `len`
  is a natural number, so the model has no string of size -1. No
  constructor of the header can build one: both go through
  `MakeIntSequence<TSize>`, and `MakeIntSequence<-1>` fails the
  `TSize >= 0` assertion at line 33.
- The code leaves some reads undefined, and the model rules them out by
  preconditions instead of giving them a value:
  - `operator[]` outside `[0, size()]`;
  - a negative `pos` in `find(c, pos)`, which reads `mData[pos]` (line 105);
  - a negative `pos` with a non-empty literal in `find(str, pos)`, which
    reads `mData[pos]` (line 113);
  - `substr` with `from < 0`, where `mData + TFrom` points before the array;
  - `substr` with `to > size() + 1`, which reads past `mData`;
  - `cstrlen` and `cstreq` on a buffer with no NUL, which they read past
    its end (`NUL in s` in `CStrLen` and `CStrEq`).
  `to == size() + 1` stays allowed and copies the terminator
  (`SubstrThroughTerminator`).
- ConstexprStrings.ConstexprString.Find: requires `0 <= pos` also for the
  empty literal, where the code is well defined for every `pos`. There
  the test at line 111 comes first and returns `pos` without reading
  `mData`, so `find("", -3)` is -3 and `find("", -1)` happens to equal the
  not-found value. No call in the test passes a negative `pos`, and for a
  negative start the first-occurrence contract would not hold.
- A Dafny `char` is a Unicode scalar value, while the source's `char` is
  one byte, signed or unsigned depending on the platform. The core only
  compares characters with each other and with NUL, so it is unaffected
  as long as characters stand for bytes 0-255. `Lit` makes one element
  per code point where the compiler makes one byte per UTF-8 unit,
  which differs for non-ASCII text. The order comparisons in the test's
  `IsLowerCase` and `IsHexChar` also give other results than on a signed
  `char` above 127. Every literal of the test is ASCII.
- `cStr()`, `begin()` and `end()` return raw pointers. They are modelled as
  the storage sequence (`CStr`) and the content range (`Content`). Pointer
  identity and pointer arithmetic beyond that are not modelled.
- `int` is unbounded here. The sizes of real strings are far below any
  overflow of the source's `int`.
- The `<iostream>` include and the `puts` output of the test are I/O. The
  test's functors `IsLowerCase` and `IsHexChar` (test/main.cpp:5-13) are
  test context: the predicates of the same names in `TestScenarios` state
  their bodies and serve only as arguments to `allOf`, so they have no
  row in the table.

## Findings

| source | as written | input that shows it | evidently intended | confidence | as-written member | corrected member |
|---|---|---|---|---|---|---|
| include/constexpr-string/constexpr-string.hpp:78-81 | `operator==` compares the sizes and then the storages with `cstreq`, which stops at the first NUL, so characters after an embedded NUL are never compared | `String("a\0b") == String("a\0c")` is true, although the second characters differ | equal exactly when the sizes and all `size()` characters agree | low: embedded NULs may be outside the intended use; not executed | StringProperties.EqualsIgnoresCharactersAfterNul | ConstexprStrings.ConstexprString.ContentEquals |

`ConstexprStrings.ConstexprString.Equals` models the code as written.
`StringProperties.ContentEqualsIsIdentity` proves that the corrected equality
is identity of values. `StringProperties.EqualsOnNulFree` proves that the two
agree whenever neither string holds a NUL, which covers every literal of the
test program.
