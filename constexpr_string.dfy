/**
 * A model of the compile-time string value `ConstexprString<TSize>`.
 *
 * A string of size `TSize` stores its `TSize` characters followed by a NUL
 * terminator in `char mData[TSize + 1]`. Every operation is a pure, terminating
 * recursion over a bounded index; nothing is changed after construction, so
 * the model is a datatype with functions over it.
 *
 * A C pointer `const char* p` into a buffer is modelled as the sequence of the
 * characters from `*p` to the end of that buffer, so `p + 1` becomes `s[1..]`.
 */
module ConstexprStrings {

  /** The terminator stored after the content of every string. */
  const NUL: char := '\0'

  /** What every `find` returns when there is no match. */
  const NotFound: int := -1

  /** `cstrlen(str)`: the number of characters before the first NUL. */
  function CStrLen(s: seq<char>): (n: nat)
    requires NUL in s
    ensures n < |s| && s[n] == NUL
    ensures forall i :: 0 <= i < n ==> s[i] != NUL
    decreases |s|
  {
    if s[0] != NUL then
      assert NUL in s[1..] by {
        var k :| 0 <= k < |s| && s[k] == NUL;
        assert s[1..][k - 1] == NUL;
      }
      var m := CStrLen(s[1..]);
      assert forall i :: 1 <= i < 1 + m ==> s[i] == s[1..][i - 1];
      1 + m
    else
      0
  }

  /** The characters a C string denotes: everything before its first NUL. */
  function CStrChars(s: seq<char>): seq<char>
    requires NUL in s
  {
    s[..CStrLen(s)]
  }

  /** `cstreq(a, b)`: two C strings hold the same characters up to their terminators. */
  function CStrEq(a: seq<char>, b: seq<char>): (r: bool)
    requires NUL in a && NUL in b
    ensures r <==> CStrChars(a) == CStrChars(b)
    decreases |a|
  {
    if a[0] == b[0] && a[0] != NUL then
      assert NUL in a[1..] && NUL in b[1..] by {
        var k :| 0 <= k < |a| && a[k] == NUL;
        assert a[1..][k - 1] == NUL;
        var l :| 0 <= l < |b| && b[l] == NUL;
        assert b[1..][l - 1] == NUL;
      }
      var r := CStrEq(a[1..], b[1..]);
      assert CStrChars(a) == [a[0]] + CStrChars(a[1..]);
      assert CStrChars(b) == [b[0]] + CStrChars(b[1..]);
      r
    else
      var r := a[0] == b[0] && a[0] == NUL;
      assert !r ==> CStrChars(a) != CStrChars(b) by {
        if !r {
          if CStrLen(a) > 0 && CStrLen(b) > 0 {
            assert CStrChars(a)[0] != CStrChars(b)[0];
          } else {
            assert CStrLen(a) != CStrLen(b);
          }
        }
      }
      r
  }

  /** A string of size `len` (the template argument `TSize`) stored in `mData`. */
  datatype ConstexprString = ConstexprString(len: nat, mData: seq<char>) {

    /** The storage holds `len + 1` characters and the last one is the terminator. */
    predicate Valid() {
      |mData| == len + 1 && mData[len] == NUL
    }

    /** `size()`: the size in the type; the storage is one longer and ends in NUL. */
    function Size(): (n: nat)
      requires Valid()
      ensures n + 1 == |mData| && mData[n] == NUL
    {
      len
    }

    /**
     * `cStr()`: the storage, seen as a C string: the `size()` characters
     * `operator[]` reads, then the terminator.
     */
    function CStr(): (p: seq<char>)
      requires Valid()
      ensures |p| == Size() + 1 && p[Size()] == NUL
      ensures forall i :: 0 <= i < Size() ==> p[i] == At(i)
    {
      mData
    }

    /** `operator[]`: the stored character at `index`; at `size()` it is the terminator. */
    function At(index: int): (c: char)
      requires Valid() && 0 <= index <= Size()
      ensures index == Size() ==> c == NUL
    {
      mData[index]
    }

    /** The range `[begin(), end())`: exactly the content, without the terminator. */
    function Content(): (c: seq<char>)
      requires Valid()
      ensures |c| == Size()
      ensures forall i :: 0 <= i < |c| ==> c[i] == At(i)
      ensures CStr() == c + [NUL]
    {
      mData[..len]
    }

    /**
     * The pointer constructor (and the private pack-expansion constructor it
     * delegates to): copies the first `n` characters of the buffer at `src`
     * and appends a terminator.
     */
    static function FromChars(src: seq<char>, n: nat): (s: ConstexprString)
      requires n <= |src|
      ensures s.Valid() && s.Size() == n
      ensures forall i :: 0 <= i < n ==> s.At(i) == src[i]
      ensures s.At(n) == NUL
    {
      ConstexprString(n, seq(n, i requires 0 <= i < n => src[i]) + [NUL])
    }

    /**
     * The two-string constructor (and the private pack-expansion one it
     * delegates to): the characters of `lhs`, then those of `rhs`, then a
     * fresh terminator.
     */
    static function Concat(lhs: ConstexprString, rhs: ConstexprString): (s: ConstexprString)
      requires lhs.Valid() && rhs.Valid()
      ensures s.Valid() && s.Size() == lhs.Size() + rhs.Size()
      ensures forall i :: 0 <= i < lhs.Size() ==> s.At(i) == lhs.At(i)
      ensures forall i :: lhs.Size() <= i <= s.Size() ==> s.At(i) == rhs.At(i - lhs.Size())
    {
      ConstexprString(
        lhs.len + rhs.len,
        seq(lhs.len, i requires 0 <= i < lhs.len => lhs.At(i))
          + seq(rhs.len, i requires 0 <= i < rhs.len => rhs.At(i))
          + [NUL])
    }

    /** `operator+`: concatenation; the content is this content followed by `rhs`'s. */
    function Plus(rhs: ConstexprString): (s: ConstexprString)
      requires Valid() && rhs.Valid()
      ensures s.Valid()
      ensures s.Content() == Content() + rhs.Content()
    {
      var s := Concat(this, rhs);
      assert s.Content() == Content() + rhs.Content() by {
        forall i | 0 <= i < s.Size()
          ensures s.Content()[i] == (Content() + rhs.Content())[i]
        {
          if i >= Size() {
            assert s.At(i) == rhs.At(i - Size());
          }
        }
      }
      s
    }

    /**
     * `substr<from, to>()`: a copy of the characters at `[from, to)`. `to` is
     * not clamped: it may reach the terminator at `size()` but no further.
     * `to` defaults to `size()` in the source.
     */
    function Substr(from: int, to: int): (s: ConstexprString)
      requires Valid() && 0 <= from <= to <= Size() + 1
      ensures s.Valid() && s.Size() == to - from
      ensures forall i :: 0 <= i < to - from ==> s.At(i) == At(from + i)
      ensures to <= Size() ==> s.Content() == Content()[from..to]
    {
      FromChars(mData[from..], to - from)
    }

    /** `operator==`: same size, and the storages agree as C strings. */
    function Equals(rhs: ConstexprString): (r: bool)
      requires Valid() && rhs.Valid()
      ensures r <==> Size() == rhs.Size() && CStrChars(CStr()) == CStrChars(rhs.CStr())
    {
      assert mData[len] in mData && rhs.mData[rhs.len] in rhs.mData;
      Size() == rhs.Size() && CStrEq(CStr(), rhs.CStr())
    }

    /** `operator!=`: the negation of `operator==`. */
    function NotEquals(rhs: ConstexprString): (r: bool)
      requires Valid() && rhs.Valid()
      ensures r <==> Size() != rhs.Size() || CStrChars(CStr()) != CStrChars(rhs.CStr())
    {
      !Equals(rhs)
    }

    /**
     * Content equality: same size and the same characters at every offset.
     * This is what `operator==` is meant to decide; it differs from `Equals`
     * only on content holding a NUL.
     */
    function ContentEquals(rhs: ConstexprString): (r: bool)
      requires Valid() && rhs.Valid()
      ensures r <==> Size() == rhs.Size() && forall i :: 0 <= i < Size() ==> At(i) == rhs.At(i)
    {
      Size() == rhs.Size() && Content() == rhs.Content()
    }

    /** `allOfInternal(index, p)`: `p` holds of every character from `index` to the end. */
    function AllOfInternal(index: int, p: char -> bool): (r: bool)
      requires Valid() && 0 <= index
      ensures r <==> forall i :: index <= i < Size() ==> p(At(i))
      decreases Size() - index
    {
      if index < Size() then (if p(At(index)) then AllOfInternal(index + 1, p) else false) else true
    }

    /** `allOf(p)`: `p` holds of every content character; true for the empty string. */
    function AllOf(p: char -> bool): (r: bool)
      requires Valid()
      ensures r <==> forall i :: 0 <= i < Size() ==> p(At(i))
      ensures Size() == 0 ==> r
    {
      AllOfInternal(0, p)
    }

    /** `findInternal(index, c)`: the first index at or after `index` holding `c`. */
    function FindCharInternal(index: int, c: char): (r: int)
      requires Valid() && 0 <= index
      ensures r == NotFound <==> forall i :: index <= i < Size() ==> At(i) != c
      ensures r != NotFound ==> index <= r < Size() && At(r) == c
      ensures r != NotFound ==> forall i :: index <= i < r ==> At(i) != c
      decreases Size() - index
    {
      if index < Size() then (if At(index) == c then index else FindCharInternal(index + 1, c)) else NotFound
    }

    /** `find(c, pos)`: the first index at or after `pos` holding `c`, or `NotFound`. */
    function FindChar(c: char, pos: int): (r: int)
      requires Valid() && 0 <= pos
      ensures r == NotFound <==> forall i :: pos <= i < Size() ==> At(i) != c
      ensures r != NotFound ==> pos <= r < Size() && At(r) == c
      ensures r != NotFound ==> forall i :: pos <= i < r ==> At(i) != c
      ensures Size() <= pos ==> r == NotFound
    {
      FindCharInternal(pos, c)
    }

    /** `needle` occurs in the content starting at offset `k`. */
    predicate OccursAt(needle: seq<char>, k: int)
      requires Valid()
    {
      0 <= k && k + |needle| <= Size() && forall j :: 0 <= j < |needle| ==> At(k + j) == needle[j]
    }

    /** `r` is the least start at or after `from` where `needle` occurs, or `NotFound` if there is none. */
    predicate IsFirstOccurrence(needle: seq<char>, from: int, r: int)
      requires Valid()
    {
      && (r == NotFound <==> forall k :: from <= k <= Size() ==> !OccursAt(needle, k))
      && (r != NotFound ==> from <= r && OccursAt(needle, r))
      && (r != NotFound ==> forall k :: from <= k < r ==> !OccursAt(needle, k))
    }

    /**
     * `findInternal(index, index2, str)`: naive search for the literal `str`
     * (an array whose last element, its terminator, is never read). The
     * candidate start is `index - index2`, and the first `index2` characters
     * of the needle already match there; a mismatch restarts one past the
     * candidate start.
     */
    function FindInternal(index: int, index2: int, str: seq<char>): (r: int)
      requires Valid() && 1 <= |str|
      requires 0 <= index2 <= |str| - 1 && index2 <= index
      requires index2 > 0 ==> index <= Size()
      requires forall j :: 0 <= j < index2 ==> At(index - index2 + j) == str[j]
      ensures |str| == 1 ==> r == index
      ensures |str| > 1 || index <= Size() ==> IsFirstOccurrence(str[..|str| - 1], index - index2, r)
      decreases Size() - (index - index2), |str| - 1 - index2
    {
      var needle := str[..|str| - 1];
      var start := index - index2;
      if index2 == |str| - 1 then
        assert |str| > 1 || index <= Size() ==> OccursAt(needle, start);
        index - |str| + 1
      else if index < Size() then
        if At(index) == str[index2] then
          FindInternal(index + 1, index2 + 1, str)
        else
          assert !OccursAt(needle, start) by {
            assert start + index2 == index && needle[index2] == str[index2];
          }
          FindInternal(index + 1 - index2, 0, str)
      else
        assert forall k :: start <= k ==> !OccursAt(needle, k);
        NotFound
    }

    /**
     * `find(str, pos)`: the first start at or after `pos` where the literal
     * `str` (without its terminator) occurs, or `NotFound`. An empty literal
     * yields `pos` itself. The needle may not be longer than the string.
     */
    function Find(str: seq<char>, pos: int): (r: int)
      requires Valid() && 1 <= |str| && |str| - 1 <= Size() && 0 <= pos
      ensures |str| == 1 ==> r == pos
      ensures |str| > 1 || pos <= Size() ==> IsFirstOccurrence(str[..|str| - 1], pos, r)
    {
      FindInternal(pos, 0, str)
    }
  }

  /** `String(str)`: a string of size `|str| - 1` from a literal (an array ending in its terminator). */
  function String(str: seq<char>): (s: ConstexprString)
    requires 1 <= |str|
    ensures s.Valid() && s.Size() == |str| - 1
    ensures s.Content() == str[..|str| - 1]
  {
    ConstexprString.FromChars(str, |str| - 1)
  }
}
