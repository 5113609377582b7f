/**
 * Properties of the `ConstexprString` model that relate several operations:
 * construction from literals, equality, concatenation against slicing, and
 * the two searches against one another.
 */
module StringProperties {
  import opened ConstexprStrings

  /** No content character of `s` is the terminator. */
  predicate NulFree(s: ConstexprString)
    requires s.Valid()
  {
    forall i :: 0 <= i < s.Size() ==> s.At(i) != NUL
  }

  /** A string literal as the compiler lays it out: its characters, then its one NUL. */
  predicate IsLiteral(str: seq<char>) {
    1 <= |str| && str[|str| - 1] == NUL && forall i :: 0 <= i < |str| - 1 ==> str[i] != NUL
  }

  /** Two valid strings with the same content are the same value, whichever way they were built. */
  lemma SameContentSameString(a: ConstexprString, b: ConstexprString)
    requires a.Valid() && b.Valid()
    ensures a.Content() == b.Content() <==> a == b
  {
    if a.Content() == b.Content() {
      assert a.mData == a.Content() + [NUL] == b.Content() + [NUL] == b.mData;
    }
  }

  // ---------------------------------------------------------------------------
  // Construction and cstrlen

  /** `cstrlen` of a literal counts everything before its terminator. */
  lemma CStrLenOfLiteral(str: seq<char>)
    requires IsLiteral(str)
    ensures NUL in str && CStrLen(str) == |str| - 1
  {
    assert str[|str| - 1] in str;
    var n := CStrLen(str);
    assert n >= |str| - 1 by {
      assert forall i :: 0 <= i < |str| - 1 ==> str[i] != NUL;
    }
  }

  /** `String` on an array ending in NUL stores that array unchanged. */
  lemma StringStoresArray(str: seq<char>)
    requires 1 <= |str| && str[|str| - 1] == NUL
    ensures String(str).CStr() == str
  {
    var s := String(str);
    assert s.CStr() == s.Content() + [NUL];
    assert str == str[..|str| - 1] + str[|str| - 1..];
    assert str[|str| - 1..] == [NUL];
  }

  /** `String` on a literal stores the literal itself, and `cstrlen` of it gives back the size. */
  lemma StringFromLiteral(str: seq<char>)
    requires IsLiteral(str)
    ensures String(str).CStr() == str
    ensures CStrLen(str) == String(str).Size() == |str| - 1
  {
    StringStoresArray(str);
    CStrLenOfLiteral(str);
  }

  /** `cstrlen(cStr())` never exceeds `size()`, and equals it for NUL-free content. */
  lemma CStrLenOfString(s: ConstexprString)
    requires s.Valid()
    ensures CStrLen(s.CStr()) <= s.Size()
    ensures NulFree(s) <==> CStrLen(s.CStr()) == s.Size()
  {
    var n := CStrLen(s.CStr());
    if n < s.Size() {
      assert s.At(n) == NUL;
    }
  }

  // ---------------------------------------------------------------------------
  // Equality

  /** `operator==` is an equivalence relation on all strings, NUL or no NUL. */
  lemma EqualsIsEquivalence(a: ConstexprString, b: ConstexprString, c: ConstexprString)
    requires a.Valid() && b.Valid() && c.Valid()
    ensures a.Equals(a)
    ensures a.Equals(b) ==> b.Equals(a)
    ensures a.Equals(b) && b.Equals(c) ==> a.Equals(c)
    ensures a.NotEquals(b) <==> !a.Equals(b)
  {
  }

  /** Content equality decides identity of values. */
  lemma ContentEqualsIsIdentity(a: ConstexprString, b: ConstexprString)
    requires a.Valid() && b.Valid()
    ensures a.ContentEquals(b) <==> a == b
  {
    SameContentSameString(a, b);
  }

  /** On NUL-free content `operator==` is content equality, hence identity of values. */
  lemma EqualsOnNulFree(a: ConstexprString, b: ConstexprString)
    requires a.Valid() && b.Valid() && NulFree(a) && NulFree(b)
    ensures a.Equals(b) <==> a.ContentEquals(b)
    ensures a.Equals(b) <==> a == b
  {
    CStrLenOfString(a);
    CStrLenOfString(b);
    assert CStrChars(a.CStr()) == a.Content();
    assert CStrChars(b.CStr()) == b.Content();
    SameContentSameString(a, b);
  }

  /**
   * `operator==` as written stops comparing at the first NUL, so two strings
   * of the same size whose contents differ after an embedded NUL compare equal.
   */
  lemma EqualsIgnoresCharactersAfterNul()
    ensures String("a\0b\0").Equals(String("a\0c\0"))
    ensures !String("a\0b\0").ContentEquals(String("a\0c\0"))
  {
    var a, b := String("a\0b\0"), String("a\0c\0");
    assert a.CStr() == "a\0b\0" && b.CStr() == "a\0c\0";
    assert CStrLen(a.CStr()) == 1 && CStrLen(b.CStr()) == 1;
    assert CStrChars(a.CStr()) == "a" == CStrChars(b.CStr());
    assert a.At(2) == 'b' && b.At(2) == 'c';
  }

  // ---------------------------------------------------------------------------
  // Concatenation and slicing

  /** Slicing a concatenation at the seam gives back both operands. */
  lemma ConcatSubstrRoundTrip(a: ConstexprString, b: ConstexprString)
    requires a.Valid() && b.Valid()
    ensures a.Plus(b).Substr(0, a.Size()) == a
    ensures a.Plus(b).Substr(a.Size(), a.Size() + b.Size()) == b
  {
    var ab := a.Plus(b);
    assert ab.Content()[0..a.Size()] == a.Content();
    assert ab.Content()[a.Size()..a.Size() + b.Size()] == b.Content();
    SameContentSameString(ab.Substr(0, a.Size()), a);
    SameContentSameString(ab.Substr(a.Size(), a.Size() + b.Size()), b);
  }

  /** Slicing `a + b + c` between the two seams gives back the middle operand. */
  lemma ConcatSubstrMiddle(a: ConstexprString, b: ConstexprString, c: ConstexprString)
    requires a.Valid() && b.Valid() && c.Valid()
    ensures a.Plus(b).Plus(c).Substr(a.Size(), a.Size() + b.Size()) == b
  {
    var ab := a.Plus(b);
    ConcatSubstrRoundTrip(ab, c);
    SubstrOfSubstr(ab.Plus(c), 0, ab.Size(), a.Size(), a.Size() + b.Size());
    ConcatSubstrRoundTrip(a, b);
  }

  /** Concatenation is associative. */
  lemma PlusAssociative(a: ConstexprString, b: ConstexprString, c: ConstexprString)
    requires a.Valid() && b.Valid() && c.Valid()
    ensures a.Plus(b).Plus(c) == a.Plus(b.Plus(c))
  {
    assert a.Content() + b.Content() + c.Content() == a.Content() + (b.Content() + c.Content());
    SameContentSameString(a.Plus(b).Plus(c), a.Plus(b.Plus(c)));
  }

  /** The empty string (from the literal `""`) is a unit of concatenation on both sides. */
  lemma PlusEmpty(a: ConstexprString)
    requires a.Valid()
    ensures a.Plus(String("\0")) == a
    ensures String("\0").Plus(a) == a
  {
    var e := String("\0");
    assert e.Content() == [];
    assert a.Content() + e.Content() == a.Content() == e.Content() + a.Content();
    SameContentSameString(a.Plus(e), a);
    SameContentSameString(e.Plus(a), a);
  }

  /** The whole range of a string is the string itself. */
  lemma SubstrWhole(s: ConstexprString)
    requires s.Valid()
    ensures s.Substr(0, s.Size()) == s
  {
    assert s.Content()[0..s.Size()] == s.Content();
    SameContentSameString(s.Substr(0, s.Size()), s);
  }

  /** A slice of a slice is a slice of the original at the summed offsets. */
  lemma SubstrOfSubstr(s: ConstexprString, from1: int, to1: int, from2: int, to2: int)
    requires s.Valid() && 0 <= from1 <= to1 <= s.Size()
    requires 0 <= from2 <= to2 <= to1 - from1
    ensures s.Substr(from1, to1).Substr(from2, to2) == s.Substr(from1 + from2, from1 + to2)
  {
    var t := s.Substr(from1, to1);
    assert t.Content()[from2..to2] == s.Content()[from1 + from2..from1 + to2];
    SameContentSameString(t.Substr(from2, to2), s.Substr(from1 + from2, from1 + to2));
  }

  /** Since `to` is not clamped, `to == size() + 1` copies the terminator into the content. */
  lemma SubstrThroughTerminator(s: ConstexprString, from: int)
    requires s.Valid() && 0 <= from <= s.Size() + 1
    ensures s.Substr(from, s.Size() + 1).Content() == s.CStr()[from..]
    ensures from <= s.Size() ==> !NulFree(s.Substr(from, s.Size() + 1))
  {
    var t := s.Substr(from, s.Size() + 1);
    assert t.Content() == s.CStr()[from..];
    if from <= s.Size() {
      assert t.At(s.Size() - from) == NUL;
    }
  }

  /** `allOf` over a concatenation is `allOf` over both operands. */
  lemma AllOfPlus(a: ConstexprString, b: ConstexprString, p: char -> bool)
    requires a.Valid() && b.Valid()
    ensures a.Plus(b).AllOf(p) <==> a.AllOf(p) && b.AllOf(p)
  {
    var ab := a.Plus(b);
    PlusAt(a, b);
    assert forall i :: 0 <= i < b.Size() ==> ab.At(a.Size() + i) == b.At(i);
  }

  /** `allOf(p)` holds exactly when `p` holds of every character the content contains. */
  lemma AllOfIsMembership(s: ConstexprString, p: char -> bool)
    requires s.Valid()
    ensures s.AllOf(p) <==> forall c :: c in s.Content() ==> p(c)
  {
    if s.AllOf(p) {
      forall c | c in s.Content() ensures p(c) {
        var i :| 0 <= i < |s.Content()| && s.Content()[i] == c;
        assert s.At(i) == c;
      }
    }
  }

  // ---------------------------------------------------------------------------
  // Search

  /** An occurrence is a slice of the content equal to the needle. */
  lemma OccursAtIsSlice(s: ConstexprString, needle: seq<char>, k: int)
    requires s.Valid()
    ensures s.OccursAt(needle, k) <==>
      0 <= k && k + |needle| <= s.Size() && s.Content()[k..k + |needle|] == needle
  {
    if 0 <= k && k + |needle| <= s.Size() {
      var slice := s.Content()[k..k + |needle|];
      assert |slice| == |needle|;
      forall j | 0 <= j < |needle| ensures s.At(k + j) == slice[j] {
        assert slice[j] == s.Content()[k + j];
      }
    }
  }

  /** There is at most one first occurrence. */
  lemma FirstOccurrenceUnique(s: ConstexprString, needle: seq<char>, from: int, r1: int, r2: int)
    requires s.Valid()
    requires s.IsFirstOccurrence(needle, from, r1) && s.IsFirstOccurrence(needle, from, r2)
    ensures r1 == r2
  {
    assert r1 != NotFound ==> r1 <= s.Size();
    assert r2 != NotFound ==> r2 <= s.Size();
  }

  /** A character at `k` with none before it from `pos` on is what `find(c, pos)` returns. */
  lemma FindCharIsLeast(s: ConstexprString, c: char, pos: int, k: int)
    requires s.Valid() && 0 <= pos <= k < s.Size() && s.At(k) == c
    requires forall i :: pos <= i < k ==> s.At(i) != c
    ensures s.FindChar(c, pos) == k
  {
  }

  /** An occurrence at `k` with none before it from `pos` on is what `find(str, pos)` returns. */
  lemma FindIsLeast(s: ConstexprString, str: seq<char>, needle: seq<char>, pos: int, k: int)
    requires s.Valid() && 1 <= |str| && |str| - 1 <= s.Size() && 0 <= pos <= k
    requires needle == str[..|str| - 1] && s.OccursAt(needle, k)
    requires forall j :: pos <= j < k ==> !s.OccursAt(needle, j)
    ensures s.Find(str, pos) == k
  {
    assert s.IsFirstOccurrence(needle, pos, k);
    if |str| > 1 || pos <= s.Size() {
      FirstOccurrenceUnique(s, needle, pos, k, s.Find(str, pos));
    }
  }

  /** Searching for a character and for the one-character literal holding it agree. */
  lemma FindCharAgreesWithFind(s: ConstexprString, c: char, pos: int)
    requires s.Valid() && 1 <= s.Size() && 0 <= pos
    ensures s.FindChar(c, pos) == s.Find([c, NUL], pos)
  {
    var needle := [c, NUL][..1];
    assert needle == [c];
    forall k | pos <= k <= s.Size() ensures s.OccursAt(needle, k) <==> k < s.Size() && s.At(k) == c {
      OccursAtSingle(s, c, k);
    }
    var r := s.FindChar(c, pos);
    if r == NotFound {
      assert forall k :: pos <= k <= s.Size() ==> !s.OccursAt(needle, k);
    } else {
      assert s.OccursAt(needle, r);
      assert forall k :: pos <= k < r ==> !s.OccursAt(needle, k);
    }
    assert s.IsFirstOccurrence(needle, pos, r);
    FirstOccurrenceUnique(s, needle, pos, r, s.Find([c, NUL], pos));
  }

  /** A one-character needle occurs exactly where the content holds that character. */
  lemma OccursAtSingle(s: ConstexprString, c: char, k: int)
    requires s.Valid()
    ensures s.OccursAt([c], k) <==> 0 <= k < s.Size() && s.At(k) == c
  {
    assert [c][0] == c;
    if 0 <= k < s.Size() {
      assert s.At(k + 0) == s.At(k);
    }
  }

  /** Searching again from a found index finds that same index. */
  lemma FindCharStable(s: ConstexprString, c: char, pos: int)
    requires s.Valid() && 0 <= pos
    ensures var r := s.FindChar(c, pos); r != NotFound ==> s.FindChar(c, r) == r
  {
  }

  /** A found start is where the needle sits: slicing there gives back the needle. */
  lemma FindThenSubstr(s: ConstexprString, str: seq<char>, pos: int)
    requires s.Valid() && 1 <= |str| && |str| - 1 <= s.Size() && 0 <= pos
    ensures var r := s.Find(str, pos);
      r != NotFound && (|str| > 1 || pos <= s.Size()) ==>
        0 <= r <= r + |str| - 1 <= s.Size() && s.Substr(r, r + |str| - 1).Content() == str[..|str| - 1]
  {
    var r := s.Find(str, pos);
    var needle := str[..|str| - 1];
    if r != NotFound && (|str| > 1 || pos <= s.Size()) {
      assert s.OccursAt(needle, r);
      var t := s.Substr(r, r + |needle|);
      assert t.Content() == needle by {
        forall j | 0 <= j < |needle| ensures t.Content()[j] == needle[j] {
          assert t.At(j) == s.At(r + j);
        }
      }
    }
  }

  /** A needle longer than what is left after `pos` is never found. */
  lemma FindTooLong(s: ConstexprString, str: seq<char>, pos: int)
    requires s.Valid() && 1 <= |str| && |str| - 1 <= s.Size() && 0 <= pos
    requires 1 < |str| && s.Size() < pos + |str| - 1
    ensures s.Find(str, pos) == NotFound
  {
    var needle := str[..|str| - 1];
    assert forall k :: pos <= k <= s.Size() ==> !s.OccursAt(needle, k);
  }

  /** `find(c, pos)` finds nothing exactly when `c` is absent from the content from `pos` on. */
  lemma FindCharNotFoundIff(s: ConstexprString, c: char, pos: int)
    requires s.Valid() && 0 <= pos <= s.Size()
    ensures s.FindChar(c, pos) == NotFound <==> c !in s.Content()[pos..]
  {
    var tail := s.Content()[pos..];
    assert forall i :: pos <= i < s.Size() ==> s.At(i) == tail[i - pos];
    if c in tail {
      var j :| 0 <= j < |tail| && tail[j] == c;
      assert s.At(pos + j) == c;
    }
  }

  /** A needle with a character the content lacks is never found. */
  lemma FindMissingChar(s: ConstexprString, str: seq<char>, pos: int, j: int)
    requires s.Valid() && 1 <= |str| && |str| - 1 <= s.Size() && 0 <= pos
    requires 0 <= j < |str| - 1 && str[j] !in s.Content()
    ensures s.Find(str, pos) == NotFound
  {
    var needle := str[..|str| - 1];
    forall k | pos <= k <= s.Size() ensures !s.OccursAt(needle, k) {
      if k + |needle| <= s.Size() {
        assert s.Content()[k + j] == s.At(k + j);
        assert needle[j] == str[j];
      }
    }
  }

  /** Indexing a concatenation: the left operand, then the right one. */
  lemma PlusAt(a: ConstexprString, b: ConstexprString)
    requires a.Valid() && b.Valid()
    ensures a.Plus(b).Size() == a.Size() + b.Size()
    ensures forall i :: 0 <= i < a.Size() ==> a.Plus(b).At(i) == a.At(i)
    ensures forall i :: a.Size() <= i < a.Plus(b).Size() ==> a.Plus(b).At(i) == b.At(i - a.Size())
  {
    var ab := a.Plus(b);
    assert forall i :: 0 <= i < ab.Size() ==> ab.At(i) == (a.Content() + b.Content())[i];
  }

  /**
   * Searching a concatenation for a character finds it in the left operand
   * if it is there, and otherwise at its offset in the right operand.
   */
  lemma FindCharInPlus(a: ConstexprString, b: ConstexprString, c: char)
    requires a.Valid() && b.Valid()
    ensures a.Plus(b).FindChar(c, 0) ==
      if a.FindChar(c, 0) != NotFound then a.FindChar(c, 0)
      else if b.FindChar(c, 0) != NotFound then a.Size() + b.FindChar(c, 0)
      else NotFound
  {
    var ab := a.Plus(b);
    var ra, rb := a.FindChar(c, 0), b.FindChar(c, 0);
    PlusAt(a, b);
    if ra != NotFound {
      FindCharIsLeast(ab, c, 0, ra);
    } else if rb != NotFound {
      assert ab.At(a.Size() + rb) == c;
      FindCharIsLeast(ab, c, 0, a.Size() + rb);
    } else {
      assert forall i :: 0 <= i < ab.Size() ==> ab.At(i) != c;
    }
  }
}
