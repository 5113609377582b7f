/**
 * The compile-time checks of the repository's test program, stated as
 * lemmas about the model. A literal is written with its terminator, as the
 * character array the compiler passes to `String` and `find`.
 */
module TestScenarios {
  import opened ConstexprStrings
  import opened StringProperties

  /** The character array the compiler makes of the string literal `"text"`. */
  function Lit(text: string): seq<char> {
    text + [NUL]
  }

  /** A literal's string holds the literal's text. */
  lemma LitContent(text: string)
    ensures String(Lit(text)).Size() == |text|
    ensures String(Lit(text)).Content() == text
  {
    assert Lit(text)[..|text|] == text;
  }

  /** The test's `IsLowerCase`: a space or a lower-case ASCII letter. */
  predicate IsLowerCase(c: char) {
    c == ' ' || ('a' <= c <= 'z')
  }

  /** The test's `IsHexChar`: an ASCII digit or a letter from `a` to `f` in either case. */
  predicate IsHexChar(c: char) {
    ('0' <= c <= '9') || ('a' <= c <= 'f') || ('A' <= c <= 'F')
  }

  /** `s` holds the text of the test's `sentence`. */
  predicate IsSentence(s: ConstexprString) {
    s.Valid() && s.Content() == "I think this is a test string."
  }

  /** `prefix + str + postfix`, the test's `sentence`. */
  function Sentence(): (s: ConstexprString)
    ensures s.Valid()
  {
    String(Lit("I think ")).Plus(String(Lit("this is a test"))).Plus(String(Lit(" string.")))
  }

  /** The sentence spells out the joined text of its three parts. */
  lemma SentenceText()
    ensures IsSentence(Sentence())
  {
    var prefix, str, postfix := String(Lit("I think ")), String(Lit("this is a test")), String(Lit(" string."));
    LitContent("I think ");
    LitContent("this is a test");
    LitContent(" string.");
    JoinedSentence();
  }

  /** The three parts of the sentence spell out its text. */
  lemma JoinedSentence()
    ensures "I think " + "this is a test" + " string." == "I think this is a test string."
  {
    assert "I think " + "this is a test" == "I think this is a test";
  }

  /** `hexStr` has even size and holds hex characters only. */
  lemma HexStrChecks()
    ensures String(Lit("8dd42e58184249a1974295b4bb97de9a")).Size() % 2 == 0
    ensures String(Lit("8dd42e58184249a1974295b4bb97de9a")).AllOf(IsHexChar)
  {
    var hex := String(Lit("8dd42e58184249a1974295b4bb97de9a"));
    assert hex.Content() == "8dd42e58184249a1974295b4bb97de9a";
    forall i | 0 <= i < 32 ensures IsHexChar(hex.At(i)) {
      assert hex.At(i) == hex.Content()[i];
      // Splitting the range in four keeps each case small enough for the prover.
      if i < 8 {
      } else if i < 16 {
      } else if i < 24 {
      } else {
      }
    }
  }

  /** `str` has size 14 and is lower case throughout. */
  lemma LowerStrChecks()
    ensures String(Lit("this is a test")).Size() == 14
    ensures String(Lit("this is a test")).AllOf(IsLowerCase)
  {
    var str := String(Lit("this is a test"));
    assert forall i :: 0 <= i < 14 ==> IsLowerCase(str.Content()[i]);
  }

  /** Chained concatenation compares equal to the literal of the joined text. */
  lemma ChainedConcatEquals()
    ensures String(Lit("ABC")).Plus(String(Lit("def"))).Plus(String(Lit("Ghi"))).Equals(String(Lit("ABCdefGhi")))
  {
    var abc := String(Lit("ABC")).Plus(String(Lit("def"))).Plus(String(Lit("Ghi")));
    assert abc.Content() == "ABCdefGhi";
    SameContentSameString(abc, String(Lit("ABCdefGhi")));
    EqualsIsEquivalence(abc, abc, abc);
  }

  /** The sentence's size is the sum of its parts, it equals its literal, and it is terminated. */
  lemma SentenceChecks()
    ensures Sentence().Size() == String(Lit("I think ")).Size() + String(Lit("this is a test")).Size() + String(Lit(" string.")).Size()
    ensures Sentence().Equals(String(Lit("I think this is a test string.")))
    ensures Sentence().At(Sentence().Size()) == NUL
  {
    var lit := String(Lit("I think this is a test string."));
    SentenceText();
    SameContentSameString(Sentence(), lit);
    EqualsIsEquivalence(lit, lit, lit);
  }

  /** `substr<0, 1>()` of the sentence. */
  lemma SentenceSubstrHead(s: ConstexprString)
    requires IsSentence(s)
    ensures s.Substr(0, 1) == String(Lit("I"))
  {
    var a := String(Lit("I"));
    assert s.Content()[0..1] == a.Content();
    SameContentSameString(s.Substr(0, 1), a);
  }

  /** `substr<8, 22>()` of the sentence: the middle operand of the concatenation. */
  lemma SentenceSubstrMiddle()
    ensures Sentence().Substr(8, 22) == String(Lit("this is a test"))
  {
    LitContent("I think ");
    LitContent("this is a test");
    ConcatSubstrMiddle(String(Lit("I think ")), String(Lit("this is a test")), String(Lit(" string.")));
  }

  /** `substr<23>()` of the sentence, `to` defaulting to the size. */
  lemma SentenceSubstrTail(s: ConstexprString)
    requires IsSentence(s)
    ensures s.Substr(23, s.Size()) == String(Lit("string."))
  {
    var c := String(Lit("string."));
    assert s.Content()[23..30] == c.Content();
    SameContentSameString(s.Substr(23, 30), c);
  }

  /** `find('I')` on the sentence. */
  lemma SentenceFindI(s: ConstexprString)
    requires IsSentence(s)
    ensures s.FindChar('I', 0) == 0
  {
    assert s.At(0) == s.Content()[0] == 'I';
    FindCharIsLeast(s, 'I', 0, 0);
  }

  /** `find('t')` on the sentence. */
  lemma SentenceFindT(s: ConstexprString)
    requires IsSentence(s)
    ensures s.FindChar('t', 0) == 2
  {
    assert s.At(2) == s.Content()[2] == 't';
    assert forall i :: 0 <= i < 2 ==> s.Content()[i] != 't';
    FindCharIsLeast(s, 't', 0, 2);
  }

  /** `find('.')` on the sentence: its last character. */
  lemma SentenceFindDot(s: ConstexprString)
    requires IsSentence(s)
    ensures s.FindChar('.', 0) == s.Size() - 1
  {
    assert s.At(29) == s.Content()[29] == '.';
    assert forall i :: 0 <= i < 29 ==> s.Content()[i] != '.';
    FindCharIsLeast(s, '.', 0, 29);
  }

  /** `find('!')` finds nothing in the sentence. */
  lemma SentenceFindCharMissing(s: ConstexprString)
    requires IsSentence(s)
    ensures s.FindChar('!', 0) == NotFound
  {
    assert forall i :: 0 <= i < 30 ==> s.Content()[i] != '!';
  }

  /** `find('k', 6)` on the sentence. */
  lemma SentenceFindK6(s: ConstexprString)
    requires IsSentence(s)
    ensures s.FindChar('k', 6) == 6
  {
    assert s.At(6) == s.Content()[6] == 'k';
    FindCharIsLeast(s, 'k', 6, 6);
  }

  /** `find('k', 7)` on the sentence: past the only `k`. */
  lemma SentenceFindK7(s: ConstexprString)
    requires IsSentence(s)
    ensures s.FindChar('k', 7) == NotFound
  {
    assert forall i :: 7 <= i < 30 ==> s.Content()[i] != 'k';
  }

  /** `find('t', 10)` on the sentence. */
  lemma SentenceFindT10(s: ConstexprString)
    requires IsSentence(s)
    ensures s.FindChar('t', 10) == 18
  {
    assert s.At(18) == s.Content()[18] == 't';
    assert forall i :: 10 <= i < 18 ==> s.Content()[i] != 't';
    FindCharIsLeast(s, 't', 10, 18);
  }

  /** The sentence does not hold `think` at offsets 0 and 1. */
  lemma SentenceNoThinkBefore2(s: ConstexprString)
    requires IsSentence(s)
    ensures forall j :: 0 <= j < 2 ==> !s.OccursAt(Lit("think")[..5], j)
  {
    assert Lit("think")[..5][0] == 't';
    assert s.At(0) == s.Content()[0] == 'I' && s.At(1) == s.Content()[1] == ' ';
  }

  /** The sentence holds `think` at offset 2. */
  lemma SentenceThinkAt2(s: ConstexprString)
    requires IsSentence(s)
    ensures s.OccursAt(Lit("think")[..5], 2)
  {
    assert Lit("think")[..5] == "think";
    assert s.At(2) == s.Content()[2] == 't' && s.At(3) == s.Content()[3] == 'h';
    assert s.At(4) == s.Content()[4] == 'i' && s.At(5) == s.Content()[5] == 'n';
    assert s.At(6) == s.Content()[6] == 'k';
  }

  /** `find("think")` on the sentence. */
  lemma SentenceFindThink(s: ConstexprString)
    requires IsSentence(s)
    ensures s.Find(Lit("think"), 0) == 2
  {
    SentenceNoThinkBefore2(s);
    SentenceThinkAt2(s);
    assert |Lit("think")| == 6 && s.Size() == 30;
    FindIsLeast(s, Lit("think"), Lit("think")[..5], 0, 2);
  }

  /** `find("is", 5)` on the sentence. */
  lemma SentenceFindIs(s: ConstexprString)
    requires IsSentence(s)
    ensures s.Find(Lit("is"), 5) == 10
  {
    var isNeedle := Lit("is")[..2];
    assert isNeedle == "is";
    assert forall k :: 5 <= k < 10 ==> s.Content()[k] != 'i';
    forall k | 5 <= k < 10 ensures !s.OccursAt(isNeedle, k) {
      assert s.At(k + 0) == s.Content()[k] && isNeedle[0] == 'i';
    }
    assert s.At(10) == s.Content()[10] == 'i' && s.At(11) == s.Content()[11] == 's';
    assert s.OccursAt(isNeedle, 10);
    FindIsLeast(s, Lit("is"), isNeedle, 5, 10);
  }

  /** `find("abc")` finds nothing in the sentence: it holds no `c`. */
  lemma SentenceFindAbc(s: ConstexprString)
    requires IsSentence(s)
    ensures s.Find(Lit("abc"), 0) == NotFound
  {
    assert forall i :: 0 <= i < 30 ==> s.Content()[i] != 'c';
    FindMissingChar(s, Lit("abc"), 0, 2);
  }

  /** Where the sentence holds a `t` from offset 3 on, and what follows each. */
  lemma SentenceTsFrom3(s: ConstexprString)
    requires IsSentence(s)
    ensures forall i :: 3 <= i < 30 && s.At(i) == 't' ==> i == 8 || i == 18 || i == 21 || i == 24
    ensures s.At(11) == 's' && s.At(19) == 'e' && s.At(22) == ' ' && s.At(25) == 'r'
  {
    assert forall i :: 3 <= i < 30 && s.Content()[i] == 't' ==> i == 8 || i == 18 || i == 21 || i == 24;
    assert s.Content()[11] == 's' && s.Content()[19] == 'e' && s.Content()[22] == ' ' && s.Content()[25] == 'r';
  }

  /** `find("think", 3)` finds nothing: only the `t` of `this` is followed by `h`, and it breaks off at `s`. */
  lemma SentenceFindThinkFrom3(s: ConstexprString)
    requires IsSentence(s)
    ensures s.Find(Lit("think"), 3) == NotFound
  {
    var needle := Lit("think")[..5];
    assert needle == "think";
    assert needle[0] == 't' && needle[1] == 'h' && needle[3] == 'n';
    SentenceTsFrom3(s);
    forall k | 3 <= k <= s.Size() ensures !s.OccursAt(needle, k) {
      if k == 8 {
        assert s.At(k + 3) == 's';
      } else if k == 18 || k == 21 || k == 24 {
        assert s.At(k + 1) != 'h';
      } else if k + 5 <= 30 {
        assert s.At(k + 0) != 't';
      }
    }
  }

  /** `find("is", 11)` on the sentence: the `is` after `this`. */
  lemma SentenceFindIsFrom11(s: ConstexprString)
    requires IsSentence(s)
    ensures s.Find(Lit("is"), 11) == 13
  {
    var isNeedle := Lit("is")[..2];
    assert isNeedle == "is";
    assert s.At(11) == s.Content()[11] == 's' && s.At(12) == s.Content()[12] == ' ';
    forall k | 11 <= k < 13 ensures !s.OccursAt(isNeedle, k) {
      assert s.At(k + 0) == s.At(k) && isNeedle[0] == 'i';
    }
    assert s.At(13) == s.Content()[13] == 'i' && s.At(14) == s.Content()[14] == 's';
    assert s.OccursAt(isNeedle, 13);
    FindIsLeast(s, Lit("is"), isNeedle, 11, 13);
  }

  /** `find("I think")` on the sentence: a match at the very start. */
  lemma SentenceFindIThink(s: ConstexprString)
    requires IsSentence(s)
    ensures s.Find(Lit("I think"), 0) == 0
  {
    var needle := Lit("I think")[..7];
    assert needle == "I think";
    assert s.Content()[0..7] == needle;
    OccursAtIsSlice(s, needle, 0);
    FindIsLeast(s, Lit("I think"), needle, 0, 0);
  }

  /** `t` holds the text of the test's `str`. */
  predicate IsStr(t: ConstexprString) {
    t.Valid() && t.Content() == "this is a test"
  }

  /** `find(" is a test")` on `str`: the first space is at 4. */
  lemma StrFindSpaceIsATest(t: ConstexprString)
    requires IsStr(t)
    ensures t.Find(Lit(" is a test"), 0) == 4
  {
    var needle := Lit(" is a test")[..10];
    assert needle == " is a test";
    assert t.Content()[4..14] == needle;
    OccursAtIsSlice(t, needle, 4);
    forall k | 0 <= k < 4 ensures !t.OccursAt(needle, k) {
      assert t.At(k + 0) == t.Content()[k] && needle[0] == ' ';
    }
    FindIsLeast(t, Lit(" is a test"), needle, 0, 4);
  }

  /** `find("is a test")` on `str`: the `is` inside `this` breaks off at its fourth character. */
  lemma StrFindIsATest(t: ConstexprString)
    requires IsStr(t)
    ensures t.Find(Lit("is a test"), 0) == 5
  {
    var needle := Lit("is a test")[..9];
    assert needle == "is a test";
    assert t.Content()[5..14] == needle;
    OccursAtIsSlice(t, needle, 5);
    forall k | 0 <= k < 5 ensures !t.OccursAt(needle, k) {
      if k == 2 {
        assert t.At(k + 3) == t.Content()[5] && needle[3] == 'a';
      } else {
        assert t.At(k + 0) == t.Content()[k] && needle[0] == 'i';
      }
    }
    FindIsLeast(t, Lit("is a test"), needle, 0, 5);
  }

  /** `find("s a test")` on `str`: the `s` of `this` breaks off at its third character. */
  lemma StrFindSATest(t: ConstexprString)
    requires IsStr(t)
    ensures t.Find(Lit("s a test"), 0) == 6
  {
    var needle := Lit("s a test")[..8];
    assert needle == "s a test";
    assert t.Content()[6..14] == needle;
    OccursAtIsSlice(t, needle, 6);
    forall k | 0 <= k < 6 ensures !t.OccursAt(needle, k) {
      if k == 3 {
        assert t.At(k + 2) == t.Content()[5] && needle[2] == 'a';
      } else {
        assert t.At(k + 0) == t.Content()[k] && needle[0] == 's';
      }
    }
    FindIsLeast(t, Lit("s a test"), needle, 0, 6);
  }

  /** The searches on `substr<8, 22>()` of the sentence. */
  lemma SentenceSubstrFinds()
    ensures Sentence().Substr(8, 22).Find(Lit(" is a test"), 0) == 4
    ensures Sentence().Substr(8, 22).Find(Lit("is a test"), 0) == 5
    ensures Sentence().Substr(8, 22).Find(Lit("s a test"), 0) == 6
  {
    SentenceSubstrMiddle();
    var t := String(Lit("this is a test"));
    assert IsStr(t);
    StrFindSpaceIsATest(t);
    StrFindIsATest(t);
    StrFindSATest(t);
  }
}
