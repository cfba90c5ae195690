/** Worked patterns for the regex engine (utils/regex.ts). */
module RegexExamples {
  import opened TypeLevel
  import opened Numbers
  import opened Strings
  import opened Regex

  lemma OnePlusParse()
    ensures ParseRegex("a+") == [Literal('a'), Repeat(Nothing, 1, -1)]
  {
    PlusTexts();
    NextTokenSpecial('+', "");
    LiteralHead("a", "+");
    TwoTokens("a+", Literal('a'), "+", Repeat(Nothing, 1, -1));
  }

  lemma PlusTexts()
    ensures "+" == ['+'] + "" && "a" + "+" == "a+" && "a"[1..] + "+" == "+"
    ensures "a" != "" && "a"[0] == 'a' && !IsMeta('a') && "a+" != "" && "+" != ""
    ensures IsSpecial('+') && CheckSpecial('+') == Repeat(Nothing, 1, -1)
  {
  }

  /** A pattern read as exactly two tokens. */
  lemma TwoTokens(re: string, t: Token, rest: string, u: Token)
    requires re != "" && rest != ""
    requires NextToken(re) == (t, rest) && NextToken(rest) == (u, "")
    ensures ParseRegex(re) == [t, u]
  {
    ParseCons(rest, u, "", []);
    assert [u] + [] == [u];
    ParseCons(re, t, rest, [u]);
    assert [t] + [u] == [t, u];
  }

  lemma OnePlusCompiles()
    ensures Compile("a+") == Val([Repeat(Literal('a'), 1, -1)])
  {
    OnePlusParse();
    CollapsePair(Literal('a'), Repeat(Nothing, 1, -1));
  }

  /** `a+` accepts a run of a's exactly when it is not empty. */
  lemma OnePlusRun(w: string)
    requires forall i :: 0 <= i < |w| ==> w[i] == 'a'
    ensures IsMatch("a+", w) == Val(if |w| >= 1 then Matched else RangeUnmet)
  {
    OnePlusCompiles();
    var t := Repeat(Literal('a'), 1, -1);
    IsMatchCompiled("a+", [t], w);
    RepeatWhole(w, t);
  }

  lemma OnePlus()
    ensures IsMatch("a+", "aaa") == Val(Matched)
    ensures IsMatch("a+", "") == Val(RangeUnmet)
    ensures ValidateRegEx("a+", "") == DoesNotMatch
  {
    OnePlusTexts();
    OnePlusSome("aaa");
    OnePlusNone("a+", "");
  }

  lemma OnePlusTexts()
    ensures |"aaa"| >= 1 && forall i :: 0 <= i < |"aaa"| ==> "aaa"[i] == 'a'
  {
  }

  /** A run of one or more a's matches `a+`. */
  lemma OnePlusSome(w: string)
    requires |w| >= 1 && forall i :: 0 <= i < |w| ==> w[i] == 'a'
    ensures IsMatch("a+", w) == Val(Matched)
  {
    OnePlusRun(w);
  }

  /** The empty candidate falls short of `a+`, and validation rejects it. */
  lemma OnePlusNone(re: string, w: string)
    requires re == "a+" && w == ""
    ensures IsMatch(re, w) == Val(RangeUnmet)
    ensures ValidateRegEx(re, w) == DoesNotMatch
  {
    OnePlusRun(w);
  }

  /** `u?` is optional: both spellings match. */
  lemma Colour()
    ensures IsMatch("colou?r", "color") == Val(Matched)
    ensures IsMatch("colou?r", "colour") == Val(Matched)
  {
    ColourTexts();
    OptionalChar("colo", 'u', "r");
  }

  /** `colou?r` and its two spellings, cut around the optional `u`. */
  lemma ColourTexts()
    ensures "colo" + ['u', '?'] + "r" == "colou?r"
    ensures "colo" + "r" == "color" && "colo" + ['u'] + "r" == "colour"
    ensures forall i :: 0 <= i < |"colo"| ==> !IsMeta("colo"[i])
    ensures forall i :: 0 <= i < |"r"| ==> !IsMeta("r"[i])
    ensures !IsMeta('u') && "r" != "" && "r"[0] != 'u'
  {
  }

  lemma DigitClassToken()
    ensures NextToken("[0-9]{2,3}") == (Range(DigitClass()), "{2,3}")
  {
    DigitClassTexts();
    NextTokenClass("0-9", "{2,3}");
  }

  lemma DigitClassTexts()
    ensures "[" + "0-9" + "]" + "{2,3}" == "[0-9]{2,3}" && ']' !in "0-9"
  {
  }

  lemma TwoToThreeToken()
    ensures NextToken("{2,3}") == (Repeat(Nothing, 2, 3), "")
  {
    RepeatSpecText();
    RepeatToken(2, 3, "");
  }

  lemma RepeatSpecText()
    ensures "{" + (ToDecimal(2) + "," + ToDecimal(3)) + "}" + "" == "{2,3}"
  {
    assert ToDecimal(2) == "2" && ToDecimal(3) == "3";
  }

  lemma DigitsParse()
    ensures ParseRegex("[0-9]{2,3}") == [Range(DigitClass()), Repeat(Nothing, 2, 3)]
  {
    DigitClassToken();
    TwoToThreeToken();
    DigitsTexts();
    TwoTokens("[0-9]{2,3}", Range(DigitClass()), "{2,3}", Repeat(Nothing, 2, 3));
  }

  lemma DigitsTexts()
    ensures "[0-9]{2,3}" != "" && "{2,3}" != ""
  {
  }

  lemma DigitsCompile()
    ensures Compile("[0-9]{2,3}") == Val([Repeat(Range(DigitClass()), 2, 3)])
  {
    DigitsParse();
    CollapsePair(Range(DigitClass()), Repeat(Nothing, 2, 3));
  }

  /**
   * `[0-9]{2,3}` on a string of digits: the repeat takes them all, and
   * only then is the count checked against 2..3.
   */
  lemma DigitsRun(w: string)
    requires forall i :: 0 <= i < |w| ==> '0' <= w[i] <= '9'
    ensures IsMatch("[0-9]{2,3}", w) == Val(if 2 <= |w| <= 3 then Matched else RangeUnmet)
  {
    DigitsCompile();
    var t := Repeat(Range(DigitClass()), 2, 3);
    IsMatchCompiled("[0-9]{2,3}", [t], w);
    forall i | 0 <= i < |w| ensures ExtendsTrue(CheckMatch(w[i], t.inner)) {
      DigitClassMembers(w[i]);
    }
    RepeatWhole(w, t);
  }

  /** Two or three digits match; one digit and four digits do not. */
  lemma TwoOrThreeDigits()
    ensures IsMatch("[0-9]{2,3}", "42") == Val(Matched)
    ensures IsMatch("[0-9]{2,3}", "123") == Val(Matched)
    ensures IsMatch("[0-9]{2,3}", "4") == Val(RangeUnmet)
    ensures IsMatch("[0-9]{2,3}", "1234") == Val(RangeUnmet)
  {
    TwoDigits();
    ThreeDigits();
    OneDigit();
    FourDigits();
  }

  lemma TwoDigits()
    ensures IsMatch("[0-9]{2,3}", "42") == Val(Matched)
  {
    DigitTexts();
    DigitsInRange("42");
  }

  lemma ThreeDigits()
    ensures IsMatch("[0-9]{2,3}", "123") == Val(Matched)
  {
    DigitTexts();
    DigitsInRange("123");
  }

  lemma OneDigit()
    ensures IsMatch("[0-9]{2,3}", "4") == Val(RangeUnmet)
  {
    DigitTexts();
    DigitsOutOfRange("4");
  }

  lemma FourDigits()
    ensures IsMatch("[0-9]{2,3}", "1234") == Val(RangeUnmet)
  {
    DigitTexts();
    DigitsOutOfRange("1234");
  }

  /** The candidates above, as strings of digits of known length. */
  lemma DigitTexts()
    ensures |"42"| == 2 && forall i :: 0 <= i < |"42"| ==> '0' <= "42"[i] <= '9'
    ensures |"123"| == 3 && forall i :: 0 <= i < |"123"| ==> '0' <= "123"[i] <= '9'
    ensures |"4"| == 1 && forall i :: 0 <= i < |"4"| ==> '0' <= "4"[i] <= '9'
    ensures |"1234"| == 4 && forall i :: 0 <= i < |"1234"| ==> '0' <= "1234"[i] <= '9'
  {
  }

  /** Two or three digits match `[0-9]{2,3}`. */
  lemma DigitsInRange(w: string)
    requires 2 <= |w| <= 3 && forall i :: 0 <= i < |w| ==> '0' <= w[i] <= '9'
    ensures IsMatch("[0-9]{2,3}", w) == Val(Matched)
  {
    DigitsRun(w);
  }

  /** Fewer than two or more than three digits leave the count of `[0-9]{2,3}` unmet. */
  lemma DigitsOutOfRange(w: string)
    requires !(2 <= |w| <= 3) && forall i :: 0 <= i < |w| ==> '0' <= w[i] <= '9'
    ensures IsMatch("[0-9]{2,3}", w) == Val(RangeUnmet)
  {
    DigitsRun(w);
  }

  /** Skipped tokens: `abc` accepts "c", and `ab` accepts "a". */
  lemma SkippingQuirks()
    ensures IsMatch("abc", "c") == Val(Matched)
    ensures IsMatch("ab", "a") == Val(Matched)
    ensures IsMatch("a", "ab") == Val(Unmatched)
  {
    SkipToLast();
    PrefixOfPattern();
    CandidateTooLong();
  }

  lemma QuirkTexts()
    ensures forall i :: 0 <= i < |"abc"| ==> !IsMeta("abc"[i])
    ensures forall i :: 0 <= i < |"ab"| ==> !IsMeta("ab"[i])
    ensures forall i :: 0 <= i < |"a"| ==> !IsMeta("a"[i])
    ensures "c" == ['c'] && 'c' in "abc"
    ensures "a" != "" && |"a"| <= |"ab"| && "a" == "ab"[..|"a"|]
    ensures "ab" == ['a'] + "b" && "b" != "" && Literals("a") == [Literal('a')]
  {
  }

  /** The last pattern character alone is accepted: the tokens before it are skipped. */
  lemma SkipToLast()
    ensures IsMatch("abc", "c") == Val(Matched)
  {
    QuirkTexts();
    PlainCompiles("abc");
    IsMatchCompiled("abc", Literals("abc"), ['c']);
    AnyCharOfPattern('c', "abc");
  }

  /** A prefix of the pattern is accepted: the run ends with the candidate. */
  lemma PrefixOfPattern()
    ensures IsMatch("ab", "a") == Val(Matched)
  {
    QuirkTexts();
    PlainCompiles("ab");
    IsMatchCompiled("ab", Literals("ab"), "a");
    PrefixAccepted("a", "ab");
  }

  /** A candidate longer than the pattern is left over. */
  lemma CandidateTooLong()
    ensures IsMatch("a", "ab") == Val(Unmatched)
  {
    QuirkTexts();
    PlainCompiles("a");
    IsMatchCompiled("a", [Literal('a')], ['a'] + "b");
    LiteralThenMore('a', "b");
  }

  /** A literal that takes the first character leaves the rest unmatched. */
  lemma LiteralThenMore(c: char, rest: string)
    requires rest != ""
    ensures Run([c] + rest, [Literal(c)], 0) == Val(Unmatched)
  {
    assert ([c] + rest)[0] == c && ([c] + rest)[1..] == rest;
    assert [Literal(c)][0] == Literal(c) && [Literal(c)][1..] == [];
  }

  /** `{x}` is not a repeat spec, so the tokenizer reads it as a `never` token. */
  lemma BadSpecToken(rest: string)
    ensures NextToken("{x}" + rest) == (Nothing, rest)
  {
    BadSpecText(rest);
    NextTokenRepeat("x", rest);
    BadSpecRepeating();
  }

  lemma BadSpecText(rest: string)
    ensures "{" + "x" + "}" + rest == "{x}" + rest && '}' !in "x"
  {
  }

  /** `x` is neither `min,max`, nor `min,`, nor a number. */
  lemma BadSpecRepeating()
    ensures ParseRepeating("x") == Nothing
  {
    NoChar("x", ',');
    assert ParseNumber("x") == None;
  }

  lemma BadSpecParse()
    ensures ParseRegex("{x}") == [Nothing]
  {
    BadSpecToken("");
    assert "{x}" + "" == "{x}";
    ParseCons("{x}", Nothing, "", []);
  }

  /** On its own, the `never` token counts as no tokens at all: only "" matches. */
  lemma BadSpecAlone()
    ensures Compile("{x}") == Val([Nothing])
    ensures IsMatch("{x}", "") == Val(Matched)
    ensures IsMatch("{x}", "anything") == Val(Unmatched)
    ensures ValidateRegEx("{x}", "anything") == DoesNotMatch
  {
    BadSpecParse();
  }

  lemma BadSpecFirstCompiles()
    ensures Compile("{x}b") == Val([Nothing, Literal('b')])
  {
    BadSpecToken("b");
    BadSpecFirstTexts();
    NeverThenPlain("{x}", 'b');
  }

  lemma BadSpecFirstTexts()
    ensures "b" == ['b'] && "{x}" + ['b'] == "{x}b" && !IsMeta('b')
  {
  }

  /** A `never` token read from `bad`, then one plain character. */
  lemma NeverThenPlain(bad: string, u: char)
    requires !IsMeta(u) && NextToken(bad + [u]) == (Nothing, [u])
    ensures Compile(bad + [u]) == Val([Nothing, Literal(u)])
  {
    assert NextToken([u]) == (Literal(u), []);
    ParseCons([u], Literal(u), [], []);
    assert [Literal(u)] + [] == [Literal(u)];
    ParseCons(bad + [u], Nothing, [u], [Literal(u)]);
    assert [Nothing] + [Literal(u)] == [Nothing, Literal(u)];
    CollapseLeadingNever(Literal(u));
  }

  /** A `never` token followed by one plain token is left as it is. */
  lemma CollapseLeadingNever(t: Token)
    requires t != Nothing && !t.Repeat?
    ensures Collapse([Nothing, t]) == Val([Nothing, t])
  {
    var ts := [Nothing, t];
    assert ts[2..] == [] && ts[..2] == ts;
  }

  /** What `{x}b` does with a candidate. */
  lemma BadSpecFirstRun(w: string)
    ensures IsMatch("{x}b", w) == Run(w, [Nothing, Literal('b')], 0)
  {
    BadSpecFirstCompiles();
    IsMatchCompiled("{x}b", [Nothing, Literal('b')], w);
  }

  /** A leading `never` token takes the first character, whatever it is. */
  lemma LeadingNeverTakes(c: char, rest: string, t: Token)
    requires rest != ""
    ensures Run([c] + rest, [Nothing, t], 0) == Run(rest, [t], 0)
  {
    NeverTakesAnyChar(c, rest, [t], 0);
    assert [Nothing] + [t] == [Nothing, t];
  }

  /** With no candidate left, a leading `never` token makes the run `never`. */
  lemma LeadingNeverEmpty(t: Token)
    requires t != Nothing
    ensures Run("", [Nothing, t], 0) == Never
  {
    NotBlankAfter([Nothing], [t]);
    assert [Nothing] + [t] == [Nothing, t];
  }

  /** One character against one literal: a match, or the candidate left over. */
  lemma OneLiteral(c: char, d: char)
    ensures Run([c], [Literal(d)], 0) == Val(if c == d then Matched else Unmatched)
  {
    assert [c][1..] == [] && [Literal(d)][0] == Literal(d);
    if c != d {
      assert [Literal(d)][1..] == [];
    }
  }

  lemma CandidateTexts()
    ensures "zb" == ['z'] + "b" && "zz" == ['z'] + "z" && "b" != "" && "z" != ""
    ensures "b" == ['b'] && "z" == ['z'] && 'z' != 'b'
  {
  }

  lemma BadSpecFirstTakes()
    ensures IsMatch("{x}b", "zb") == Val(Matched)
  {
    BadSpecFirstRun("zb");
    CandidateTexts();
    LeadingNeverTakes('z', "b", Literal('b'));
    OneLiteral('b', 'b');
  }

  lemma BadSpecFirstRejects()
    ensures IsMatch("{x}b", "zz") == Val(Unmatched)
  {
    BadSpecFirstRun("zz");
    CandidateTexts();
    LeadingNeverTakes('z', "z", Literal('b'));
    OneLiteral('z', 'b');
  }

  lemma BadSpecFirstEmpty()
    ensures IsMatch("{x}b", "") == Never
  {
    BadSpecFirstRun("");
    LeadingNeverEmpty(Literal('b'));
  }

  /**
   * In front of other tokens, the `never` token takes any one character;
   * with the candidate used up it makes the outcome `never`, which
   * validation lets through.
   */
  lemma BadSpecFirst()
    ensures IsMatch("{x}b", "zb") == Val(Matched)
    ensures IsMatch("{x}b", "zz") == Val(Unmatched)
    ensures IsMatch("{x}b", "") == Never
    ensures ValidateRegEx("{x}b", "") == Accepted("")
  {
    BadSpecFirstTakes();
    BadSpecFirstRejects();
    BadSpecFirstEmpty();
  }

  lemma BadSpecLastCompiles()
    ensures Compile("ab{x}") == Val(Literals("ab"))
  {
    BadSpecParse();
    AbTexts();
    TwoThenNever('a', 'b', "{x}");
  }

  lemma AbTexts()
    ensures "ab{x}" == ['a', 'b'] + "{x}" && "{x}" != ""
    ensures !IsMeta('a') && !IsMeta('b') && Literals("ab") == [Literal('a'), Literal('b')]
  {
  }

  /** Two plain characters and then a pattern read as a single `never` token: the `never` is dropped. */
  lemma TwoThenNever(u: char, v: char, bad: string)
    requires !IsMeta(u) && !IsMeta(v) && bad != "" && ParseRegex(bad) == [Nothing]
    ensures Compile([u, v] + bad) == Val([Literal(u), Literal(v)])
  {
    ParsePlainPrefix([u, v], bad);
    assert Literals([u, v]) + [Nothing] == [Literal(u), Literal(v), Nothing];
    CollapseTrailingNever(Literal(u), Literal(v));
  }

  /** Two plain tokens and a trailing `never`: the `never` is dropped. */
  lemma CollapseTrailingNever(t: Token, u: Token)
    requires u != Nothing && !u.Repeat?
    ensures Collapse([t, u, Nothing]) == Val([t, u])
  {
    var ts := [t, u, Nothing];
    assert ts[2..] == [Nothing] && ts[..2] == [t, u];
  }

  /** At the end of a pattern the `never` token is dropped by the merge pass: `ab{x}` is `ab`. */
  lemma BadSpecLast(w: string)
    ensures IsMatch("ab{x}", w) == IsMatch("ab", w)
  {
    BadSpecLastCompiles();
    PlainAbCompiles();
    SameTokens("ab{x}", "ab", Literals("ab"), w);
  }

  lemma PlainAbCompiles()
    ensures Compile("ab") == Val(Literals("ab"))
  {
    PlainCompiles("ab");
  }

  /** Two patterns that merge to the same tokens give the same outcome. */
  lemma SameTokens(re1: string, re2: string, ts: seq<Token>, w: string)
    requires Compile(re1) == Val(ts) && Compile(re2) == Val(ts)
    ensures IsMatch(re1, w) == IsMatch(re2, w)
  {
    IsMatchCompiled(re1, ts, w);
    IsMatchCompiled(re2, ts, w);
  }

  lemma PlainCompiles(s: string)
    requires forall i :: 0 <= i < |s| ==> !IsMeta(s[i])
    ensures Compile(s) == Val(Literals(s))
  {
    ParsePlain(s);
    CollapseNoRepeats(Literals(s));
  }

  /**
   * Where a quantifier would go, the `never` token makes the merged
   * pattern `never`, and validation accepts every candidate.
   */
  lemma BadSpecAfterToken(w: string)
    ensures Compile("a{x}") == Never
    ensures IsMatch("a{x}", w) == Never
    ensures ValidateRegEx("a{x}", w) == Accepted(w)
  {
    BadSpecParse();
    AfterTokenTexts();
    ParsePlainPrefix("a", "{x}");
    CollapseNeverSecond(Literal('a'));
    NeverAccepts("a{x}", w);
  }

  lemma AfterTokenTexts()
    ensures forall i :: 0 <= i < |"a"| ==> !IsMeta("a"[i])
    ensures "{x}" != "" && "a" + "{x}" == "a{x}" && Literals("a") + [Nothing] == [Literal('a'), Nothing]
  {
  }

  /** A `never` token in second place, where a quantifier would go, makes the merge `never`. */
  lemma CollapseNeverSecond(t: Token)
    ensures Collapse([t, Nothing]) == Never
  {
  }

  /** A pattern that merges to `never` makes every outcome `never`, which validation accepts. */
  lemma NeverAccepts(re: string, w: string)
    requires Compile(re) == Never
    ensures IsMatch(re, w) == Never && ValidateRegEx(re, w) == Accepted(w)
  {
  }
}
