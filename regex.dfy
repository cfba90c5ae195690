/**
 * The restricted regular-expression engine (utils/regex.ts): a tokenizer
 * that reads one token at a time, a pass that attaches each quantifier to
 * the token before it, and a single-pass matcher that never backtracks.
 * The source's `GTE`, `LTE` and `Increment` are ordinary integer
 * comparisons and n + 1 here.
 */
module Regex {
  import opened TypeLevel
  import opened Numbers
  import opened Strings

  // ---------------------------------------------------------------------
  // The 98-character table behind character ranges
  // ---------------------------------------------------------------------

  /**
   * `IdxToChar`: tab, newline and carriage return at 0..2, then the 95
   * printable characters ' ' through '~' in code order at 3..97.
   */
  function CharTable(): string
  {
    ['\t', '\n', '\r'] + seq(95, i requires 0 <= i < 95 => (i + 32) as char)
  }

  /** From index 3 on, the table holds the printable characters in code order. */
  lemma TableLayout()
    ensures |CharTable()| == 98
    ensures CharTable()[0] == '\t' && CharTable()[1] == '\n' && CharTable()[2] == '\r'
    ensures forall i :: 3 <= i < 98 ==> CharTable()[i] as int == i + 29
  {
  }

  /** `NToC<N>`: the table entry at N; outside the table there is none. */
  function NToC(n: int): (r: Option<char>)
    ensures r.Some? <==> 0 <= n < |CharTable()|
    ensures r.Some? ==> r.value == CharTable()[n]
  {
    if 0 <= n < |CharTable()| then Some(CharTable()[n]) else None
  }

  /** `CToN<C>`: the index of a one-character string in the table. */
  function CToN(s: string): Option<int>
  {
    if |s| != 1 then None
    else if s[0] == '\t' then Some(0)
    else if s[0] == '\n' then Some(1)
    else if s[0] == '\r' then Some(2)
    else if ' ' <= s[0] <= '~' then Some(s[0] as int - 29)
    else None
  }

  /** `CToN` and `NToC` are inverse on the table. */
  lemma CharIndexInverse(s: string, n: int)
    ensures CToN(s) == Some(n) <==> |s| == 1 && NToC(n) == Some(s[0])
  {
    TableLayout();
    if |s| == 1 && NToC(n) == Some(s[0]) && n >= 3 {
      assert CharTable()[n] as int == n + 29;
    }
  }

  /** A few entries, checked against the table. */
  lemma CharIndexSamples()
    ensures CToN("0") == Some(19) && CToN("9") == Some(28)
    ensures CToN("A") == Some(36) && CToN("a") == Some(68) && CToN("z") == Some(93)
    ensures CToN("_") == Some(66) && CToN("~") == Some(97) && CToN(" ") == Some(3)
    ensures CToN("ab") == None && CToN("") == None
  {
    CharIndexInverse("0", 19);
    CharIndexInverse("9", 28);
    CharIndexInverse("A", 36);
    CharIndexInverse("a", 68);
    CharIndexInverse("z", 93);
    CharIndexInverse("_", 66);
    CharIndexInverse("~", 97);
    CharIndexInverse(" ", 3);
  }

  // ---------------------------------------------------------------------
  // Character ranges
  // ---------------------------------------------------------------------

  /** The table entries with indices lo..hi. */
  ghost function TableSpan(lo: int, hi: int): set<char>
  {
    set i | lo <= i <= hi && 0 <= i < |CharTable()| :: CharTable()[i]
  }

  /**
   * `BuildRange<N, End, D>`: table entries from N on, stopping after End,
   * at the end of the table, or after 28 entries.  An endpoint outside the
   * table (`never`) is never reached, so the 28-entry cap ends the walk.
   */
  function BuildRange(n: int, end: Option<int>, d: int): set<char>
    requires 0 <= d <= 28
    decreases 28 - d
  {
    if d == 28 then {}
    else
      match NToC(n)
      case None => {}
      case Some(c) => if end == Some(n) then {c} else {c} + BuildRange(n + 1, end, d + 1)
  }

  /** A walk that starts at step d yields at most 28 - d characters. */
  lemma {:induction false} BuildRangeSize(n: int, end: Option<int>, d: int)
    requires 0 <= d <= 28
    ensures |BuildRange(n, end, d)| <= 28 - d
    decreases 28 - d
  {
    if d < 28 && NToC(n).Some? && end != Some(n) {
      BuildRangeSize(n + 1, end, d + 1);
    }
  }

  /** A range whose end lies within reach yields exactly the entries n..e. */
  lemma {:induction false} BuildRangeSpan(n: int, e: int, d: int)
    requires 0 <= d <= 28 && 0 <= n <= e < |CharTable()| && e - n < 28 - d
    ensures BuildRange(n, Some(e), d) == TableSpan(n, e)
    decreases e - n
  {
    TableSpanCons(n, e);
    if n < e {
      BuildRangeSpan(n + 1, e, d + 1);
    } else {
      TableSpanEmpty(n + 1, e);
    }
  }

  /**
   * A range whose end is never met (missing, or before the start) yields
   * the entries from n on, up to 28 of them and up to the end of the table.
   */
  lemma {:induction false} BuildRangeUnbounded(n: int, end: Option<int>, d: int)
    requires 0 <= d <= 28 && 0 <= n
    requires end.None? || end.value < n
    ensures BuildRange(n, end, d) == TableSpan(n, n + 27 - d)
    decreases 28 - d
  {
    if d == 28 || n >= |CharTable()| {
      TableSpanEmpty(n, n + 27 - d);
    } else {
      BuildRangeUnbounded(n + 1, end, d + 1);
      TableSpanCons(n, n + 27 - d);
    }
  }

  /** The first entry of a span and the rest of it. */
  lemma TableSpanCons(lo: int, hi: int)
    requires 0 <= lo <= hi && lo < |CharTable()|
    ensures TableSpan(lo, hi) == {CharTable()[lo]} + TableSpan(lo + 1, hi)
  {
  }

  /** A span past its end or past the table has no entries. */
  lemma TableSpanEmpty(lo: int, hi: int)
    requires hi < lo || lo >= |CharTable()|
    ensures TableSpan(lo, hi) == {}
  {
  }

  /** `VerifyRange<Start, End>`: a start outside the table gives no characters. */
  function VerifyRange(start: string, end: string): (r: set<char>)
    ensures CToN(start).None? ==> r == {}
    ensures |r| <= 28
  {
    match CToN(start)
    case None => {}
    case Some(s) =>
      BuildRangeSize(s, CToN(end), 0);
      BuildRange(s, CToN(end), 0)
  }

  /**
   * `ParseRange<Range>`: the text of a `[...]` class.  Around the first
   * '-', the text before it is the start and the one character after it
   * the end; a '-' with nothing after it has an empty end.  Without a '-',
   * every character stands for itself.
   */
  function ParseRange(r: string): set<char>
    decreases |r|
  {
    match FirstOccurrence(r, "-")
    case Some(Cut(start, after)) =>
      if after == "" then VerifyRange(start, "")
      else if |after| == 1 then VerifyRange(start, after[..1])
      else VerifyRange(start, after[..1]) + ParseRange(after[1..])
    case None =>
      if r == "" then {}
      else if |r| == 1 then {r[0]}
      else {r[0]} + ParseRange(r[1..])
  }

  /** A class without '-' is exactly its own characters. */
  lemma {:induction false} ParseRangePlain(r: string)
    requires '-' !in r
    ensures ParseRange(r) == set i | 0 <= i < |r| :: r[i]
    decreases |r|
  {
    NoChar(r, '-');
    assert "-" == ['-'];
    if |r| > 1 {
      assert '-' !in r[1..];
      ParseRangePlain(r[1..]);
      assert (set i | 0 <= i < |r| :: r[i]) == {r[0]} + set i | 0 <= i < |r[1..]| :: r[1..][i];
    }
  }

  /** The entries between two characters of the printable part of the table. */
  lemma PrintableSpan(lo: char, hi: char, c: char)
    requires ' ' <= lo <= hi <= '~'
    ensures c in TableSpan(lo as int - 29, hi as int - 29) <==> lo <= c <= hi
  {
    TableLayout();
    if lo <= c <= hi {
      assert CharTable()[c as int - 29] == c;
    }
  }

  /** A `lo-hi` class over printable characters at most 28 apart. */
  lemma SimpleRange(lo: char, hi: char)
    requires ' ' <= lo <= hi <= '~' && hi as int - lo as int < 28
    ensures VerifyRange([lo], [hi]) == TableSpan(lo as int - 29, hi as int - 29)
  {
    CharIndexInverse([lo], lo as int - 29);
    CharIndexInverse([hi], hi as int - 29);
    TableLayout();
    assert CharTable()[lo as int - 29] == lo && CharTable()[hi as int - 29] == hi;
    BuildRangeSpan(lo as int - 29, hi as int - 29, 0);
  }

  /** The `\d` class, `ParseRange<"0-9">`. */
  function DigitClass(): set<char>
  {
    ParseRange("0-9")
  }

  lemma DigitClassMembers(c: char)
    ensures c in DigitClass() <==> '0' <= c <= '9'
  {
    FirstOfChar("0-9", '-', "0", "9");
    assert "9"[..1] == "9";
    SimpleRange('0', '9');
    PrintableSpan('0', '9', c);
  }

  /** The `\w` class, `ParseRange<"a-zA-Z0-9_">`. */
  function WordClass(): set<char>
  {
    ParseRange("a-zA-Z0-9_")
  }

  /** One `start-end` piece at the front of a class with more after it. */
  lemma ParseRangeStep(r: string, start: string, end: char, other: string)
    requires r == start + ['-', end] + other && '-' !in start && other != ""
    ensures ParseRange(r) == VerifyRange(start, [end]) + ParseRange(other)
  {
    FirstOfChar(r, '-', start, [end] + other);
    assert "-" == ['-'];
    assert r == start + ['-'] + ([end] + other);
    assert ([end] + other)[..1] == [end] && ([end] + other)[1..] == other;
  }

  /** The text of `\w` cut at each of its three dashes. */
  lemma WordClassTexts()
    ensures "a-zA-Z0-9_" == "a" + ['-', 'z'] + "A-Z0-9_" && '-' !in "a" && "A-Z0-9_" != ""
    ensures "A-Z0-9_" == "A" + ['-', 'Z'] + "0-9_" && '-' !in "A" && "0-9_" != ""
    ensures "0-9_" == "0" + ['-', '9'] + "_" && '-' !in "0" && "_" != ""
  {
  }

  lemma WordClassLower()
    ensures WordClass() == VerifyRange("a", "z") + ParseRange("A-Z0-9_")
  {
    WordClassTexts();
    ParseRangeStep("a-zA-Z0-9_", "a", 'z', "A-Z0-9_");
  }

  lemma WordClassUpper()
    ensures ParseRange("A-Z0-9_") == VerifyRange("A", "Z") + ParseRange("0-9_")
  {
    WordClassTexts();
    ParseRangeStep("A-Z0-9_", "A", 'Z', "0-9_");
  }

  lemma WordClassDigits()
    ensures ParseRange("0-9_") == VerifyRange("0", "9") + {'_'}
  {
    WordClassTexts();
    ParseRangeStep("0-9_", "0", '9', "_");
    ParseRangePlain("_");
    assert (set i | 0 <= i < |"_"| :: "_"[i]) == {'_'};
  }

  /** The `\w` class as three spans of the character table and the underscore. */
  lemma WordClassSpans()
    ensures WordClass() == TableSpan('a' as int - 29, 'z' as int - 29)
                         + (TableSpan('A' as int - 29, 'Z' as int - 29)
                         + (TableSpan('0' as int - 29, '9' as int - 29) + {'_'}))
  {
    WordClassLower();
    WordClassUpper();
    WordClassDigits();
    SimpleRange('a', 'z');
    SimpleRange('A', 'Z');
    SimpleRange('0', '9');
  }

  lemma WordClassMembers(c: char)
    ensures c in WordClass() <==> 'a' <= c <= 'z' || 'A' <= c <= 'Z' || '0' <= c <= '9' || c == '_'
  {
    WordClassSpans();
    ThreeSpans(c, WordClass(), 'a', 'z', 'A', 'Z', '0', '9', '_');
  }

  /** Membership in three printable spans and one more character. */
  lemma ThreeSpans(c: char, s: set<char>, lo1: char, hi1: char, lo2: char, hi2: char, lo3: char, hi3: char, x: char)
    requires ' ' <= lo1 <= hi1 <= '~' && ' ' <= lo2 <= hi2 <= '~' && ' ' <= lo3 <= hi3 <= '~'
    requires s == TableSpan(lo1 as int - 29, hi1 as int - 29)
                + (TableSpan(lo2 as int - 29, hi2 as int - 29)
                + (TableSpan(lo3 as int - 29, hi3 as int - 29) + {x}))
    ensures c in s <==> lo1 <= c <= hi1 || lo2 <= c <= hi2 || lo3 <= c <= hi3 || c == x
  {
    PrintableSpan(lo1, hi1, c);
    PrintableSpan(lo2, hi2, c);
    PrintableSpan(lo3, hi3, c);
  }

  /** The `\s` class: tab and space. */
  function WhitespaceClass(): set<char>
  {
    {'\t', ' '}
  }

  // ---------------------------------------------------------------------
  // Tokens and the tokenizer
  // ---------------------------------------------------------------------

  /**
   * `RegexToken`.  `Range` is a class given by its character set and
   * `AnyChar` is `.`, whose range is every string.  `Nothing` is the
   * source's `never` standing where a token should be: a quantifier is
   * read as a `Repeat` around `Nothing` and gets its token in the merge
   * pass, and a malformed `{...}` spec is read as `Nothing` itself.
   */
  datatype Token =
    | Literal(c: char)
    | Range(chars: set<char>)
    | AnyChar
    | Repeat(inner: Token, min: int, max: int)
    | Nothing

  /** A token as the tokenizer produces it: a quantifier has no token yet. */
  predicate IsRaw(t: Token)
  {
    match t
    case Repeat(inner, _, _) => inner == Nothing
    case _ => true
  }

  /**
   * `ParseRepeating<Repeating>`: the text of `{...}`.  First "min,max"
   * around the first comma, then "min," (no upper bound, -1), then a
   * single number n meaning exactly n; anything else is `never`.
   */
  function ParseRepeating(spec: string): (t: Token)
    ensures IsRaw(t) && (t == Nothing || t.Repeat?)
  {
    var comma := FirstOccurrence(spec, ",");
    if comma.Some? && ParseNumber(comma.value.left).Some? && ParseNumber(comma.value.right).Some? then
      Repeat(Nothing, ParseNumber(comma.value.left).value, ParseNumber(comma.value.right).value)
    else if |spec| > 0 && spec[|spec| - 1] == ',' && ParseNumber(spec[..|spec| - 1]).Some? then
      Repeat(Nothing, ParseNumber(spec[..|spec| - 1]).value, -1)
    else
      match ParseNumber(spec)
      case Some(n) => Repeat(Nothing, n, n)
      case None => Nothing
  }

  /** The `Special` characters: `.` and the three quantifiers. */
  predicate IsSpecial(c: char)
  {
    c == '.' || c == '+' || c == '*' || c == '?'
  }

  /** `CheckSpecial<Special>`: `.` is any character, `+ * ?` are quantifiers. */
  function CheckSpecial(c: char): (t: Token)
    requires IsSpecial(c)
    ensures c == '.' <==> t == AnyChar
    ensures c == '+' <==> t == Repeat(Nothing, 1, -1)
    ensures c == '*' <==> t == Repeat(Nothing, 0, -1)
    ensures c == '?' <==> t == Repeat(Nothing, 0, 1)
  {
    if c == '.' then AnyChar
    else if c == '+' then Repeat(Nothing, 1, -1)
    else if c == '*' then Repeat(Nothing, 0, -1)
    else Repeat(Nothing, 0, 1)
  }

  /** `CheckLiteral<Literal>`: `\w`, `\s` and `\d` are classes, anything else literal. */
  function CheckLiteral(c: char): (t: Token)
    ensures t.Range? || t == Literal(c)
  {
    if c == 'w' || c == 'd' then Range(ParseRange(EscapeClassText(c)))
    else if c == 's' then Range(WhitespaceClass())
    else Literal(c)
  }

  /** The class text behind `\w` and `\d`. */
  function EscapeClassText(c: char): string
    requires c == 'w' || c == 'd'
  {
    if c == 'w' then "a-zA-Z0-9_" else "0-9"
  }

  /** `\w`, `\s` and `\d` are the word, whitespace and digit classes. */
  lemma EscapeClasses()
    ensures CheckLiteral('w') == Range(WordClass())
    ensures CheckLiteral('s') == Range(WhitespaceClass())
    ensures CheckLiteral('d') == Range(DigitClass())
  {
    assert EscapeClassText('w') == "a-zA-Z0-9_" && EscapeClassText('d') == "0-9";
  }

  /** The characters that start something other than a literal. */
  predicate IsMeta(c: char)
  {
    c == '{' || c == '[' || IsSpecial(c) || c == '\\'
  }

  /**
   * `NextToken<RegEx>`: in this order a `{...}` repeat spec, a `[...]`
   * class, one of `. + * ?`, a `\` escape, and otherwise the first
   * character as a literal.  An unclosed `{` or `[` and a trailing `\`
   * are literals.  Every token takes at least one character and leaves
   * the rest of the pattern; only a malformed spec gives `Nothing`.  The
   * source's own `never` result (an empty pattern) and its "Invalid
   * range" result cannot occur.
   */
  function NextToken(re: string): (r: (Token, string))
    requires re != ""
    ensures |r.1| < |re| && r.1 == re[|re| - |r.1|..] && IsRaw(r.0)
    ensures r.0 == Nothing ==> re[0] == '{'
    ensures !IsMeta(re[0]) ==> r == (Literal(re[0]), re[1..])
  {
    if re[0] == '{' && FirstOccurrence(re[1..], "}").Some? then
      var cut := FirstOccurrence(re[1..], "}").value;
      CutSuffix(re, cut.left + "}", cut.right);
      (ParseRepeating(cut.left), cut.right)
    else if re[0] == '[' && FirstOccurrence(re[1..], "]").Some? then
      var cut := FirstOccurrence(re[1..], "]").value;
      CutSuffix(re, cut.left + "]", cut.right);
      (Range(ParseRange(cut.left)), cut.right)
    else CharToken(re)
  }

  /**
   * The rest of `NextToken`, once no closed `{...}` or `[...]` starts the
   * pattern: one of `. + * ?`, a `\` escape, or a literal character.
   */
  function CharToken(re: string): (r: (Token, string))
    requires re != ""
    ensures |r.1| < |re| && r.1 == re[|re| - |r.1|..] && IsRaw(r.0) && r.0 != Nothing
    ensures !IsMeta(re[0]) ==> r == (Literal(re[0]), re[1..])
  {
    if IsSpecial(re[0]) then (CheckSpecial(re[0]), re[1..])
    else if re[0] == '\\' && |re| >= 2 then (CheckLiteral(re[1]), re[2..])
    else (Literal(re[0]), re[1..])
  }

  /** What follows a closing bracket is a proper suffix of the pattern. */
  lemma CutSuffix(re: string, front: string, back: string)
    requires re != "" && re[1..] == front + back
    ensures |back| < |re| && back == re[|re| - |back|..]
  {
    assert re[|re| - |back|..] == re[1..][|front|..];
  }

  /**
   * `ParseRegex<RegEx>`: tokens until the pattern is used up.  A `never`
   * token is kept in the list like any other; the source's `never`
   * result needs a `NextToken` that fails, which cannot happen.
   */
  function ParseRegex(re: string): (r: seq<Token>)
    ensures |r| <= |re| && (re != "" ==> |r| > 0)
    ensures forall i :: 0 <= i < |r| ==> IsRaw(r[i])
    ensures forall i :: 0 <= i < |r| && r[i] == Nothing ==> '{' in re
    decreases |re|
  {
    if re == "" then []
    else
      var (t, rest) := NextToken(re);
      if rest == "" then [t]
      else
        var ts := ParseRegex(rest);
        SuffixChars(re, rest);
        TokensCons(re, t, rest, ts);
        [t] + ts
  }

  /** The tokens of a pattern: its first token in front of the tokens of the rest. */
  lemma TokensCons(re: string, t: Token, rest: string, ts: seq<Token>)
    requires re != "" && |rest| < |re| && IsRaw(t) && (t == Nothing ==> re[0] == '{')
    requires forall c :: c in rest ==> c in re
    requires |ts| <= |rest| && forall i :: 0 <= i < |ts| ==> IsRaw(ts[i])
    requires forall i :: 0 <= i < |ts| && ts[i] == Nothing ==> '{' in rest
    ensures |[t] + ts| <= |re|
    ensures forall i :: 0 <= i < |[t] + ts| ==> IsRaw(([t] + ts)[i])
    ensures forall i :: 0 <= i < |[t] + ts| && ([t] + ts)[i] == Nothing ==> '{' in re
  {
    forall i | 0 <= i < |[t] + ts| && ([t] + ts)[i] == Nothing ensures '{' in re {
      if i > 0 {
        assert ts[i - 1] == Nothing;
      }
    }
  }

  /** Every character of a suffix occurs in the whole text. */
  lemma SuffixChars(s: string, rest: string)
    requires |rest| <= |s| && rest == s[|s| - |rest|..]
    ensures forall c :: c in rest ==> c in s
  {
    forall c | c in rest ensures c in s {
      var k :| 0 <= k < |rest| && rest[k] == c;
      assert s[|s| - |rest| + k] == c;
    }
  }

  /** Reading a pattern one token at a time. */
  lemma ParseCons(re: string, t: Token, rest: string, ts: seq<Token>)
    requires re != "" && NextToken(re) == (t, rest)
    requires rest == "" ==> ts == []
    requires ParseRegex(rest) == ts
    ensures ParseRegex(re) == [t] + ts
  {
    if rest == "" {
      assert [t] + ts == [t];
    }
  }

  /** Each character of a text as a literal token. */
  function Literals(s: string): (ts: seq<Token>)
    ensures |ts| == |s| && forall i :: 0 <= i < |s| ==> ts[i] == Literal(s[i])
  {
    seq(|s|, i requires 0 <= i < |s| => Literal(s[i]))
  }

  /** A pattern without metacharacters reads as its characters, one literal each. */
  lemma {:induction false} ParsePlain(s: string)
    requires forall i :: 0 <= i < |s| ==> !IsMeta(s[i])
    ensures ParseRegex(s) == Literals(s)
    decreases |s|
  {
    if s != "" {
      LiteralsCons(s);
      if |s| == 1 {
        LiteralOnly(s);
        assert Literals(s[1..]) == [];
      } else {
        PlainTail(s);
        ParsePlain(s[1..]);
        LiteralCons(s, Literals(s[1..]));
      }
    }
  }

  /** A single plain character is one literal. */
  lemma LiteralOnly(re: string)
    requires |re| == 1 && !IsMeta(re[0])
    ensures ParseRegex(re) == [Literal(re[0])]
  {
    assert NextToken(re) == (Literal(re[0]), re[1..]);
    assert re[1..] == "";
  }

  lemma PlainTail(s: string)
    requires s != "" && forall i :: 0 <= i < |s| ==> !IsMeta(s[i])
    ensures forall i :: 0 <= i < |s[1..]| ==> !IsMeta(s[1..][i])
  {
    forall i | 0 <= i < |s[1..]| ensures !IsMeta(s[1..][i]) {
      assert s[1..][i] == s[i + 1];
    }
  }

  /** A character that is not a metacharacter is read as a literal. */
  lemma LiteralHead(p: string, rest: string)
    requires p != "" && !IsMeta(p[0])
    ensures NextToken(p + rest) == (Literal(p[0]), p[1..] + rest)
  {
    var re := p + rest;
    assert re[0] == p[0] && re[1..] == p[1..] + rest;
  }

  lemma LiteralsCons(p: string)
    requires p != ""
    ensures Literals(p) == [Literal(p[0])] + Literals(p[1..])
  {
  }

  /** The literals of a non-empty text in front of other tokens: the first one, then the rest. */
  lemma LiteralsAhead(p: string, ts: seq<Token>)
    requires p != ""
    ensures (Literals(p) + ts)[0] == Literal(p[0])
    ensures (Literals(p) + ts)[1..] == Literals(p[1..]) + ts
    ensures Literals(p) + ts == [Literal(p[0])] + (Literals(p[1..]) + ts)
  {
    LiteralsCons(p);
    ConsAssoc(Literal(p[0]), Literals(p[1..]), ts);
  }

  /** Plain text in front of a pattern reads as literals in front of its tokens. */
  lemma {:induction false} ParsePlainPrefix(p: string, rest: string)
    requires forall i :: 0 <= i < |p| ==> !IsMeta(p[i])
    requires rest != ""
    ensures ParseRegex(p + rest) == Literals(p) + ParseRegex(rest)
    decreases |p|
  {
    var v := ParseRegex(rest);
    if p != "" {
      assert forall i :: 0 <= i < |p[1..]| ==> !IsMeta(p[1..][i]) by {
        forall i | 0 <= i < |p[1..]| ensures !IsMeta(p[1..][i]) {
          assert p[1..][i] == p[i + 1];
        }
      }
      ParsePlainPrefix(p[1..], rest);
      PlainStep(p, rest, v);
    } else {
      assert p + rest == rest;
      assert Literals(p) + v == v;
    }
  }

  /** One plain character more in front of a pattern read as literals. */
  lemma PlainStep(p: string, rest: string, v: seq<Token>)
    requires p != "" && !IsMeta(p[0]) && rest != ""
    requires ParseRegex(p[1..] + rest) == Literals(p[1..]) + v
    ensures ParseRegex(p + rest) == Literals(p) + v
  {
    HeadTail(p, rest);
    LiteralCons(p + rest, Literals(p[1..]) + v);
    LiteralsCons(p);
    ConsAssoc(Literal(p[0]), Literals(p[1..]), v);
  }

  lemma HeadTail<T>(p: seq<T>, rest: seq<T>)
    requires p != []
    ensures (p + rest)[0] == p[0] && (p + rest)[1..] == p[1..] + rest
  {
  }

  lemma ConsAssoc<T>(x: T, a: seq<T>, b: seq<T>)
    ensures [x] + (a + b) == ([x] + a) + b
  {
  }

  /** A plain character in front of a non-empty pattern adds its literal in front. */
  lemma LiteralCons(re: string, ts: seq<Token>)
    requires |re| >= 2 && !IsMeta(re[0]) && ParseRegex(re[1..]) == ts
    ensures ParseRegex(re) == [Literal(re[0])] + ts
  {
    assert NextToken(re) == (Literal(re[0]), re[1..]);
  }

  /** A `{...}` spec is read before anything else; a bad spec makes the token `never`. */
  lemma NextTokenRepeat(spec: string, rest: string)
    requires '}' !in spec
    ensures NextToken("{" + spec + "}" + rest) == (ParseRepeating(spec), rest)
  {
    Enclosed('{', spec, '}', rest);
    RepeatHead("{" + spec + "}" + rest, spec, rest);
  }

  lemma RepeatHead(re: string, spec: string, rest: string)
    requires re != "" && re[0] == '{' && FirstOccurrence(re[1..], "}") == Some(Cut(spec, rest))
    ensures NextToken(re) == (ParseRepeating(spec), rest)
  {
  }

  /** A `[...]` class is read as the set its text describes. */
  lemma NextTokenClass(group: string, rest: string)
    requires ']' !in group
    ensures NextToken("[" + group + "]" + rest) == (Range(ParseRange(group)), rest)
  {
    Enclosed('[', group, ']', rest);
    ClassHead("[" + group + "]" + rest, group, rest);
  }

  lemma ClassHead(re: string, group: string, rest: string)
    requires re != "" && re[0] == '[' && FirstOccurrence(re[1..], "]") == Some(Cut(group, rest))
    ensures NextToken(re) == (Range(ParseRange(group)), rest)
  {
  }

  /** Text between an opening character and the first closing one. */
  lemma Enclosed(open: char, inner: string, close: char, rest: string)
    requires close !in inner
    ensures var re := [open] + inner + [close] + rest;
      re[0] == open && FirstOccurrence(re[1..], [close]) == Some(Cut(inner, rest))
  {
    var re := [open] + inner + [close] + rest;
    assert re[1..] == inner + [close] + rest;
    FirstOfChar(re[1..], close, inner, rest);
  }

  lemma NextTokenSpecial(q: char, rest: string)
    requires IsSpecial(q)
    ensures NextToken([q] + rest) == (CheckSpecial(q), rest)
  {
    var re := [q] + rest;
    assert re[0] == q && re[1..] == rest;
  }

  /** An escaped character is a class for `w`, `s`, `d` and a literal otherwise. */
  lemma NextTokenEscape(c: char, rest: string)
    ensures NextToken(['\\', c] + rest) == (CheckLiteral(c), rest)
  {
    var re := ['\\', c] + rest;
    assert re[0] == '\\' && re[1] == c && re[2..] == rest;
  }

  /** The three forms of a repeat spec and the bounds each gives. */
  lemma RepeatSpecForms(n: int, m: int)
    ensures ParseRepeating(ToDecimal(n) + "," + ToDecimal(m)) == Repeat(Nothing, n, m)
    ensures ParseRepeating(ToDecimal(n) + ",") == Repeat(Nothing, n, -1)
    ensures ParseRepeating(ToDecimal(n)) == Repeat(Nothing, n, n)
  {
    ParseToDecimal(n);
    ParseToDecimal(m);
    NoCommaInDecimal(n);
    NoCommaInDecimal(m);
    FirstOfChar(ToDecimal(n) + "," + ToDecimal(m), ',', ToDecimal(n), ToDecimal(m));
    FirstOfChar(ToDecimal(n) + ",", ',', ToDecimal(n), "");
    assert ParseNumber("") == None;
    var one := ToDecimal(n) + ",";
    assert one[..|one| - 1] == ToDecimal(n);
    NoChar(ToDecimal(n), ',');
    var d := ToDecimal(n);
    assert |d| > 0 && d[|d| - 1] != ',' by {
      assert d[|d| - 1] in d;
    }
  }

  lemma NoCommaInDecimal(n: int)
    ensures ',' !in ToDecimal(n) && '}' !in ToDecimal(n)
  {
  }

  /** `{n,m}` in front of a pattern reads as a quantifier from n to m. */
  lemma RepeatToken(n: int, m: int, rest: string)
    ensures NextToken("{" + (ToDecimal(n) + "," + ToDecimal(m)) + "}" + rest) == (Repeat(Nothing, n, m), rest)
  {
    NoCommaInDecimal(n);
    NoCommaInDecimal(m);
    NextTokenRepeat(ToDecimal(n) + "," + ToDecimal(m), rest);
    RepeatSpecForms(n, m);
  }

  /** Every spec the tokenizer accepts is one of the three forms; any other text is `never`. */
  lemma RepeatSpecOnlyForms(spec: string, t: Token)
    requires ParseRepeating(spec) == t && t != Nothing
    ensures t.Repeat? && t.inner == Nothing
    ensures || spec == ToDecimal(t.min) + "," + ToDecimal(t.max)
            || (t.max == -1 && spec == ToDecimal(t.min) + ",")
            || (t.min == t.max && spec == ToDecimal(t.min))
  {
    var comma := FirstOccurrence(spec, ",");
    if comma.Some? && ParseNumber(comma.value.left).Some? && ParseNumber(comma.value.right).Some? {
      ToDecimalOfParse(comma.value.left, t.min);
      ToDecimalOfParse(comma.value.right, t.max);
      assert "," == [','];
    } else if |spec| > 0 && spec[|spec| - 1] == ',' && ParseNumber(spec[..|spec| - 1]).Some? {
      ToDecimalOfParse(spec[..|spec| - 1], t.min);
      assert spec == spec[..|spec| - 1] + ",";
    } else {
      ToDecimalOfParse(spec, t.min);
    }
  }

  // ---------------------------------------------------------------------
  // The merge pass
  // ---------------------------------------------------------------------

  /** `Rest extends never[]`: no tokens at all, or only `never`s. */
  predicate Blank(ts: seq<Token>)
  {
    forall i :: 0 <= i < |ts| ==> ts[i] == Nothing
  }

  /** `[t, ...Rest]`: spreading a `never` makes the whole tuple `never`. */
  function Cons(t: Token, rest: Ty<seq<Token>>): (r: Ty<seq<Token>>)
    ensures r.Never? <==> rest.Never?
    ensures r.Val? ==> rest.Val? && r.value == [t] + rest.value
  {
    match rest
    case Never => Never
    case Val(ts) => Val([t] + ts)
  }

  /**
   * `CollapseRegexTokens<Tokens>`: a token directly followed by a
   * quantifier becomes a `Repeat` of that token with the quantifier's
   * bounds, and the quantifier is dropped.  A rest made only of `never`s
   * counts as empty, so it is dropped; a `never` in second place fails
   * every test, which makes the whole list `never`.
   */
  function Collapse(ts: seq<Token>): (r: Ty<seq<Token>>)
    ensures r.Val? ==> |r.value| <= |ts|
  {
    if |ts| >= 2 then
      if ts[1] == Nothing then Never
      else if ts[1].Repeat? then
        var t := Repeat(ts[0], ts[1].min, ts[1].max);
        if Blank(ts[2..]) then Val([t]) else Cons(t, Collapse(ts[2..]))
      else if Blank(ts[2..]) then Val(ts[..2])
      else Cons(ts[0], Collapse(ts[1..]))
    else Val(ts)
  }

  /** Undoes the merge for one token: a repeat splits back into token and quantifier. */
  function ExpandOne(t: Token): seq<Token>
  {
    match t
    case Repeat(inner, lo, hi) => if inner == Nothing then [t] else [inner, Repeat(Nothing, lo, hi)]
    case _ => [t]
  }

  function Expand(ts: seq<Token>): seq<Token>
  {
    if ts == [] then [] else ExpandOne(ts[0]) + Expand(ts[1..])
  }

  lemma {:induction false} ExpandRaw(ts: seq<Token>)
    requires forall i :: 0 <= i < |ts| ==> IsRaw(ts[i])
    ensures Expand(ts) == ts
  {
    if ts != [] {
      ExpandRaw(ts[1..]);
    }
  }

  /** Tokens in front of a non-empty rest that starts with a real token are not empty either. */
  lemma NotBlankAfter(a: seq<Token>, ts: seq<Token>)
    requires ts != [] && ts[0] != Nothing
    ensures !Blank(a + ts)
  {
    assert (a + ts)[|a|] == ts[0];
  }

  /** A rest that starts with a real token is not empty. */
  lemma NotBlank(ts: seq<Token>)
    requires ts != [] && ts[0] != Nothing
    ensures !Blank(ts)
  {
  }

  /**
   * Without `never` tokens the merge pass gives a list, loses nothing and
   * keeps the order: expanding it again gives the tokens back.
   */
  lemma {:induction false} CollapseExpand(ts: seq<Token>)
    requires forall i :: 0 <= i < |ts| ==> IsRaw(ts[i]) && ts[i] != Nothing
    ensures Collapse(ts).Val? && Expand(Collapse(ts).value) == ts
    ensures forall j :: 0 <= j < |Collapse(ts).value| ==> Collapse(ts).value[j] != Nothing
  {
    if |ts| >= 2 {
      if ts[1].Repeat? {
        var t := Repeat(ts[0], ts[1].min, ts[1].max);
        assert ExpandOne(t) == [ts[0], ts[1]];
        if |ts| == 2 {
          assert ts[2..] == [];
          assert Expand([t]) == ExpandOne(t) + Expand([]);
        } else {
          NotBlank(ts[2..]);
          CollapseExpand(ts[2..]);
          var r := [t] + Collapse(ts[2..]).value;
          assert r[0] == t && r[1..] == Collapse(ts[2..]).value;
          assert ts == [ts[0], ts[1]] + ts[2..];
        }
      } else if |ts| > 2 {
        NotBlank(ts[2..]);
        CollapseExpand(ts[1..]);
        var r := [ts[0]] + Collapse(ts[1..]).value;
        assert r[0] == ts[0] && r[1..] == Collapse(ts[1..]).value;
        assert ExpandOne(ts[0]) == [ts[0]];
      } else {
        assert ts[..2] == ts;
        ExpandRaw(ts);
      }
    } else {
      ExpandRaw(ts);
    }
  }

  /** Literals followed by a token that is neither a quantifier nor `never` are left as they are. */
  lemma {:induction false} CollapseLiteralPrefix(p: string, ts: seq<Token>)
    requires ts != [] && !ts[0].Repeat? && ts[0] != Nothing && Collapse(ts).Val?
    ensures Collapse(Literals(p) + ts) == Val(Literals(p) + Collapse(ts).value)
    decreases |p|
  {
    var v := Collapse(ts).value;
    if p != "" {
      var all := Literals(p) + ts;
      LiteralsAhead(p, ts);
      CollapseLiteralPrefix(p[1..], ts);
      LiteralsCons(p);
      ConsAssoc(Literal(p[0]), Literals(p[1..]), v);
      if |p| > 1 {
        LiteralsAhead(p[1..], ts);
        assert all[1] == Literal(p[1]);
        assert all[2..] == Literals(p[2..]) + ts;
        NotBlankAfter(Literals(p[2..]), ts);
        assert Collapse(all) == Cons(all[0], Collapse(all[1..]));
      } else if |ts| > 1 {
        assert all[1] == ts[0] && all[2..] == ts[1..];
        assert ts[1] != Nothing;
        NotBlank(ts[1..]);
        assert Collapse(all) == Cons(all[0], Collapse(all[1..]));
      } else {
        assert all[1] == ts[0] && all[2..] == [];
        assert ts == [ts[0]] && v == ts;
        assert all[..2] == all;
      }
    } else {
      assert Literals(p) + ts == ts && Literals(p) + v == v;
    }
  }

  /** A token and its quantifier merge into one repeat. */
  lemma CollapsePair(t: Token, q: Token)
    requires q.Repeat?
    ensures Collapse([t, q]) == Val([Repeat(t, q.min, q.max)])
  {
    assert [t, q][2..] == [];
  }

  /** Tokens without quantifiers or `never`s pass through the merge unchanged. */
  lemma {:induction false} CollapseNoRepeats(ts: seq<Token>)
    requires forall i :: 0 <= i < |ts| ==> !ts[i].Repeat? && ts[i] != Nothing
    ensures Collapse(ts) == Val(ts)
  {
    if |ts| > 2 {
      NotBlank(ts[2..]);
      CollapseNoRepeats(ts[1..]);
      assert ts == [ts[0]] + ts[1..];
    } else if |ts| == 2 {
      assert ts[..2] == ts;
    }
  }

  // ---------------------------------------------------------------------
  // The matcher
  // ---------------------------------------------------------------------

  /**
   * `CheckMatch<C, T>`: a literal matches its character, a class its
   * members and `.` everything; a repeat never matches directly, and the
   * `never` inside an unattached quantifier gives `never`.
   */
  function CheckMatch(c: char, t: Token): Ty<bool>
  {
    match t
    case Literal(l) => Val(c == l)
    case Range(chars) => Val(c in chars)
    case AnyChar => Val(true)
    case Repeat(_, _, _) => Val(false)
    case Nothing => Never
  }

  /** `InRange<N, Min, Max>`: Min <= N, and N <= Max unless Max is -1. */
  predicate InRange(n: int, min: int, max: int)
  {
    n >= min && (max == -1 || n <= max)
  }

  /**
   * The results of `RunStateMachine`: `true`, `false`, and the three
   * error strings it can produce.  Its "exhausted tokens" and "failed to
   * match regex" results need a token that is not a `RegexToken`, so no
   * token list reaches them.
   */
  datatype Outcome = Matched | Unmatched | RangeExceeded | RangeUnmet | StringExhausted

  /**
   * `RunStateMachine<Candidate, Tokens, N>`: one character against the
   * first token at a time, without backtracking.  N counts the
   * characters the current repeat has taken.  A list of only `never`s
   * counts as empty.  A `never` token passes `CheckMatch<...> extends
   * true`, so it takes any one character; once the candidate is used up,
   * a `never` first token makes the outcome `never`.
   */
  function Run(cand: string, tokens: seq<Token>, n: int): Ty<Outcome>
    decreases |cand| + |tokens|
  {
    if Blank(tokens) then
      Val(if cand == "" then Matched else Unmatched)
    else if cand != "" then
      var t := tokens[0];
      if ExtendsTrue(CheckMatch(cand[0], t)) then
        if cand[1..] == "" then Val(Matched) else Run(cand[1..], tokens[1..], 0)
      else if t.Repeat? then
        if ExtendsTrue(CheckMatch(cand[0], t.inner)) then Run(cand[1..], tokens, n + 1)
        else if InRange(n, t.min, t.max) then Run(cand, tokens[1..], 0)
        else Val(RangeExceeded)
      else Run(cand, tokens[1..], 0)
    else if tokens[0] == Nothing then Never
    else if tokens[0].Repeat? then
      if InRange(n, tokens[0].min, tokens[0].max) then Run(cand, tokens[1..], 0) else Val(RangeUnmet)
    else Val(StringExhausted)
  }

  /** `RegEx<Regex>`: parse, then merge. */
  function Compile(re: string): Ty<seq<Token>>
  {
    Collapse(ParseRegex(re))
  }

  lemma IsMatchCompiled(re: string, ts: seq<Token>, cand: string)
    requires Compile(re) == Val(ts)
    ensures IsMatch(re, cand) == Run(cand, ts, 0)
  {
  }

  /**
   * `IsMatch<Regex, Candidate>`: a `never` from the merge pass reaches
   * the state machine, which gives `never` for it.
   */
  function IsMatch(re: string, cand: string): Ty<Outcome>
  {
    match Compile(re)
    case Never => Never
    case Val(ts) => Run(cand, ts, 0)
  }

  datatype Validation = Accepted(candidate: string) | DoesNotMatch

  /**
   * `ValidateRegEx<Regex, Candidate>`: the candidate when `IsMatch` is
   * `true` (or `never`), the rejection message otherwise.
   */
  function ValidateRegEx(re: string, cand: string): (r: Validation)
    ensures r == Accepted(cand) <==> IsMatch(re, cand) in {Never, Val(Matched)}
    ensures r.Accepted? || r == DoesNotMatch
  {
    match IsMatch(re, cand)
    case Never => Accepted(cand)
    case Val(o) => if o == Matched then Accepted(cand) else DoesNotMatch
  }

  // ---------------------------------------------------------------------
  // What the matcher does
  // ---------------------------------------------------------------------

  /** With no tokens left, or only `never`s, exactly the empty candidate matches. */
  lemma NoTokens(cand: string, tokens: seq<Token>, n: int)
    requires Blank(tokens)
    ensures Run(cand, tokens, n) == Val(Matched) <==> cand == ""
  {
  }

  /** Without `never` tokens the state machine always answers. */
  lemma {:induction false} RunAnswers(cand: string, tokens: seq<Token>, n: int)
    requires forall i :: 0 <= i < |tokens| ==> tokens[i] != Nothing
    ensures Run(cand, tokens, n).Val?
    decreases |cand| + |tokens|
  {
    if !Blank(tokens) {
      var t := tokens[0];
      if cand != "" {
        if ExtendsTrue(CheckMatch(cand[0], t)) {
          if cand[1..] != "" {
            RunAnswers(cand[1..], tokens[1..], 0);
          }
        } else if t.Repeat? {
          if ExtendsTrue(CheckMatch(cand[0], t.inner)) {
            RunAnswers(cand[1..], tokens, n + 1);
          } else if InRange(n, t.min, t.max) {
            RunAnswers(cand, tokens[1..], 0);
          }
        } else {
          RunAnswers(cand, tokens[1..], 0);
        }
      } else if t.Repeat? && InRange(n, t.min, t.max) {
        RunAnswers(cand, tokens[1..], 0);
      }
    }
  }

  /** `never` comes only from a malformed `{...}` spec: a pattern without '{' always answers. */
  lemma NeverNeedsSpec(re: string, cand: string)
    ensures IsMatch(re, cand).Never? ==> '{' in re
  {
    if '{' !in re {
      var ts := ParseRegex(re);
      CollapseExpand(ts);
      RunAnswers(cand, Collapse(ts).value, 0);
    }
  }

  /** A `never` token at the front takes any one character. */
  lemma NeverTakesAnyChar(c: char, rest: string, ts: seq<Token>, n: int)
    requires rest != ""
    ensures Run([c] + rest, [Nothing] + ts, n) == Run(rest, ts, 0)
  {
    var (cand, tokens) := ([c] + rest, [Nothing] + ts);
    assert cand[0] == c && cand[1..] == rest && tokens[1..] == ts;
    if Blank(tokens) {
      assert Blank(ts) by {
        forall i | 0 <= i < |ts| ensures ts[i] == Nothing {
          assert tokens[i + 1] == ts[i];
        }
      }
    }
  }

  /**
   * A repeat takes every character its token matches, counting them,
   * whatever its upper bound.
   */
  lemma {:induction false} RepeatTakes(w: string, rest: string, t: Token, ts: seq<Token>, n: int)
    requires t.Repeat?
    requires forall i :: 0 <= i < |w| ==> ExtendsTrue(CheckMatch(w[i], t.inner))
    ensures Run(w + rest, [t] + ts, n) == Run(rest, [t] + ts, n + |w|)
    decreases |w|
  {
    NotBlank([t] + ts);
    if w != "" {
      assert (w + rest)[0] == w[0] && (w + rest)[1..] == w[1..] + rest;
      RepeatTakes(w[1..], rest, t, ts, n + 1);
    } else {
      assert w + rest == rest;
    }
  }

  /**
   * A candidate made only of characters a lone repeat matches is
   * accepted exactly when its length is in the repeat's bounds: the upper
   * bound is checked only once the candidate is used up.
   */
  lemma RepeatWhole(w: string, t: Token)
    requires t.Repeat?
    requires forall i :: 0 <= i < |w| ==> ExtendsTrue(CheckMatch(w[i], t.inner))
    ensures Run(w, [t], 0) == Val(if InRange(|w|, t.min, t.max) then Matched else RangeUnmet)
  {
    RepeatTakes(w, "", t, [], 0);
    assert w + "" == w && [t] + [] == [t];
    NotBlank([t]);
  }

  /** A plain pattern accepts every non-empty prefix of itself, itself included. */
  lemma {:induction false} PrefixAccepted(p: string, s: string)
    requires p != "" && |p| <= |s| && p == s[..|p|]
    ensures Run(p, Literals(s), 0) == Val(Matched)
    decreases |p|
  {
    assert Literals(s)[0] == Literal(s[0]);
    if |p| > 1 {
      PrefixAccepted(p[1..], s[1..]);
      assert Literals(s)[1..] == Literals(s[1..]);
    }
  }

  /**
   * Any single character of a plain pattern is accepted: tokens that do
   * not match are skipped, and the match of the last candidate character
   * ends the run.
   */
  lemma {:induction false} AnyCharOfPattern(c: char, s: string)
    requires c in s
    ensures Run([c], Literals(s), 0) == Val(Matched)
    decreases |s|
  {
    assert Literals(s)[0] == Literal(s[0]);
    if s[0] != c {
      assert c in s[1..];
      AnyCharOfPattern(c, s[1..]);
      assert Literals(s)[1..] == Literals(s[1..]);
    }
  }

  /** Literals that match the candidate's first characters one by one are passed over. */
  lemma {:induction false} RunLiteralPrefix(p: string, rest: string, ts: seq<Token>)
    requires rest != ""
    ensures Run(p + rest, Literals(p) + ts, 0) == Run(rest, ts, 0)
    decreases |p|
  {
    if p != "" {
      HeadTail(p, rest);
      LiteralsAhead(p, ts);
      RunLiteralPrefix(p[1..], rest, ts);
    } else {
      assert p + rest == rest && Literals(p) + ts == ts;
    }
  }

  /**
   * An optional character `u?` between plain texts p and q: both p + q
   * and p + u + q match, as long as q does not start with u.
   */
  lemma OptionalChar(p: string, u: char, q: string)
    requires forall i :: 0 <= i < |p| ==> !IsMeta(p[i])
    requires forall i :: 0 <= i < |q| ==> !IsMeta(q[i])
    requires !IsMeta(u) && q != "" && q[0] != u
    ensures Compile(p + [u, '?'] + q) == Val(Literals(p) + [Repeat(Literal(u), 0, 1)] + Literals(q))
    ensures IsMatch(p + [u, '?'] + q, p + q) == Val(Matched)
    ensures IsMatch(p + [u, '?'] + q, p + [u] + q) == Val(Matched)
  {
    OptionalCharCompiles(p, u, q);
    var ts := [Repeat(Literal(u), 0, 1)] + Literals(q);
    SnocAssoc(Literals(p), Repeat(Literal(u), 0, 1), Literals(q));
    OptionalSkipped(u, q);
    IsMatchCompiled(p + [u, '?'] + q, Literals(p) + ts, p + q);
    RunLiteralPrefix(p, q, ts);
    IsMatchCompiled(p + [u, '?'] + q, Literals(p) + ts, p + [u] + q);
    ConcatAssoc(p, [u], q);
    RunLiteralPrefix(p, [u] + q, ts);
  }

  /** After its literal prefix, `u?` lets q through with or without u in front. */
  lemma OptionalSkipped(u: char, q: string)
    requires q != "" && q[0] != u
    ensures Run(q, [Repeat(Literal(u), 0, 1)] + Literals(q), 0) == Val(Matched)
    ensures Run([u] + q, [Repeat(Literal(u), 0, 1)] + Literals(q), 0) == Val(Matched)
  {
    PrefixAccepted(q, q);
    OptionalPassed(u, q, 0);
    OptionalPassed(u, q, 1);
    OptionalTaken(u, q);
  }

  /** With u seen at most once so far, a candidate not starting with u leaves `u?` behind. */
  lemma OptionalPassed(u: char, q: string, n: int)
    requires q != "" && q[0] != u && 0 <= n <= 1
    ensures Run(q, [Repeat(Literal(u), 0, 1)] + Literals(q), n) == Run(q, Literals(q), 0)
  {
    var ts := [Repeat(Literal(u), 0, 1)] + Literals(q);
    assert ts[0] == Repeat(Literal(u), 0, 1) && ts[1..] == Literals(q);
  }

  /** A leading u is taken by `u?`, which stays in front with its count at 1. */
  lemma OptionalTaken(u: char, q: string)
    requires q != ""
    ensures Run([u] + q, [Repeat(Literal(u), 0, 1)] + Literals(q), 0)
         == Run(q, [Repeat(Literal(u), 0, 1)] + Literals(q), 1)
  {
    var ts := [Repeat(Literal(u), 0, 1)] + Literals(q);
    assert ts[0] == Repeat(Literal(u), 0, 1);
    HeadTail([u], q);
  }

  lemma ConcatAssoc<T>(a: seq<T>, b: seq<T>, c: seq<T>)
    ensures a + b + c == a + (b + c)
  {
  }

  lemma OptionalCharCompiles(p: string, u: char, q: string)
    requires forall i :: 0 <= i < |p| ==> !IsMeta(p[i])
    requires forall i :: 0 <= i < |q| ==> !IsMeta(q[i])
    requires !IsMeta(u) && q != ""
    ensures Compile(p + [u, '?'] + q) == Val(Literals(p) + [Repeat(Literal(u), 0, 1)] + Literals(q))
  {
    var (o, r) := (Repeat(Nothing, 0, 1), Repeat(Literal(u), 0, 1));
    var raw := [Literal(u), o] + Literals(q);
    OptionalParses(p, u, q);
    CollapseOptional(u, q);
    CollapseLiteralPrefix(p, raw);
    SnocAssoc(Literals(p), r, Literals(q));
  }

  /** How `p u? q` reads before the merge pass. */
  lemma OptionalParses(p: string, u: char, q: string)
    requires forall i :: 0 <= i < |p| ==> !IsMeta(p[i])
    requires forall i :: 0 <= i < |q| ==> !IsMeta(q[i])
    requires !IsMeta(u) && q != ""
    ensures ParseRegex(p + [u, '?'] + q) == Literals(p) + ([Literal(u), Repeat(Nothing, 0, 1)] + Literals(q))
  {
    var pu := p + [u];
    QuestionThenPlain(q);
    PlainSnoc(p, u);
    ParsePlainPrefix(pu, ['?'] + q);
    OptionalLayout(p, u, q);
    Regroup(Literals(p), Literal(u), Repeat(Nothing, 0, 1), Literals(q));
  }

  /** `?` in front of plain text: an unattached optional quantifier, then literals. */
  lemma QuestionThenPlain(q: string)
    requires forall i :: 0 <= i < |q| ==> !IsMeta(q[i])
    requires q != ""
    ensures ParseRegex(['?'] + q) == [Repeat(Nothing, 0, 1)] + Literals(q)
  {
    ParsePlain(q);
    NextTokenSpecial('?', q);
    ParseCons(['?'] + q, Repeat(Nothing, 0, 1), q, Literals(q));
  }

  /** One more plain character at the end of plain text. */
  lemma PlainSnoc(p: string, u: char)
    requires forall i :: 0 <= i < |p| ==> !IsMeta(p[i])
    requires !IsMeta(u)
    ensures forall i :: 0 <= i < |p + [u]| ==> !IsMeta((p + [u])[i])
    ensures Literals(p + [u]) == Literals(p) + [Literal(u)]
  {
    assert forall i :: 0 <= i < |p + [u]| ==> (p + [u])[i] == if i < |p| then p[i] else u;
  }

  /** The merge pass attaches `?` to the character before it. */
  lemma CollapseOptional(u: char, q: string)
    requires q != ""
    ensures Collapse([Literal(u), Repeat(Nothing, 0, 1)] + Literals(q)) == Val([Repeat(Literal(u), 0, 1)] + Literals(q))
  {
    var raw := [Literal(u), Repeat(Nothing, 0, 1)] + Literals(q);
    assert raw[0] == Literal(u) && raw[1] == Repeat(Nothing, 0, 1) && raw[2..] == Literals(q);
    NotBlank(Literals(q));
    CollapseNoRepeats(Literals(q));
  }

  lemma OptionalLayout(p: string, u: char, q: string)
    ensures p + [u, '?'] + q == (p + [u]) + (['?'] + q)
  {
  }

  lemma Regroup<T>(a: seq<T>, x: T, y: T, b: seq<T>)
    ensures (a + [x]) + ([y] + b) == a + ([x, y] + b)
  {
  }

  lemma SnocAssoc<T>(a: seq<T>, x: T, b: seq<T>)
    ensures a + ([x] + b) == a + [x] + b
  {
  }

  /** A pattern without metacharacters matches itself. */
  lemma PlainMatchesItself(s: string)
    requires s != "" && forall i :: 0 <= i < |s| ==> !IsMeta(s[i])
    ensures IsMatch(s, s) == Val(Matched)
    ensures ValidateRegEx(s, s) == Accepted(s)
  {
    ParsePlain(s);
    CollapseNoRepeats(Literals(s));
    PrefixAccepted(s, s);
  }
}
