/**
 * Signed integer arithmetic built out of +1/-1 steps (utils/numbers.ts).
 * The increment and decrement tables of the source are modelled as n+1 and
 * n-1; the table that negates a positive number as unary minus.
 */
module Numbers {
  import opened TypeLevel

  // ---------------------------------------------------------------------
  // The decimal form of a number literal type, `${N}`, and the inverse
  // used by `infer X extends number`.
  // ---------------------------------------------------------------------

  predicate IsDigitChar(c: char)
  {
    '0' <= c <= '9'
  }

  predicate AllDigitChars(s: string)
  {
    forall i :: 0 <= i < |s| ==> IsDigitChar(s[i])
  }

  function DigitChar(d: nat): (c: char)
    requires d < 10
    ensures IsDigitChar(c) && c as int - '0' as int == d
  {
    ('0' as int + d) as char
  }

  /** The decimal digits of a natural number, without leading zeros. */
  function NatToDecimal(n: nat): (s: string)
    ensures |s| > 0 && AllDigitChars(s)
    ensures s[0] == '0' ==> n == 0 && |s| == 1
  {
    if n < 10 then [DigitChar(n)] else NatToDecimal(n / 10) + [DigitChar(n % 10)]
  }

  /** The template literal `${N}` of an integer literal type. */
  function ToDecimal(n: int): string
  {
    if n < 0 then "-" + NatToDecimal(-n) else NatToDecimal(n)
  }

  /** The value of a string of decimal digits. */
  function DigitsValue(s: string): nat
    requires AllDigitChars(s)
  {
    if s == [] then 0 else DigitsValue(s[..|s| - 1]) * 10 + (s[|s| - 1] as int - '0' as int)
  }

  /** A digit string in the form `${N}` produces: non-empty, no leading zero. */
  predicate IsCanonicalNat(s: string)
  {
    |s| > 0 && AllDigitChars(s) && (s[0] == '0' ==> |s| == 1)
  }

  /**
   * `S extends `${infer N extends number}``: succeeds exactly when the string
   * is the decimal form of some integer (only integer literals are modelled).
   */
  function ParseNumber(s: string): Option<int>
  {
    if |s| > 1 && s[0] == '-' && IsCanonicalNat(s[1..]) && s[1..] != "0" then Some(0 - DigitsValue(s[1..]))
    else if IsCanonicalNat(s) then Some(DigitsValue(s))
    else None
  }

  lemma {:induction false} DigitsValueOfNat(n: nat)
    ensures DigitsValue(NatToDecimal(n)) == n
  {
    if n >= 10 {
      var s := NatToDecimal(n);
      assert s[..|s| - 1] == NatToDecimal(n / 10);
      DigitsValueOfNat(n / 10);
    }
  }

  lemma {:induction false} LeadingDigitPositive(s: string)
    requires |s| > 0 && AllDigitChars(s) && s[0] != '0'
    ensures DigitsValue(s) >= 1
  {
    if |s| > 1 {
      LeadingDigitPositive(s[..|s| - 1]);
    }
  }

  lemma {:induction false} NatOfDigits(s: string)
    requires IsCanonicalNat(s)
    ensures NatToDecimal(DigitsValue(s)) == s
  {
    if |s| > 1 {
      var p := s[..|s| - 1];
      assert IsCanonicalNat(p);
      LeadingDigitPositive(p);
      NatOfDigits(p);
      var n := DigitsValue(s);
      assert n / 10 == DigitsValue(p) && n % 10 == s[|s| - 1] as int - '0' as int;
      assert s == p + [s[|s| - 1]];
    }
  }

  /** Rendering a number and reading it back gives the number. */
  lemma ParseToDecimal(n: int)
    ensures ParseNumber(ToDecimal(n)) == Some(n)
  {
    if n < 0 {
      var d := NatToDecimal(-n);
      var s := "-" + d;
      assert s == ToDecimal(n);
      assert s[1..] == d;
      assert IsCanonicalNat(d);
      assert d != "0";
      DigitsValueOfNat(-n);
    } else {
      DigitsValueOfNat(n);
      assert NatToDecimal(n)[0] != '-';
    }
  }

  /** A string that reads as a number is that number's rendering. */
  lemma ToDecimalOfParse(s: string, n: int)
    requires ParseNumber(s) == Some(n)
    ensures ToDecimal(n) == s
  {
    if |s| > 1 && s[0] == '-' && IsCanonicalNat(s[1..]) && s[1..] != "0" {
      NatOfDigits(s[1..]);
      LeadingDigitPositive(s[1..]);
      assert s == "-" + s[1..];
    } else {
      NatOfDigits(s);
    }
  }

  // ---------------------------------------------------------------------
  // Sign tests
  // ---------------------------------------------------------------------

  /** `${N}` extends `-${number}`. */
  function IsNegative(n: int): (r: bool)
    ensures r <==> n < 0
  {
    var s := ToDecimal(n);
    |s| > 0 && s[0] == '-'
  }

  /** Strips the sign: `${N}` extends `-${infer A extends number}` ? A : N. */
  function Abs(n: int): (r: int)
    ensures r == if n < 0 then -n else n
  {
    var s := ToDecimal(n);
    if |s| > 0 && s[0] == '-' then
      ParseNatToDecimal(s[1..]);
      match ParseNumber(s[1..])
      case Some(a) => a
      case None => n
    else n
  }

  lemma ParseNatToDecimal(s: string)
    ensures forall m: nat :: s == NatToDecimal(m) ==> ParseNumber(s) == Some(m)
  {
    forall m: nat | s == NatToDecimal(m) ensures ParseNumber(s) == Some(m) {
      DigitsValueOfNat(m);
    }
  }

  // ---------------------------------------------------------------------
  // Step-wise addition and subtraction
  // ---------------------------------------------------------------------

  /**
   * `_Add`: move one unit at a time from Right to Left until Right is 0.
   * A negative Right is decremented away from 0 and leaves the finite
   * decrement table, giving `never`.
   */
  function UnsignedAdd(left: int, right: int): (r: Ty<int>)
    ensures right >= 0 ==> r == Val(left + right)
    ensures right < 0 ==> r == Never
    decreases if right > 0 then right else 0
  {
    if right == 0 then Val(left)
    else if right < 0 then Never
    else UnsignedAdd(left + 1, right - 1)
  }

  /**
   * `_Subtract` of two non-negative numbers: step both down together; when
   * Left reaches 0 first the answer is the negation of what is left of Right.
   */
  function UnsignedSubtract(left: nat, right: nat): (r: int)
    ensures r == left - right
  {
    if right == 0 then left
    else if left == 0 then 0 - right
    else UnsignedSubtract(left - 1, right - 1)
  }

  /** The `-${N}` rendering of a result: the negation, and `never` stays `never`. */
  function Negated(t: Ty<int>): (r: Ty<int>)
    ensures t.Never? <==> r.Never?
    ensures t.Val? ==> r.value == -t.value
  {
    match t
    case Never => Never
    case Val(v) => Val(-v)
  }

  /** `Subtract<Left, Right>` by the four sign cases. */
  function Subtract(left: int, right: int): (r: Ty<int>)
    ensures r == Val(left - right)
  {
    if IsNegative(left) then SubtractFromNegative(left, right)
    else SubtractFromNatural(left, right)
  }

  /** The two cases of `Subtract` with a negative Left. */
  function SubtractFromNegative(left: int, right: int): (r: Ty<int>)
    requires left < 0
    ensures r == Val(left - right)
  {
    if IsNegative(right) then Val(UnsignedSubtract(Abs(right), Abs(left)))
    else Negated(UnsignedAdd(Abs(left), right))
  }

  /** The two cases of `Subtract` with a non-negative Left. */
  function SubtractFromNatural(left: int, right: int): (r: Ty<int>)
    requires left >= 0
    ensures r == Val(left - right)
  {
    if IsNegative(right) then UnsignedAdd(left, Abs(right))
    else Val(UnsignedSubtract(left, right))
  }


  /**
   * `Add<Left, Right>` by the four sign cases.  With two negative operands
   * the source hands the still-negative Right to `_Add`, so the result is
   * `never` rather than the sum.
   */
  function Add(left: int, right: int): (r: Ty<int>)
    ensures left >= 0 || right >= 0 ==> r == Val(left + right)
    ensures left < 0 && right < 0 ==> r == Never
  {
    if IsNegative(left) then
      if IsNegative(right) then Negated(UnsignedAdd(Abs(left), right))
      else Val(UnsignedSubtract(right, Abs(left)))
    else if IsNegative(right) then Val(UnsignedSubtract(left, Abs(right)))
    else UnsignedAdd(left, right)
  }
}
