/**
 * The few Python string operations the validator relies on: `str` of an
 * integer, `int` of a text (as `astype(int)` applies it), the slice `[::-1]`,
 * and the digit sum `sum([int(x) for x in str(z)])`.
 */
module Text {
  import opened Outcomes

  predicate IsDigit(c: char) { '0' <= c <= '9' }

  predicate AllDigits(s: string) { forall i :: 0 <= i < |s| ==> IsDigit(s[i]) }

  function DigitChar(d: nat): (c: char)
    requires d < 10
    ensures IsDigit(c) && c as int - '0' as int == d
  {
    (('0' as int) + d) as char
  }

  function DigitValue(c: char): nat
    requires IsDigit(c)
  {
    c as int - '0' as int
  }

  function Pow10(k: nat): (r: nat)
    ensures r >= 1
  {
    if k == 0 then 1 else 10 * Pow10(k - 1)
  }

  /** Decimal digits of a natural number, most significant first, without leading zeros. */
  function NatToString(n: nat): (s: string)
    ensures |s| >= 1 && AllDigits(s)
    ensures n == 0 <==> s == "0"
    ensures n >= 1 ==> s[0] != '0'
    decreases n
  {
    if n < 10 then [DigitChar(n)] else NatToString(n / 10) + [DigitChar(n % 10)]
  }

  /** Python's `str` of an `int`: a minus sign before the digits of a negative number. */
  function IntToString(z: int): (s: string)
    ensures z < 0 ==> |s| >= 2 && s[0] == '-' && AllDigits(s[1..]) && s[1] != '0'
    ensures z >= 0 ==> |s| >= 1 && AllDigits(s) && (|s| == 1 || s[0] != '0')
  {
    if z < 0 then "-" + NatToString(-z) else NatToString(z)
  }

  /** The value of a non-empty digit string, read most significant digit first. */
  function DigitsValue(s: string): nat
    requires AllDigits(s)
    decreases |s|
  {
    if s == [] then 0 else 10 * DigitsValue(s[..|s| - 1]) + DigitValue(s[|s| - 1])
  }

  /**
   * Python's `int` of a text as `astype(int)` applies it: an optional minus
   * sign followed by at least one decimal digit (leading zeros allowed);
   * anything else cannot be converted.
   */
  function ParseInt(s: string): (r: Option<int>)
    ensures r.Some? <==>
      (|s| >= 1 && AllDigits(s)) || (|s| >= 2 && s[0] == '-' && AllDigits(s[1..]))
  {
    if |s| >= 2 && s[0] == '-' && AllDigits(s[1..]) then Some(0 - DigitsValue(s[1..]) as int)
    else if |s| >= 1 && AllDigits(s) then Some(DigitsValue(s))
    else None
  }

  lemma {:induction false} DigitsOfNat(n: nat)
    ensures DigitsValue(NatToString(n)) == n
    decreases n
  {
    var s := NatToString(n);
    if n >= 10 {
      DigitsOfNat(n / 10);
      assert s[..|s| - 1] == NatToString(n / 10);
    }
  }

  lemma ParseIntOfDigits(t: string)
    requires |t| >= 1 && AllDigits(t)
    ensures ParseInt(t) == Some(DigitsValue(t) as int)
  {
    assert IsDigit(t[0]);
  }

  lemma ParseIntOfNegative(t: string)
    requires |t| >= 1 && AllDigits(t)
    ensures ParseInt("-" + t) == Some(0 - DigitsValue(t) as int)
  {
    var s := "-" + t;
    assert s[1..] == t;
  }

  /** Converting an integer to text and back yields the integer. */
  lemma ParseIntToString(z: int)
    ensures ParseInt(IntToString(z)) == Some(z)
  {
    if z < 0 {
      DigitsOfNat(-z);
      ParseIntOfNegative(NatToString(-z));
    } else {
      DigitsOfNat(z);
      ParseIntOfDigits(NatToString(z));
    }
  }

  /** A digit text without its leading zeros; a text of zeros keeps its last one. */
  function StripLeadingZeros(s: string): (r: string)
    ensures |r| <= |s| && r == s[|s| - |r|..]
    ensures forall i :: 0 <= i < |s| - |r| ==> s[i] == '0'
    ensures |s| >= 1 ==> |r| >= 1 && (|r| == 1 || r[0] != '0')
    decreases |s|
  {
    if |s| >= 2 && s[0] == '0' then StripLeadingZeros(s[1..]) else s
  }

  lemma {:induction false} DigitsValueLeadingZero(t: string)
    requires AllDigits(t)
    ensures DigitsValue("0" + t) == DigitsValue(t)
    decreases |t|
  {
    if t != [] {
      var u := "0" + t;
      assert u[..|u| - 1] == "0" + t[..|t| - 1];
      DigitsValueLeadingZero(t[..|t| - 1]);
    }
  }

  lemma {:induction false} DigitsValuePositive(p: string)
    requires |p| >= 1 && AllDigits(p) && p[0] != '0'
    ensures DigitsValue(p) >= 1
    decreases |p|
  {
    if |p| >= 2 {
      DigitsValuePositive(p[..|p| - 1]);
    }
  }

  /** Digit text without a leading zero is exactly what `str` prints for its value. */
  lemma {:induction false} CanonicalDigits(s: string)
    requires |s| >= 1 && AllDigits(s) && (|s| == 1 || s[0] != '0')
    ensures NatToString(DigitsValue(s)) == s
    decreases |s|
  {
    if |s| >= 2 {
      var p := s[..|s| - 1];
      CanonicalDigits(p);
      DigitsValuePositive(p);
      var n := DigitsValue(s);
      assert n / 10 == DigitsValue(p) && n % 10 == DigitValue(s[|s| - 1]);
      assert s == p + [s[|s| - 1]];
    }
  }

  /**
   * `int` then `str` of a digit text gives the text back without its leading
   * zeros: this is how a zipcode written with a leading zero loses a digit.
   */
  lemma {:induction false} ParseIntDropsLeadingZeros(s: string)
    requires |s| >= 1 && AllDigits(s)
    ensures ParseInt(s).Some? && ParseInt(s).value >= 0
    ensures IntToString(ParseInt(s).value) == StripLeadingZeros(s)
    decreases |s|
  {
    ParseIntOfDigits(s);
    if |s| >= 2 && s[0] == '0' {
      var t := s[1..];
      assert s == "0" + t;
      DigitsValueLeadingZero(t);
      ParseIntDropsLeadingZeros(t);
      ParseIntOfDigits(t);
      assert StripLeadingZeros(s) == StripLeadingZeros(t);
    } else {
      CanonicalDigits(s);
    }
  }

  /** A digit text that starts with a zero prints back shorter than it was written. */
  lemma LeadingZeroShortens(s: string)
    requires |s| >= 2 && AllDigits(s) && s[0] == '0'
    ensures ParseInt(s).Some? && |IntToString(ParseInt(s).value)| < |s|
  {
    ParseIntDropsLeadingZeros(s);
  }

  /** The number of decimal digits of `n` is at most `k` exactly when `n < 10^k`. */
  lemma {:induction false} NatToStringLength(n: nat, k: nat)
    requires k >= 1
    ensures |NatToString(n)| <= k <==> n < Pow10(k)
    decreases n
  {
    if n >= 10 {
      if k == 1 {
        assert Pow10(1) == 10;
      } else {
        NatToStringLength(n / 10, k - 1);
      }
    } else {
      assert Pow10(k) >= 10 by { PowMonotone(1, k); }
    }
  }

  lemma {:induction false} PowMonotone(j: nat, k: nat)
    requires j <= k
    ensures Pow10(j) <= Pow10(k)
    decreases k
  {
    if j < k { PowMonotone(j, k - 1); }
  }

  /** `|str(n)| == k` exactly when `10^(k-1) <= n < 10^k`, for a positive number. */
  lemma NatToStringLengthIs(n: nat, k: nat)
    requires k >= 2
    ensures |NatToString(n)| == k <==> Pow10(k - 1) <= n < Pow10(k)
  {
    NatToStringLength(n, k);
    NatToStringLength(n, k - 1);
  }

  /** Reverse a string character by character (the slice `[::-1]`). */
  function Reverse(s: string): (r: string)
    ensures |r| == |s|
    ensures forall i :: 0 <= i < |s| ==> r[i] == s[|s| - 1 - i]
    decreases |s|
  {
    if s == [] then [] else Reverse(s[1..]) + [s[0]]
  }

  /** Reversing twice restores the string. */
  lemma ReverseReverse(s: string)
    ensures Reverse(Reverse(s)) == s
  {
  }

  /**
   * `sum([int(x) for x in s])`: the sum of the digits of `s`, or `None` when
   * some character is not a digit (Python raises `ValueError` there).
   */
  function TextDigitSum(s: string): (r: Option<nat>)
    ensures r.Some? <==> AllDigits(s)
    decreases |s|
  {
    if s == [] then Some(0)
    else
      var last := s[|s| - 1];
      match TextDigitSum(s[..|s| - 1])
      case None => None
      case Some(t) =>
        if IsDigit(last) then
          assert AllDigits(s) by {
            forall i | 0 <= i < |s| ensures IsDigit(s[i]) {
              if i < |s| - 1 { assert s[i] == s[..|s| - 1][i]; }
            }
          }
          Some(t + DigitValue(last))
        else None
  }

  /** Arithmetic digit sum, independent of any text. */
  function DigitSum(n: nat): nat
    decreases n
  {
    if n < 10 then n else DigitSum(n / 10) + n % 10
  }

  /**
   * Summing the characters of `str(z)` agrees with the arithmetic digit sum
   * for a non-negative `z`, and raises for a negative `z` (the `int('-')`).
   */
  lemma {:induction false} TextDigitSumOfInt(z: int)
    ensures TextDigitSum(IntToString(z)) == if z < 0 then None else Some(DigitSum(z))
  {
    if z < 0 {
      assert !IsDigit(IntToString(z)[0]);
    } else {
      TextDigitSumOfNat(z);
    }
  }

  lemma {:induction false} TextDigitSumOfNat(n: nat)
    ensures TextDigitSum(NatToString(n)) == Some(DigitSum(n))
    decreases n
  {
    var s := NatToString(n);
    if n >= 10 {
      TextDigitSumOfNat(n / 10);
      assert s[..|s| - 1] == NatToString(n / 10);
    }
  }
}
