// `convertQuaternary` (P1_ConvertQuaternary.cpp): an 8-digit base-4 numeral,
// written as a decimal int, is read either as 4's complement or as
// negaquaternary (base -4), and its value is written back as 9 digits in the
// other system, packed into a decimal int without leading zeros.
//
// Digit sequences are most significant first, as in the source's arrays.
// C++ `/` and `%` truncate toward zero; they are TruncDiv and TruncMod here.

module Quaternary {

  import opened Arith

  // ---------------------------------------------------------------------
  // C++ integer division

  /** C++ `a / b`: the quotient rounded toward zero. */
  function TruncDiv(a: int, b: int): int
    requires b != 0
  {
    if a >= 0 && b > 0 then a / b
    else if a < 0 && b < 0 then (-a) / (-b)
    else if a >= 0 then -(a / (-b))
    else -((-a) / b)
  }

  /** C++ `a % b`: the remainder that goes with TruncDiv. */
  function TruncMod(a: int, b: int): int
    requires b != 0
  {
    a - b * TruncDiv(a, b)
  }

  /** On non-negative operands the C++ operators agree with Euclidean ones. */
  lemma TruncAgreesOnNatural(a: int, b: int)
    requires 0 <= a && 0 < b
    ensures TruncDiv(a, b) == a / b
    ensures TruncMod(a, b) == a % b
  {
  }

  /** The C++ remainder is smaller than the divisor and takes the dividend's sign. */
  lemma TruncModSign(a: int, b: int)
    requires b != 0
    ensures Abs(TruncMod(a, b)) < Abs(b)
    ensures a >= 0 ==> TruncMod(a, b) >= 0
    ensures a <= 0 ==> TruncMod(a, b) <= 0
  {
    var q, m := Abs(a) / Abs(b), Abs(a) % Abs(b);
    var p := Abs(b) * q;
    assert Abs(a) == p + m;
    assert b * TruncDiv(a, b) == (if a < 0 then -p else p) by {
      if b < 0 {
        assert b * q == -p;
      } else {
        assert b * q == p;
      }
    }
    assert TruncMod(a, b) == (if a < 0 then -m else m);
  }

  // ---------------------------------------------------------------------
  // Positional notation

  function Pow(b: int, e: nat): (r: int)
    ensures b > 0 ==> r > 0
  {
    if e == 0 then 1 else b * Pow(b, e - 1)
  }

  /** The value of digits `ds` (most significant first) in base `b`. */
  function WeightedSum(ds: seq<int>, b: int): int
  {
    if |ds| == 0 then 0 else WeightedSum(ds[..|ds| - 1], b) * b + ds[|ds| - 1]
  }

  predicate DigitsBelow(ds: seq<int>, b: int)
  {
    forall i :: 0 <= i < |ds| ==> 0 <= ds[i] < b
  }

  /**
   * The `k` low digits of `x` in base `b`, most significant first, as a loop
   * that stores `x % b` in the last free cell and then sets `x /= b`
   * computes them.
   */
  function Digits(x: int, k: nat, b: int): (r: seq<int>)
    requires b != 0
    ensures |r| == k
    decreases k
  {
    if k == 0 then [] else Digits(TruncDiv(x, b), k - 1, b) + [TruncMod(x, b)]
  }

  /** Splitting off the leading digit instead of the last one. */
  lemma {:induction false} WeightedSumCons(d: int, rest: seq<int>, b: int)
    ensures WeightedSum([d] + rest, b) == d * Pow(b, |rest|) + WeightedSum(rest, b)
    decreases |rest|
  {
    if |rest| > 0 {
      var s := [d] + rest;
      var last := rest[|rest| - 1];
      assert s[..|s| - 1] == [d] + rest[..|rest| - 1];
      WeightedSumCons(d, rest[..|rest| - 1], b);
      calc {
        WeightedSum(s, b);
        WeightedSum([d] + rest[..|rest| - 1], b) * b + last;
        (d * Pow(b, |rest| - 1) + WeightedSum(rest[..|rest| - 1], b)) * b + last;
        { assert (d * Pow(b, |rest| - 1)) * b == d * Pow(b, |rest|); }
        d * Pow(b, |rest|) + WeightedSum(rest, b);
      }
    }
  }

  /** Digits in [0, b) make a value in [0, b^|ds|). */
  lemma {:induction false} WeightedSumBounds(ds: seq<int>, b: int)
    requires b >= 2 && DigitsBelow(ds, b)
    ensures 0 <= WeightedSum(ds, b) < Pow(b, |ds|)
  {
    if |ds| > 0 {
      var pre, d := ds[..|ds| - 1], ds[|ds| - 1];
      assert DigitsBelow(pre, b) by {
        forall i | 0 <= i < |pre|
          ensures 0 <= pre[i] < b
        {
          assert pre[i] == ds[i];
        }
      }
      WeightedSumBounds(pre, b);
      var w, p := WeightedSum(pre, b), Pow(b, |pre|);
      assert WeightedSum(ds, b) == w * b + d;
      MulAtMost(w, p - 1, b);
      assert (p - 1) * b == p * b - b;
      assert Pow(b, |ds|) == b * p == p * b;
      assert 0 <= w * b by { MulAtMost(0, w, b); }
      assert 0 <= WeightedSum(ds, b) < Pow(b, |ds|);
    }
  }

  lemma ModOfProduct(x: int, b: int, p: int)
    requires 0 <= x && 0 < b && 0 < p
    ensures x % (b * p) == ((x / b) % p) * b + x % b
  {
    var q, r0 := x / b, x % b;
    var q2, r1 := q / p, q % p;
    assert x == (q2 * b) * p + (r1 * b + r0) by {
      assert x == q * b + r0;
      assert q == q2 * p + r1;
      assert q * b == (q2 * p) * b + r1 * b;
    }
    assert r1 * b <= (p - 1) * b;
    DivModUnique(x, b * p, q2, r1 * b + r0);
  }

  /**
   * Extracting `k` digits of a non-negative `x` keeps exactly its low part:
   * the digits lie in [0, b) and read back as x mod b^k.
   */
  lemma {:induction false} DigitsValue(x: int, k: nat, b: int)
    requires 0 <= x && b >= 2
    ensures DigitsBelow(Digits(x, k, b), b)
    ensures WeightedSum(Digits(x, k, b), b) == x % Pow(b, k)
    decreases k
  {
    if k == 0 {
      DivModUnique(x, 1, x, 0);
    } else {
      var pre, d := Digits(x / b, k - 1, b), x % b;
      var p := Pow(b, k - 1);
      assert Digits(x, k, b) == pre + [d] by {
        TruncAgreesOnNatural(x, b);
      }
      DigitsValue(x / b, k - 1, b);
      assert WeightedSum(pre + [d], b) == WeightedSum(pre, b) * b + d by {
        assert (pre + [d])[..k - 1] == pre;
      }
      assert x % Pow(b, k) == WeightedSum(pre, b) * b + d by {
        ModOfProduct(x, b, p);
      }
    }
  }

  /** Reading digits and extracting them again gives the same digits. */
  lemma {:induction false} DigitsOfValue(ds: seq<int>, b: int)
    requires b >= 2 && DigitsBelow(ds, b)
    ensures Digits(WeightedSum(ds, b), |ds|, b) == ds
  {
    if |ds| > 0 {
      var pre, d := ds[..|ds| - 1], ds[|ds| - 1];
      var w := WeightedSum(pre, b);
      WeightedSumBounds(pre, b);
      DivModUnique(w * b + d, b, w, d);
      TruncAgreesOnNatural(w * b + d, b);
      DigitsOfValue(pre, b);
      assert ds == pre + [d];
    }
  }

  /** Reading a suffix of the digits: its first digit weighs b^(remaining length). */
  lemma WeightedSumFrom(ds: seq<int>, i: int, b: int)
    requires 0 <= i < |ds|
    ensures WeightedSum(ds[i..], b) == ds[i] * Pow(b, |ds| - 1 - i) + WeightedSum(ds[i + 1..], b)
  {
    assert ds[i..] == [ds[i]] + ds[i + 1..];
    WeightedSumCons(ds[i], ds[i + 1..], b);
  }

  /** With base-4 digits the leading digit is 2 or 3 exactly on the upper half. */
  lemma LeadingDigitHalf(ds: seq<int>)
    requires |ds| >= 1 && DigitsBelow(ds, 4)
    ensures ds[0] >= 2 <==> WeightedSum(ds, 4) >= 2 * Pow(4, |ds| - 1)
  {
    var rest := ds[1..];
    assert ds == [ds[0]] + rest;
    WeightedSumCons(ds[0], rest, 4);
    WeightedSumBounds(rest, 4);
    var p := Pow(4, |rest|);
    if ds[0] >= 2 {
      MulAtMost(2, ds[0], p);
    } else {
      MulAtMost(ds[0], 1, p);
    }
  }

  // ---------------------------------------------------------------------
  // The two readings of a numeral

  /** 4's complement: digits read in base 4, less 4^n when the leading digit is 2 or 3. */
  function ComplementValue(ds: seq<int>): int
  {
    WeightedSum(ds, 4) - (if |ds| > 0 && ds[0] >= 2 then Pow(4, |ds|) else 0)
  }

  /** An n-digit 4's-complement numeral lies in [-4^n/2, 4^n/2). */
  lemma ComplementRange(ds: seq<int>)
    requires |ds| >= 1 && DigitsBelow(ds, 4)
    ensures -2 * Pow(4, |ds| - 1) <= ComplementValue(ds) < 2 * Pow(4, |ds| - 1)
  {
    WeightedSumBounds(ds, 4);
    LeadingDigitHalf(ds);
  }

  /** The source's 8-digit case: from -32768 up to 32767. */
  lemma ComplementRange8(ds: seq<int>)
    requires |ds| == 8 && DigitsBelow(ds, 4)
    ensures -32768 <= ComplementValue(ds) <= 32767
  {
    ComplementRange(ds);
  }

  /** The least value of k negaquaternary digits (3 on every odd position). */
  function NegaMin(k: nat): int
  {
    if k == 0 then 0 else -4 * NegaMax(k - 1)
  }

  /** The greatest value of k negaquaternary digits (3 on every even position). */
  function NegaMax(k: nat): int
  {
    if k == 0 then 0 else 3 - 4 * NegaMin(k - 1)
  }

  /** Digits in 0..3 read in base -4 stay within the k-digit span. */
  lemma {:induction false} NegaRange(ds: seq<int>)
    requires DigitsBelow(ds, 4)
    ensures NegaMin(|ds|) <= WeightedSum(ds, -4) <= NegaMax(|ds|)
  {
    if |ds| > 0 {
      NegaRange(ds[..|ds| - 1]);
    }
  }

  // ---------------------------------------------------------------------
  // The two writings of a value

  /** 4's complement in 9 digits: a negative value is written as 4^9 + val. */
  function ToComplement(val: int): (r: seq<int>)
    ensures |r| == 9
  {
    Digits(if val >= 0 then val else Pow(4, 9) + val, 9, 4)
  }

  /** The remainder by -4, moved into 0..3 when C++ leaves it negative. */
  function NegaRem(x: int): int
  {
    var r := TruncMod(x, -4);
    if r < 0 then r + 4 else r
  }

  /** Negaquaternary in `k` digits, filled from the last as the source's loop does. */
  function NegaDigits(x: int, k: nat): (r: seq<int>)
    ensures |r| == k
    decreases k
  {
    if k == 0 then [] else NegaDigits(TruncDiv(x - NegaRem(x), -4), k - 1) + [NegaRem(x)]
  }

  /** The normalised remainder is a base-4 digit and divides out exactly. */
  lemma NegaRemExact(x: int)
    ensures 0 <= NegaRem(x) <= 3
    ensures x - NegaRem(x) == -4 * TruncDiv(x - NegaRem(x), -4)
  {
    var r := NegaRem(x);
    if x >= 0 {
      assert TruncMod(x, -4) == x % 4;
    } else {
      assert TruncMod(x, -4) == -((-x) % 4);
    }
    if x - r >= 0 {
      assert TruncDiv(x - r, -4) == -((x - r) / 4);
    } else {
      assert TruncDiv(x - r, -4) == (r - x) / 4;
    }
  }

  /** Every negaquaternary digit produced is in 0..3. */
  lemma {:induction false} NegaDigitsBelow(x: int, k: nat)
    ensures DigitsBelow(NegaDigits(x, k), 4)
    decreases k
  {
    if k > 0 {
      NegaRemExact(x);
      NegaDigitsBelow(TruncDiv(x - NegaRem(x), -4), k - 1);
    }
  }

  /** A value within the k-digit span is written exactly by k negaquaternary digits. */
  lemma {:induction false} NegaDigitsValue(x: int, k: nat)
    requires NegaMin(k) <= x <= NegaMax(k)
    ensures WeightedSum(NegaDigits(x, k), -4) == x
    decreases k
  {
    if k > 0 {
      var r := NegaRem(x);
      var y := TruncDiv(x - r, -4);
      NegaRemExact(x);
      assert NegaMin(k - 1) <= y <= NegaMax(k - 1);
      NegaDigitsValue(y, k - 1);
      assert NegaDigits(x, k)[..k - 1] == NegaDigits(y, k - 1);
    }
  }

  /**
   * The 9-digit 4's-complement writing: digits in 0..3 spelling
   * val (or 4^9 + val when negative) in base 4, and read back as 4's
   * complement they give `val` again whenever it fits in 9 digits.
   */
  lemma ComplementRoundTrip(val: int)
    requires -2 * Pow(4, 8) <= val < 2 * Pow(4, 8)
    ensures DigitsBelow(ToComplement(val), 4)
    ensures WeightedSum(ToComplement(val), 4) == (if val >= 0 then val else Pow(4, 9) + val)
    ensures ComplementValue(ToComplement(val)) == val
  {
    var u := if val >= 0 then val else Pow(4, 9) + val;
    DigitsValue(u, 9, 4);
    DivModUnique(u, Pow(4, 9), 0, u);
    LeadingDigitHalf(ToComplement(val));
  }

  // ---------------------------------------------------------------------
  // The whole conversion

  /** The value of the input numeral in the system `inputType` selects. */
  function InputValue(inputNum: int, inputType: bool): int
  {
    var digits := Digits(inputNum, 8, 10);
    if inputType then ComplementValue(digits) else WeightedSum(digits, -4)
  }

  /** The 9 output digits, in the other system. */
  function OutputDigits(inputNum: int, inputType: bool): (r: seq<int>)
    ensures |r| == 9
  {
    var val := InputValue(inputNum, inputType);
    if inputType then NegaDigits(val, 9) else ToComplement(val)
  }

  /** The output digits read as a decimal numeral. */
  function Convert(inputNum: int, inputType: bool): int
  {
    WeightedSum(OutputDigits(inputNum, inputType), 10)
  }

  /** The input is a numeral of base-4 digits: its 8 low decimal digits are all 0..3. */
  predicate QuaternaryNumeral(inputNum: int)
  {
    0 <= inputNum && DigitsBelow(Digits(inputNum, 8, 10), 4)
  }

  /** The 8 digits read from the input are its 8 low decimal digits. */
  lemma InputDigits(inputNum: int)
    requires 0 <= inputNum
    ensures DigitsBelow(Digits(inputNum, 8, 10), 10)
    ensures WeightedSum(Digits(inputNum, 8, 10), 10) == inputNum % 100000000
  {
    DigitsValue(inputNum, 8, 10);
  }

  /**
   * The conversion keeps the value: the output digits, read in the other
   * system, give the value of the input.
   */
  lemma ConvertKeepsValue(inputNum: int, inputType: bool)
    requires QuaternaryNumeral(inputNum)
    ensures DigitsBelow(OutputDigits(inputNum, inputType), 4)
    ensures inputType ==> WeightedSum(OutputDigits(inputNum, inputType), -4) == InputValue(inputNum, inputType)
    ensures !inputType ==> ComplementValue(OutputDigits(inputNum, inputType)) == InputValue(inputNum, inputType)
  {
    var digits := Digits(inputNum, 8, 10);
    var val := InputValue(inputNum, inputType);
    if inputType {
      ComplementRange8(digits);
      NegaDigitsValue(val, 9);
      NegaDigitsBelow(val, 9);
    } else {
      NegaRange(digits);
      ComplementRoundTrip(val);
    }
  }

  /**
   * The packed result keeps all 9 output digits: its own 9 low decimal
   * digits are the output digits, and it fits a 32-bit int.
   */
  lemma ConvertReadsBack(inputNum: int, inputType: bool)
    requires QuaternaryNumeral(inputNum)
    ensures Digits(Convert(inputNum, inputType), 9, 10) == OutputDigits(inputNum, inputType)
    ensures 0 <= Convert(inputNum, inputType) < 1000000000
  {
    var outd := OutputDigits(inputNum, inputType);
    ConvertKeepsValue(inputNum, inputType);
    assert DigitsBelow(outd, 10);
    DigitsOfValue(outd, 10);
    WeightedSumBounds(outd, 10);
  }

  predicate AllZero(ds: seq<int>)
  {
    forall i :: 0 <= i < |ds| ==> ds[i] == 0
  }

  /** The digits of zero are all zero, in every base and in base -4. */
  lemma {:induction false} ZeroDigits(x: int, k: nat, b: int)
    requires x == 0 && b != 0
    ensures AllZero(Digits(x, k, b))
    ensures AllZero(NegaDigits(x, k))
  {
    if k > 0 {
      assert TruncDiv(x, b) == 0 && TruncMod(x, b) == 0;
      assert NegaRem(x) == 0 && TruncDiv(x - NegaRem(x), -4) == 0;
      ZeroDigits(TruncDiv(x, b), k - 1, b);
    }
  }

  lemma {:induction false} ZeroWeightedSum(ds: seq<int>, b: int)
    requires AllZero(ds)
    ensures WeightedSum(ds, b) == 0
  {
    if |ds| > 0 {
      ZeroWeightedSum(ds[..|ds| - 1], b);
    }
  }

  /** The result is 0 exactly when the value converted is 0. */
  lemma ConvertZero(inputNum: int, inputType: bool)
    requires QuaternaryNumeral(inputNum)
    ensures Convert(inputNum, inputType) == 0 <==> InputValue(inputNum, inputType) == 0
  {
    if Convert(inputNum, inputType) == 0 {
      ZeroResultZeroValue(inputNum, inputType);
    }
    if InputValue(inputNum, inputType) == 0 {
      ZeroValueZeroResult(inputNum, inputType);
    }
  }

  lemma ZeroResultZeroValue(inputNum: int, inputType: bool)
    requires QuaternaryNumeral(inputNum) && Convert(inputNum, inputType) == 0
    ensures InputValue(inputNum, inputType) == 0
  {
    var outd := OutputDigits(inputNum, inputType);
    assert AllZero(outd) by {
      ConvertReadsBack(inputNum, inputType);
      ZeroDigits(Convert(inputNum, inputType), 9, 10);
    }
    ConvertKeepsValue(inputNum, inputType);
    ZeroWeightedSum(outd, 4);
    ZeroWeightedSum(outd, -4);
  }

  lemma ZeroValueZeroResult(inputNum: int, inputType: bool)
    requires InputValue(inputNum, inputType) == 0
    ensures Convert(inputNum, inputType) == 0
  {
    ZeroWritings(InputValue(inputNum, inputType));
    ZeroWeightedSum(OutputDigits(inputNum, inputType), 10);
  }

  /** Zero is written with zero digits in both systems. */
  lemma ZeroWritings(val: int)
    requires val == 0
    ensures AllZero(ToComplement(val)) && AllZero(NegaDigits(val, 9))
  {
    ZeroDigits(val, 9, 4);
  }

  // ---------------------------------------------------------------------
  // The imperative conversion, loop by loop

  /** Taking the last digit off a digit extraction, ahead of digits already written. */
  lemma DigitsPeel(x: int, k: nat, b: int, done: seq<int>)
    requires b != 0 && k >= 1
    ensures Digits(x, k, b) + done == Digits(TruncDiv(x, b), k - 1, b) + ([TruncMod(x, b)] + done)
  {
  }

  /** The same for the negaquaternary digits. */
  lemma NegaDigitsPeel(x: int, k: nat, done: seq<int>, rem: int, next: int)
    requires k >= 1 && rem == NegaRem(x) && next == TruncDiv(x - rem, -4)
    ensures NegaDigits(x, k) + done == NegaDigits(next, k - 1) + ([rem] + done)
  {
  }

  /** Writing cell i ahead of the suffix already written. */
  lemma WriteAhead(before: seq<int>, after: seq<int>, i: int, v: int, done: seq<int>)
    requires 0 <= i < |before| && after == before[i := v] && before[i + 1..] == done
    ensures after[i..] == [v] + done
  {
  }

  /** Fills `digits[7]` down to `digits[0]` with `temp % 10`, dividing `temp` by 10. */
  method ExtractDigits(inputNum: int) returns (digits: array<int>)
    ensures fresh(digits)
    ensures digits[..] == Digits(inputNum, 8, 10)
  {
    digits := new int[8](_ => 0);
    var temp := inputNum;
    var i := 7;
    ghost var done: seq<int> := [];
    while i >= 0
      invariant -1 <= i <= 7
      invariant digits[i + 1..] == done
      invariant Digits(temp, i + 1, 10) + done == Digits(inputNum, 8, 10)
    {
      DigitsPeel(temp, i + 1, 10, done);
      digits[i] := TruncMod(temp, 10);
      assert digits[i..] == [digits[i]] + done;
      done := [digits[i]] + done;
      temp := TruncDiv(temp, 10);
      i := i - 1;
    }
    assert digits[0..] == digits[..];
  }

  /** `pow4[i] = pow4[i - 1] * 4` for i up to 9. */
  method PowersOfFour() returns (pow4: array<int>)
    ensures fresh(pow4)
    ensures pow4.Length == 10
    ensures forall i :: 0 <= i < 10 ==> pow4[i] == Pow(4, i)
  {
    pow4 := new int[10](_ => 0);
    pow4[0] := 1;
    for i := 1 to 10
      invariant forall k :: 0 <= k < i ==> pow4[k] == Pow(4, k)
    {
      pow4[i] := pow4[i - 1] * 4;
    }
  }

  /** The 4's-complement reading: accumulate `digits[i] * 4^(7-i)`, then subtract 4^8 for a leading 2 or 3. */
  method DecodeComplement(digits: array<int>, pow4: array<int>) returns (val: int)
    requires digits.Length == 8 && pow4.Length == 10
    requires forall i :: 0 <= i < 10 ==> pow4[i] == Pow(4, i)
    ensures val == ComplementValue(digits[..])
  {
    var uval := 0;
    for i := 0 to 8
      invariant uval + WeightedSum(digits[i..], 4) == WeightedSum(digits[..], 4)
    {
      WeightedSumFrom(digits[..], i, 4);
      assert digits[..][i..] == digits[i..] && digits[..][i + 1..] == digits[i + 1..];
      uval := uval + digits[i] * pow4[7 - i];
    }
    assert digits[8..] == [];
    val := uval;
    if digits[0] >= 2 {
      val := val - pow4[8];
    }
  }

  /** The negaquaternary reading: from the last digit, weights 1, -4, 16, ... */
  method DecodeNega(digits: array<int>) returns (val: int)
    requires digits.Length == 8
    ensures val == WeightedSum(digits[..], -4)
  {
    ghost var ds := digits[..];
    val := 0;
    var pwr := 1;
    assert ds[8..] == [];
    var i := 7;
    while i >= 0
      invariant -1 <= i <= 7
      invariant val == WeightedSum(ds[i + 1..], -4)
      invariant pwr == Pow(-4, 7 - i)
    {
      NegaDecodeStep(ds, i, val, pwr);
      val := val + digits[i] * pwr;
      pwr := pwr * -4;
      i := i - 1;
    }
    assert ds[0..] == ds;
  }

  /** One step of the negaquaternary reading: the weight of the next digit and the next weight. */
  lemma NegaDecodeStep(ds: seq<int>, i: int, val: int, pwr: int)
    requires 0 <= i < |ds|
    requires val == WeightedSum(ds[i + 1..], -4) && pwr == Pow(-4, |ds| - 1 - i)
    ensures val + ds[i] * pwr == WeightedSum(ds[i..], -4)
    ensures pwr * -4 == Pow(-4, |ds| - i)
  {
    WeightedSumFrom(ds, i, -4);
  }

  /** Writes `val` (or 4^9 + val) into 9 base-4 digits, last digit first. */
  method EncodeComplement(val: int, pow4: array<int>) returns (outd: array<int>)
    requires pow4.Length == 10
    requires forall i :: 0 <= i < 10 ==> pow4[i] == Pow(4, i)
    ensures fresh(outd)
    ensures outd[..] == ToComplement(val)
  {
    outd := new int[9](_ => 0);
    var uval2 := if val >= 0 then val else pow4[9] + val;
    assert uval2 == if val >= 0 then val else Pow(4, 9) + val;
    var tempU := uval2;
    var i := 8;
    ghost var done: seq<int> := [];
    while i >= 0
      invariant -1 <= i <= 8
      invariant outd[i + 1..] == done
      invariant Digits(tempU, i + 1, 4) + done == Digits(uval2, 9, 4)
    {
      DigitsPeel(tempU, i + 1, 4, done);
      ghost var before := outd[..];
      var digit := TruncMod(tempU, 4);
      outd[i] := digit;
      WriteAhead(before, outd[..], i, digit, done);
      done := [digit] + done;
      tempU := TruncDiv(tempU, 4);
      i := i - 1;
    }
    ComplementOfUnsigned(val, uval2);
    assert outd[0..] == outd[..];
  }

  /** The digits written for `val` are those of its unsigned stand-in. */
  lemma ComplementOfUnsigned(val: int, uval2: int)
    requires uval2 == if val >= 0 then val else Pow(4, 9) + val
    ensures ToComplement(val) == Digits(uval2, 9, 4)
  {
  }

  /** Writes `val` into 9 negaquaternary digits, last digit first. */
  method EncodeNega(val: int) returns (outd: array<int>)
    ensures fresh(outd)
    ensures outd[..] == NegaDigits(val, 9)
  {
    outd := new int[9](_ => 0);
    var cval := val;
    var base, abase := -4, 4;
    var i := 8;
    ghost var done: seq<int> := [];
    while i >= 0
      invariant -1 <= i <= 8
      invariant outd[i + 1..] == done
      invariant NegaDigits(cval, i + 1) + done == NegaDigits(val, 9)
    {
      var rem := TruncMod(cval, base);
      if rem < 0 {
        rem := rem + abase;
      }
      NegaDigitsPeel(cval, i + 1, done, rem, TruncDiv(cval - rem, base));
      ghost var before := outd[..];
      outd[i] := rem;
      WriteAhead(before, outd[..], i, rem, done);
      done := [rem] + done;
      cval := TruncDiv(cval - rem, base);
      i := i - 1;
    }
    assert outd[0..] == outd[..];
  }

  /** Packs the digits into a decimal int, skipping leading zeros. */
  method Repack(outd: array<int>) returns (result: int)
    requires outd.Length == 9
    ensures result == WeightedSum(outd[..], 10)
  {
    result := 0;
    var started := false;
    for i := 0 to 9
      invariant result == WeightedSum(outd[..i], 10)
      invariant !started ==> result == 0
    {
      assert outd[..i + 1][..i] == outd[..i];
      if outd[i] != 0 || started {
        started := true;
        result := result * 10 + outd[i];
      }
    }
    assert outd[..9] == outd[..];
    if !started {
      result := 0;
    }
  }

  /** `convertQuaternary`. */
  method ConvertQuaternary(inputNum: int, inputType: bool) returns (result: int)
    ensures result == Convert(inputNum, inputType)
  {
    var digits := ExtractDigits(inputNum);
    var pow4 := PowersOfFour();
    var val;
    if inputType {
      val := DecodeComplement(digits, pow4);
    } else {
      val := DecodeNega(digits);
    }
    var outd;
    if !inputType {
      outd := EncodeComplement(val, pow4);
    } else {
      outd := EncodeNega(val);
    }
    result := Repack(outd);
  }
}
