/**
 * Decimal text of integers: Go's `%d`/`%v` formatting (fmt) and `strconv.Atoi`
 * on a 64-bit platform.
 */
module Decimal {
  import opened Wrappers
  import opened Types

  const MaxInt64: int := 0x7FFF_FFFF_FFFF_FFFF
  const MinInt64: int := -0x8000_0000_0000_0000

  /** The decimal digits of n, most significant first, with no leading zero. */
  function Digits(n: nat): (ds: seq<nat>)
    ensures 1 <= |ds| && (|ds| > 1 ==> ds[0] != 0)
    ensures forall i :: 0 <= i < |ds| ==> ds[i] < 10
  {
    if n < 10 then [n] else Digits(n / 10) + [n % 10]
  }

  /** The number a digit sequence denotes, most significant digit first. */
  function Value(ds: seq<nat>): nat
  {
    if ds == [] then 0 else Value(ds[..|ds| - 1]) * 10 + ds[|ds| - 1]
  }

  lemma {:induction false} ValueOfDigits(n: nat)
    ensures Value(Digits(n)) == n
  {
    if n >= 10 {
      var ds := Digits(n / 10) + [n % 10];
      assert ds[..|ds| - 1] == Digits(n / 10);
      ValueOfDigits(n / 10);
    }
  }

  predicate IsDigit(b: Byte)
  {
    Zero <= b <= Nine
  }

  predicate AllDigits(s: Bytes)
  {
    forall i :: 0 <= i < |s| ==> IsDigit(s[i])
  }

  /** The ASCII bytes of a digit sequence. */
  function DigitBytes(ds: seq<nat>): (s: Bytes)
    requires forall i :: 0 <= i < |ds| ==> ds[i] < 10
    ensures |s| == |ds| && AllDigits(s)
    ensures forall i :: 0 <= i < |ds| ==> s[i] == Zero + ds[i]
  {
    if ds == [] then [] else DigitBytes(ds[..|ds| - 1]) + [Zero + ds[|ds| - 1]]
  }

  /** The number an all-digit byte string denotes. */
  function BytesValue(s: Bytes): nat
    requires AllDigits(s)
  {
    if s == [] then 0 else BytesValue(s[..|s| - 1]) * 10 + (s[|s| - 1] - Zero)
  }

  lemma {:induction false} BytesValueOfDigits(ds: seq<nat>)
    requires forall i :: 0 <= i < |ds| ==> ds[i] < 10
    ensures BytesValue(DigitBytes(ds)) == Value(ds)
    decreases |ds|
  {
    if ds != [] {
      var s := DigitBytes(ds);
      assert s[..|s| - 1] == DigitBytes(ds[..|ds| - 1]);
      BytesValueOfDigits(ds[..|ds| - 1]);
    }
  }

  /**
   * `fmt.Fprintf("%d", n)` for a non-negative n: digits without a leading
   * zero (`AtoiOfDecimal` shows they denote n).
   */
  function DecimalBytes(n: nat): (s: Bytes)
    ensures 1 <= |s| && AllDigits(s)
    ensures |s| > 1 ==> s[0] != Zero
  {
    DigitBytes(Digits(n))
  }

  /** `fmt.Sprintf("%v", x)` for an int: an optional minus sign, then the digits. */
  function IntText(x: int): (t: string)
    ensures |t| >= 1
    ensures t[0] == '-' <==> x < 0
  {
    (if x < 0 then "-" else "") + DigitChars(Digits(if x < 0 then -x else x))
  }

  function DigitChars(ds: seq<nat>): (t: string)
    requires forall i :: 0 <= i < |ds| ==> ds[i] < 10
    ensures |t| == |ds|
    ensures forall i :: 0 <= i < |ds| ==> t[i] == ('0' as int + ds[i]) as char
  {
    if ds == [] then [] else DigitChars(ds[..|ds| - 1]) + [('0' as int + ds[|ds| - 1]) as char]
  }

  lemma {:induction false} DigitCharsInjective(a: seq<nat>, b: seq<nat>)
    requires forall i :: 0 <= i < |a| ==> a[i] < 10
    requires forall i :: 0 <= i < |b| ==> b[i] < 10
    requires DigitChars(a) == DigitChars(b)
    ensures a == b
  {
    assert |a| == |b|;
    forall i | 0 <= i < |a|
      ensures a[i] == b[i]
    {
      assert DigitChars(a)[i] == DigitChars(b)[i];
    }
  }

  /** The text of an int determines the int. */
  lemma {:induction false} IntTextInjective(x: int, y: int)
    requires IntText(x) == IntText(y)
    ensures x == y
  {
    var mx: nat, my: nat := if x < 0 then -x else x, if y < 0 then -y else y;
    var tx, ty := DigitChars(Digits(mx)), DigitChars(Digits(my));
    assert tx[0] != '-' && ty[0] != '-';
    assert (x < 0) == (y < 0) by {
      assert IntText(x)[0] == '-' <==> x < 0;
      assert IntText(y)[0] == '-' <==> y < 0;
    }
    if x < 0 {
      assert IntText(x) == "-" + tx && IntText(y) == "-" + ty;
      assert tx == IntText(x)[1..] && ty == IntText(y)[1..];
    } else {
      assert IntText(x) == tx && IntText(y) == ty;
    }
    DigitCharsInjective(Digits(mx), Digits(my));
    ValueOfDigits(mx);
    ValueOfDigits(my);
  }

  /**
   * `strconv.Atoi(s)` with a 64-bit int: an optional sign, then one or more
   * decimal digits (leading zeros allowed, nothing else), and a value that fits
   * in int64. Go distinguishes a syntax error from a range error; both make the
   * caller fail the same way, so both are `BadCount` here.
   */
  function Atoi(s: Bytes): (r: Result<int, Error>)
    ensures r.Success? ==> MinInt64 <= r.value <= MaxInt64
    ensures r.Failure? ==> r.error == BadCount(s)
    ensures s == [] || s == [Plus] || s == [Minus] ==> r.Failure?
  {
    var signed := |s| > 0 && (s[0] == Plus || s[0] == Minus);
    var body := if signed then s[1..] else s;
    if body == [] || !AllDigits(body) then Failure(BadCount(s))
    else
      var v: int := if signed && s[0] == Minus then -(BytesValue(body) as int) else BytesValue(body);
      if MinInt64 <= v <= MaxInt64 then Success(v) else Failure(BadCount(s))
  }

  /** What `%d` writes for a value Atoi accepts is parsed back to that value. */
  lemma {:induction false} AtoiOfDecimal(n: nat)
    requires n <= MaxInt64
    ensures Atoi(DecimalBytes(n)) == Success(n)
  {
    BytesValueOfDigits(Digits(n));
    ValueOfDigits(n);
    AtoiAcceptsDigits(DecimalBytes(n));
  }

  /** `Atoi` accepts exactly the well-formed decimal integers of int64. */
  lemma {:induction false} AtoiAcceptsDigits(s: Bytes)
    requires s != [] && AllDigits(s)
    ensures Atoi(s).Success? <==> BytesValue(s) <= MaxInt64
    ensures Atoi(s).Success? ==> Atoi(s).value == BytesValue(s)
  {
    assert IsDigit(s[0]);
  }

  /** A byte that is neither a digit nor a leading sign makes `Atoi` fail: `1a`, `abc`, `1-` are rejected. */
  lemma {:induction false} AtoiRejectsNonDigit(s: Bytes, i: nat)
    requires i < |s| && !IsDigit(s[i])
    requires i == 0 ==> s[0] != Plus && s[0] != Minus
    ensures Atoi(s).Failure?
  {
    if i > 0 && (s[0] == Plus || s[0] == Minus) {
      assert s[1..][i - 1] == s[i];
    }
  }

  /**
   * A sign and digits: `+` keeps the value and `-` negates it, and the value
   * must lie in int64, which reaches one further below zero than above.
   */
  lemma {:induction false} AtoiSigned(d: Bytes)
    requires d != [] && AllDigits(d)
    ensures Atoi([Minus] + d).Success? <==> BytesValue(d) <= MaxInt64 + 1
    ensures Atoi([Minus] + d).Success? ==> Atoi([Minus] + d).value == -(BytesValue(d) as int)
    ensures Atoi([Plus] + d).Success? <==> BytesValue(d) <= MaxInt64
    ensures Atoi([Plus] + d).Success? ==> Atoi([Plus] + d).value == BytesValue(d)
  {
    assert ([Minus] + d)[1..] == d && ([Plus] + d)[1..] == d;
  }
}
