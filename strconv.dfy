/**
 * The two parsers of Go's `strconv` package that the decoder tries on each
 * decoded value, with the formatters that invert them.
 *
 * `Atoi` on a 64-bit platform: an optional `+` or `-`, then one or more
 * ASCII digits (leading zeros allowed, no underscores, no whitespace, no
 * base prefix), and the value must lie in the signed 64-bit range; out of
 * range is an error (`ErrRange`) just like a syntax error.
 *
 * `ParseBool`: exactly `1 t T TRUE true True` for true and
 * `0 f F FALSE false False` for false.
 */
module Strconv {
  import opened Wrappers
  import opened Bytes

  const MinInt64: int := -0x8000_0000_0000_0000
  const MaxInt64: int := 0x7fff_ffff_ffff_ffff

  const Plus: byte := 43
  const Minus: byte := 45

  predicate AllDigits(s: seq<byte>)
  {
    forall i :: 0 <= i < |s| ==> IsDigit(s[i])
  }

  /** The value of a run of decimal digits, most significant first. */
  function DecimalValue(ds: seq<byte>): nat
    requires AllDigits(ds)
    decreases |ds|
  {
    if |ds| == 0 then 0
    else DecimalValue(ds[..|ds| - 1]) * 10 + (ds[|ds| - 1] - 48)
  }

  /** The digits after an optional leading sign. */
  function Unsigned(s: seq<byte>): seq<byte>
  {
    if |s| > 0 && (s[0] == Plus || s[0] == Minus) then s[1..] else s
  }

  /** `strconv.Atoi`: `None` stands for both `ErrSyntax` and `ErrRange`. */
  function Atoi(s: seq<byte>): (r: Option<int>)
    ensures r.Some? ==> MinInt64 <= r.value <= MaxInt64
    ensures r.Some? ==> |Unsigned(s)| > 0 && AllDigits(Unsigned(s))
    ensures r.Some? ==> (r.value < 0 ==> s[0] == Minus)
  {
    var digits := Unsigned(s);
    if |digits| == 0 || !AllDigits(digits) then None
    else
      var n: int := if s[0] == Minus then -(DecimalValue(digits) as int) else DecimalValue(digits);
      if MinInt64 <= n <= MaxInt64 then Some(n) else None
  }

  /** The shortest decimal digits of `n`, as `strconv.Itoa` writes them. */
  function Digits(n: nat): (r: seq<byte>)
    ensures |r| > 0 && AllDigits(r)
    decreases n
  {
    if n < 10 then [n + 48] else Digits(n / 10) + [n % 10 + 48]
  }

  /** `strconv.Itoa`. */
  function Itoa(n: int): seq<byte>
  {
    if n < 0 then [Minus] + Digits(-n) else Digits(n)
  }

  lemma {:induction false} DecimalValueDigits(n: nat)
    ensures DecimalValue(Digits(n)) == n
    decreases n
  {
    if n >= 10 {
      var d := Digits(n);
      assert d[..|d| - 1] == Digits(n / 10);
      DecimalValueDigits(n / 10);
    }
  }

  /** Every 64-bit integer survives `Itoa` followed by `Atoi`. */
  lemma AtoiItoa(n: int)
    requires MinInt64 <= n <= MaxInt64
    ensures Atoi(Itoa(n)) == Some(n)
  {
    if n < 0 {
      DecimalValueDigits(-n);
      AtoiDigitRun([Minus], Digits(-n), -n);
    } else {
      DecimalValueDigits(n);
      AtoiDigitRun([], Digits(n), n);
      assert [] + Digits(n) == Digits(n);
    }
  }

  function Zeros(k: nat): (r: seq<byte>)
    ensures |r| == k && AllDigits(r)
  {
    seq(k, _ => 48)
  }

  lemma {:induction false} DecimalValueLeadingZeros(k: nat, ds: seq<byte>)
    requires AllDigits(ds)
    ensures DecimalValue(Zeros(k) + ds) == DecimalValue(ds)
    decreases |ds|
  {
    if |ds| == 0 {
      ZerosValue(k);
      assert Zeros(k) + ds == Zeros(k);
    } else {
      var init := ds[..|ds| - 1];
      assert (Zeros(k) + ds)[..|Zeros(k) + ds| - 1] == Zeros(k) + init;
      DecimalValueLeadingZeros(k, init);
    }
  }

  lemma {:induction false} ZerosValue(k: nat)
    ensures DecimalValue(Zeros(k)) == 0
    decreases k
  {
    if k > 0 {
      assert Zeros(k)[..k - 1] == Zeros(k - 1);
      ZerosValue(k - 1);
    }
  }

  lemma AllDigitsAppend(a: seq<byte>, b: seq<byte>)
    requires AllDigits(a) && AllDigits(b)
    ensures AllDigits(a + b)
  {
  }

  /** `Atoi` of a sign (or none) followed by digits: the signed value, if it fits. */
  lemma AtoiSigned(sign: seq<byte>, u: seq<byte>)
    requires sign == [] || sign == [Plus] || sign == [Minus]
    requires |u| > 0 && AllDigits(u)
    ensures sign != [Minus] ==>
      Atoi(sign + u) == if DecimalValue(u) <= MaxInt64 then Some(DecimalValue(u) as int) else None
    ensures sign == [Minus] ==>
      Atoi(sign + u) == if DecimalValue(u) <= -MinInt64 then Some(-(DecimalValue(u) as int)) else None
  {
    var s := sign + u;
    if sign == [] {
      assert s == u;
      assert !IsDigit(Plus) && !IsDigit(Minus);
      assert Unsigned(s) == u;
    } else {
      assert s[0] == sign[0] && s[1..] == u;
      assert Unsigned(s) == u;
    }
  }

  /**
   * Leading zeros do not change the value, with or without a sign:
   * "007" gives 7 and "-007" gives -7.
   */
  lemma AtoiLeadingZeros(sign: seq<byte>, k: nat, n: nat)
    requires sign == [] || sign == [Plus] || sign == [Minus]
    requires if sign == [Minus] then n <= -MinInt64 else n <= MaxInt64
    ensures Atoi(sign + Zeros(k) + Digits(n)) == Some(if sign == [Minus] then -(n as int) else n)
  {
    var u := Zeros(k) + Digits(n);
    assert sign + Zeros(k) + Digits(n) == sign + u;
    PaddedDigits(k, n);
    AtoiDigitRun(sign, u, n);
  }

  /** `Atoi` of a sign (or none) followed by digits worth `n`, when the signed value fits. */
  lemma AtoiDigitRun(sign: seq<byte>, u: seq<byte>, n: nat)
    requires sign == [] || sign == [Plus] || sign == [Minus]
    requires |u| > 0 && AllDigits(u) && DecimalValue(u) == n
    requires if sign == [Minus] then n <= -MinInt64 else n <= MaxInt64
    ensures Atoi(sign + u) == Some(if sign == [Minus] then -(n as int) else n)
  {
    AtoiSigned(sign, u);
  }

  /** Zeros in front of the digits of `n` keep them a non-empty digit run worth `n`. */
  lemma PaddedDigits(k: nat, n: nat)
    ensures |Zeros(k) + Digits(n)| > 0 && AllDigits(Zeros(k) + Digits(n))
    ensures DecimalValue(Zeros(k) + Digits(n)) == n
  {
    AllDigitsAppend(Zeros(k), Digits(n));
    DecimalValueLeadingZeros(k, Digits(n));
    DecimalValueDigits(n);
  }

  /**
   * A run of digits, signed or not, whose value falls outside the 64-bit
   * range is not an integer for `Atoi`.
   */
  lemma AtoiRejectsOverflow(sign: seq<byte>, ds: seq<byte>)
    requires sign == [] || sign == [Plus] || sign == [Minus]
    requires |ds| > 0 && AllDigits(ds)
    requires DecimalValue(ds) > (if sign == [Minus] then -MinInt64 else MaxInt64)
    ensures Atoi(sign + ds) == None
  {
    AtoiSigned(sign, ds);
  }

  /** The bytes of "1", "t", "T", "TRUE", "true" and "True". */
  const TrueLiterals: set<seq<byte>> :=
    {[49], [116], [84], [84, 82, 85, 69], [116, 114, 117, 101], [84, 114, 117, 101]}
  /** The bytes of "0", "f", "F", "FALSE", "false" and "False". */
  const FalseLiterals: set<seq<byte>> :=
    {[48], [102], [70], [70, 65, 76, 83, 69], [102, 97, 108, 115, 101], [70, 97, 108, 115, 101]}

  /** `strconv.ParseBool`: `None` stands for `ErrSyntax`. */
  function ParseBool(s: seq<byte>): (r: Option<bool>)
    ensures r == Some(true) <==> s in TrueLiterals
    ensures r == Some(false) <==> s in FalseLiterals
    ensures r.Some? ==> 1 <= |s| <= 5
  {
    if s in TrueLiterals then Some(true)
    else if s in FalseLiterals then Some(false)
    else None
  }

  /** `strconv.FormatBool`. */
  function FormatBool(b: bool): seq<byte>
  {
    if b then [116, 114, 117, 101] else [102, 97, 108, 115, 101]
  }

  lemma ParseBoolFormatBool(b: bool)
    ensures ParseBool(FormatBool(b)) == Some(b)
  {
  }
}
