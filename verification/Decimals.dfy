/**
 Numbers as text: printing integers, zero padding, and reading integers and decimals, as
 Rust's formatting and `parse` do. A decimal text is first an exact number, a mantissa and the
 number of digits after the point, and then the float nearest to it.
 */
module Decimals {
  import opened Wrappers
  import opened Intervals
  import opened Arithmetic
  import opened Floats

  const MIN64 := -0x8000_0000_0000_0000
  const MAX64 := 0x7fff_ffff_ffff_ffff

  predicate Fits64(x: int) {
    MIN64 <= x <= MAX64
  }

  function Saturate(x: int): int {
    if x < MIN64 then MIN64 else if x > MAX64 then MAX64 else x
  }

  function CheckedAdd(a: int, b: int): Option<int> {
    if Fits64(a + b) then Some(a + b) else None
  }

  // ---------------------------------------------------------------------- digits

  predicate IsDigit(c: char) {
    '0' <= c <= '9'
  }

  predicate AllDigits(s: string) {
    forall i :: 0 <= i < |s| ==> IsDigit(s[i])
  }

  function DigitValue(c: char): (d: nat)
    requires IsDigit(c)
    ensures d < 10
  {
    c as int - '0' as int
  }

  function DigitChar(d: nat): (c: char)
    requires d < 10
    ensures IsDigit(c) && DigitValue(c) == d
  {
    (d + '0' as int) as char
  }

  function Digits(n: nat): string {
    if n < 10 then [DigitChar(n)] else Digits(n / 10) + [DigitChar(n % 10)]
  }

  function Number(s: string): nat
    requires AllDigits(s)
  {
    if s == [] then 0 else 10 * Number(s[..|s| - 1]) + DigitValue(s[|s| - 1])
  }

  function Pow10(k: nat): (p: nat)
    ensures p >= 1
  {
    if k == 0 then 1 else 10 * Pow10(k - 1)
  }

  lemma NumberSnoc(s: string, c: char)
    requires AllDigits(s) && IsDigit(c)
    ensures AllDigits(s + [c]) && Number(s + [c]) == 10 * Number(s) + DigitValue(c)
  {
    assert (s + [c])[..|s|] == s;
  }

  /** Printing then reading gives the number back. */
  lemma {:induction false} DigitsRead(n: nat)
    ensures Digits(n) != [] && AllDigits(Digits(n)) && Number(Digits(n)) == n
  {
    if n >= 10 {
      DigitsRead(n / 10);
      NumberSnoc(Digits(n / 10), DigitChar(n % 10));
    } else {
      assert Digits(n)[..0] == [];
    }
  }

  lemma {:induction false} NumberConcat(a: string, b: string)
    requires AllDigits(a) && AllDigits(b)
    ensures AllDigits(a + b) && Number(a + b) == Number(a) * Pow10(|b|) + Number(b)
  {
    if b == [] {
      assert a + b == a;
    } else {
      var m := |b| - 1;
      NumberConcat(a, b[..m]);
      assert (a + b)[..|a + b| - 1] == a + b[..m];
      Shift(Number(a), Pow10(m), Number(b[..m]));
    }
  }

  lemma Shift(x: int, p: int, y: int)
    ensures 10 * (x * p + y) == x * (10 * p) + 10 * y
  {
  }

  lemma {:induction false} NumberBound(s: string)
    requires AllDigits(s)
    ensures Number(s) < Pow10(|s|)
  {
    if s != [] { NumberBound(s[..|s| - 1]); }
  }

  function Zeros(k: nat): (s: string)
    ensures |s| == k && forall i :: 0 <= i < k ==> s[i] == '0'
  {
    seq(k, _ => '0')
  }

  lemma {:induction false} LeadingZeros(k: nat, s: string)
    requires AllDigits(s)
    ensures AllDigits(Zeros(k) + s) && Number(Zeros(k) + s) == Number(s)
  {
    if k == 0 {
      assert Zeros(k) + s == s;
    } else {
      LeadingZeros(k - 1, s);
      NumberConcat(Zeros(k), s);
      NumberConcat(Zeros(k - 1), s);
      ZeroDigits(k);
      ZeroDigits(k - 1);
    }
  }

  lemma {:induction false} ZeroDigits(k: nat)
    ensures AllDigits(Zeros(k)) && Number(Zeros(k)) == 0
  {
    if k > 0 {
      ZeroDigits(k - 1);
      assert Zeros(k)[..k - 1] == Zeros(k - 1);
    }
  }

  /** `{}` of an integer. */
  function Print(x: int): string {
    if x < 0 then "-" + Digits(-x) else Digits(x)
  }

  /** `{:0width}`: the sign counts toward the width. */
  function Padded(x: int, width: nat): string {
    var digits := Digits(if x < 0 then -x else x);
    var used := |digits| + if x < 0 then 1 else 0;
    (if x < 0 then "-" else "") + Zeros(if used < width then width - used else 0) + digits
  }

  lemma PaddedReads(n: nat, width: nat)
    ensures Padded(n, width) != [] && AllDigits(Padded(n, width)) && Number(Padded(n, width)) == n
    ensures |Padded(n, width)| >= width
  {
    DigitsRead(n);
    var digits := Digits(n);
    var k := if |digits| < width then width - |digits| else 0;
    LeadingZeros(k, digits);
    assert Padded(n, width) == Zeros(k) + digits;
  }

  lemma {:induction false} DigitsLength(n: nat, k: nat)
    requires n < Pow10(k) && k >= 1
    ensures |Digits(n)| <= k
  {
    if n >= 10 {
      assert k >= 2;
      assert n / 10 < Pow10(k - 1);
      DigitsLength(n / 10, k - 1);
    }
  }

  /** A number with at most `width` digits takes exactly `width` characters. */
  lemma PaddedLength(n: nat, width: nat)
    requires width >= 1 && n < Pow10(width)
    ensures |Padded(n, width)| == width
  {
    DigitsLength(n, width);
  }

  /** Without its trailing zeros. */
  function TrimZeros(s: string): string {
    if s != [] && s[|s| - 1] == '0' then TrimZeros(s[..|s| - 1]) else s
  }

  /** Trimming zeros divides by powers of ten. */
  lemma {:induction false} TrimZerosReads(s: string)
    requires AllDigits(s)
    ensures var t := TrimZeros(s);
            |t| <= |s| && AllDigits(t) && Number(s) == Number(t) * Pow10(|s| - |t|)
  {
    if s != [] && s[|s| - 1] == '0' {
      var i := s[..|s| - 1];
      TrimZerosReads(i);
      var t := TrimZeros(i);
      Shift(Number(t), Pow10(|i| - |t|), 0);
    }
  }

  // --------------------------------------------------------------------- reading

  function StripSign(s: string): (r: (bool, string)) {
    if s != [] && s[0] == '-' then (true, s[1..])
    else if s != [] && s[0] == '+' then (false, s[1..])
    else (false, s)
  }

  function Signed(negative: bool, n: int): int {
    if negative then -n else n
  }

  /** `parse::<i64>`. */
  function ParseInt(s: string): Option<int> {
    var (negative, body) := StripSign(s);
    if body == [] || !AllDigits(body) then None
    else
      var x := Signed(negative, Number(body));
      if Fits64(x) then Some(x) else None
  }

  datatype Decimal = Decimal(mantissa: int, scale: nat) {
    function Value(): real {
      mantissa as real / Pow10(scale) as real
    }
  }

  /** The first place `c` occurs at, or the length. */
  function IndexOf(s: string, c: char): (i: nat)
    ensures i <= |s| && (i < |s| ==> s[i] == c) && c !in s[..i]
  {
    if s == [] || s[0] == c then 0
    else
      var i := IndexOf(s[1..], c);
      assert s[..i + 1] == [s[0]] + s[1..][..i];
      i + 1
  }

  /** The number a plain decimal denotes. */
  function ParseDecimal(s: string): Option<Decimal> {
    var (negative, body) := StripSign(s);
    var dot := IndexOf(body, '.');
    var whole, frac := body[..dot], if dot < |body| then body[dot + 1..] else [];
    if (whole == [] && frac == []) || !AllDigits(whole) || !AllDigits(frac) then None
    else
      NumberConcat(whole, frac);
      Some(Decimal(Signed(negative, Number(whole + frac)), |frac|))
  }

  /** `parse::<f64>` on plain decimals. */
  function ParseFloat(s: string): Option<real> {
    match ParseDecimal(s)
    case None => None
    case Some(d) => Some(F64(d.Value()))
  }

  lemma NoDot(s: string)
    requires AllDigits(s)
    ensures IndexOf(s, '.') == |s|
  {
  }

  lemma {:induction false} IndexAt(a: string, c: char, b: string)
    requires c !in a
    ensures IndexOf(a + [c] + b, c) == |a|
  {
    if a != [] {
      IndexAt(a[1..], c, b);
      assert (a + [c] + b)[1..] == a[1..] + [c] + b;
      assert a[0] in a;
    }
  }

  lemma SignedDigitsRead(s: string, negative: bool, d: string)
    requires StripSign(s) == (negative, d) && d != [] && AllDigits(d)
    ensures ParseDecimal(s) == Some(Decimal(Signed(negative, Number(d)), 0))
    ensures Fits64(Signed(negative, Number(d))) ==> ParseInt(s) == Some(Signed(negative, Number(d)))
  {
    hide StripSign, Number, AllDigits;
    NoDot(d);
    assert d[..|d|] == d && d + [] == d;
    assert AllDigits([]) by { NoDigits(); }
  }

  lemma NoDigits()
    ensures AllDigits([])
  {
  }

  lemma WholeValue(x: int)
    ensures Decimal(x, 0).Value() == x as real
  {
    assert Pow10(0) == 1;
  }

  lemma StripsSign(d: string)
    requires d != [] && AllDigits(d)
    ensures StripSign("-" + d) == (true, d) && StripSign("+" + d) == (false, d) && StripSign(d) == (false, d)
  {
    assert ("-" + d)[1..] == d && ("+" + d)[1..] == d && IsDigit(d[0]);
  }

  /**
   A printed integer, with or without a plus sign, reads back as itself where an integer is
   asked for, and where a float is, as the nearest one.
   */
  lemma PrintReads(x: int, plus: bool)
    ensures var s := (if plus && x >= 0 then "+" else "") + Print(x);
            && ParseDecimal(s) == Some(Decimal(x, 0))
            && ParseFloat(s) == Some(Rounded(x) as real)
            && (Fits64(x) ==> ParseInt(s) == Some(x))
  {
    hide StripSign, Number, AllDigits, Digits, ParseDecimal, ParseInt, F64, Rounded;
    WholeRounds(x);
    WholeValue(x);
    var d := Digits(if x < 0 then -x else x);
    DigitsRead(if x < 0 then -x else x);
    StripsSign(d);
    if x < 0 {
      assert "" + ("-" + d) == "-" + d;
      SignedDigitsRead("-" + d, true, d);
    } else if plus {
      SignedDigitsRead("+" + d, false, d);
    } else {
      assert "" + d == d;
      SignedDigitsRead(d, false, d);
    }
  }

  /** Digits, a point and more digits read as the two together. */
  lemma PointReads(whole: string, frac: string)
    requires whole != [] && AllDigits(whole) && AllDigits(frac)
    ensures AllDigits(whole + frac)
    ensures ParseDecimal(whole + "." + frac) == Some(Decimal(Number(whole + frac), |frac|))
  {
    var s := whole + ['.'] + frac;
    assert s == whole + "." + frac;
    NumberConcat(whole, frac);
    assert IsDigit(s[0]);
    IndexAt(whole, '.', frac);
    assert s[..|whole|] == whole && s[|whole| + 1..] == frac;
  }
}
