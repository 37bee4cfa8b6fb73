/** Fixed-point output of heights: `'{:.4f}'.format(x)` and `round(x, 4)`, on exact reals.
    Both round `x * 10^4` to the nearest integer, ties to the even neighbour. */
module Format {
  import opened Base
  import opened Text

  /** The integer nearest to `x`; a tie goes to the even one. */
  function RoundHalfEven(x: real): (r: int)
    ensures Abs(x - r as real) <= 0.5
    ensures Abs(x - r as real) == 0.5 ==> r % 2 == 0
  {
    var f := x.Floor;
    var d := x - f as real;
    if d < 0.5 then f
    else if d > 0.5 then f + 1
    else if f % 2 == 0 then f else f + 1
  }

  /** Rounding to even is symmetric about zero. */
  lemma RoundHalfEvenNegate(x: real)
    ensures RoundHalfEven(-x) == -RoundHalfEven(x)
  {
    var r, s := RoundHalfEven(x), RoundHalfEven(-x);
    if Abs(x - r as real) < 0.5 {
      assert Abs(-x - (-r) as real) < 0.5;
    } else {
      assert (-r) % 2 == 0;
    }
  }

  /** An integer is its own rounding. */
  lemma RoundHalfEvenInt(n: int)
    ensures RoundHalfEven(n as real) == n
  {
  }

  /** `round(x, 4)`. */
  function Round4(x: real): real
  {
    RoundHalfEven(x * 10000.0) as real / 10000.0
  }

  /** Rounding to even never reverses the order of two values. */
  lemma RoundHalfEvenMono(x: real, y: real)
    requires x <= y
    ensures RoundHalfEven(x) <= RoundHalfEven(y)
  {
    if x.Floor < y.Floor {
      assert RoundHalfEven(x) <= x.Floor + 1 <= y.Floor <= RoundHalfEven(y);
    }
  }

  /** `round(x, 4)` never reverses the order of two values. */
  lemma Round4Mono(x: real, y: real)
    requires x <= y
    ensures Round4(x) <= Round4(y)
  {
    RoundHalfEvenMono(x * 10000.0, y * 10000.0);
  }

  /** Rounding an already rounded value changes nothing. */
  lemma Round4Twice(x: real)
    ensures Round4(Round4(x)) == Round4(x)
  {
    var n := RoundHalfEven(x * 10000.0);
    assert Round4(x) * 10000.0 == n as real;
    RoundHalfEvenInt(n);
  }

  /** The four fractional digits of `0 <= m < 10000`, zero-padded on the left. */
  function Digits4(m: nat): (s: string)
    requires m < 10000
    ensures |s| == 4 && AllDigits(s) && DigitsValue(s) == m
  {
    var a, r1 := m / 1000, m % 1000;
    var b, r2 := r1 / 100, r1 % 100;
    var c, d := r2 / 10, r2 % 10;
    var s := [DigitChar(a), DigitChar(b), DigitChar(c), DigitChar(d)];
    assert s[..3][..2][..1] == [DigitChar(a)] && s[..3][..2] == s[..2] && s[..2][..1] == [DigitChar(a)];
    assert DigitsValue(s[..1]) == a;
    assert DigitsValue(s[..2]) == 10 * a + b;
    assert DigitsValue(s[..3]) == 100 * a + 10 * b + c;
    s
  }

  /** The count of ten-thousandths that `'{:.4f}'` writes for `|x|`. */
  function Units4(x: real): nat
  {
    var m := RoundHalfEven(Abs(x) * 10000.0);
    if m < 0 then 0 else m
  }

  /** `m` ten-thousandths written as the integer part, a point and exactly four decimals. */
  function UnsignedText(m: nat): (u: string)
    ensures u != [] && IsDigit(u[0]) && NoSpace(u)
    ensures forall j :: 0 <= j < |u| ==> u[j] != '*'
  {
    var ip, fp := NatToString(m / 10000), Digits4(m % 10000);
    assert forall j :: 0 <= j < |ip| ==> IsDigit(ip[j]);
    ip + "." + fp
  }

  /** `'{:.4f}'.format(x)`: a sign for negative `x` (also when the rounded value is zero), the
      integer part and exactly four decimals. */
  function Fixed4(x: real): (s: string)
    ensures s != [] && NoSpace(s)
    ensures forall j :: 0 <= j < |s| ==> s[j] != '*'
  {
    (if x < 0.0 then "-" else "") + UnsignedText(Units4(x))
  }

  /** The unsigned part of a written height reads back as its value. */
  lemma {:induction false} UnsignedFixed(m: nat)
    ensures UnsignedDecimal(UnsignedText(m)) == Some(m as real / 10000.0)
  {
    var ip, fp := NatToString(m / 10000), Digits4(m % 10000);
    var u := ip + "." + fp;
    assert u == UnsignedText(m);
    assert forall j :: 0 <= j < |ip| ==> IsDigit(ip[j]);
    assert u[|ip|] == '.';
    assert DotIndex(u) == |ip|;
    assert u[..|ip|] == ip && u[|ip| + 1..] == fp;
    DigitsValueNatToString(m / 10000);
    assert Pow10(4) == 10000;
    assert (m / 10000) as real + (m % 10000) as real / 10000.0 == m as real / 10000.0;
  }

  /** `Round4` in terms of the written digits. */
  lemma Round4Units(x: real)
    ensures Round4(x) == (if x < 0.0 then -(Units4(x) as real) else Units4(x) as real) / 10000.0
  {
    RoundHalfEvenNegate(x * 10000.0);
    if x < 0.0 {
      assert Abs(x) * 10000.0 == -(x * 10000.0);
    } else {
      assert Abs(x) * 10000.0 == x * 10000.0;
    }
  }

  /** A leading minus sign negates the unsigned value that follows it. */
  lemma ParseNegative(u: string)
    ensures ParseReal("-" + u) == match UnsignedDecimal(u) case Some(v) => Some(-v) case None => None
  {
    assert ("-" + u)[1..] == u;
  }

  /** Reading a written height back with `float` gives the height rounded to four decimals. */
  lemma Fixed4RoundTrip(x: real)
    ensures ParseReal(Fixed4(x)) == Some(Round4(x))
  {
    Round4Units(x);
    if x < 0.0 {
      NegativeRoundTrip(x);
    } else {
      NonNegativeRoundTrip(x);
    }
  }

  lemma {:induction false} NegativeRoundTrip(x: real)
    requires x < 0.0
    ensures ParseReal(Fixed4(x)) == Some(-(Units4(x) as real) / 10000.0)
  {
    var u := UnsignedText(Units4(x));
    UnsignedFixed(Units4(x));
    ParseNegative(u);
    assert Fixed4(x) == "-" + u;
  }

  lemma {:induction false} NonNegativeRoundTrip(x: real)
    requires x >= 0.0
    ensures ParseReal(Fixed4(x)) == Some(Units4(x) as real / 10000.0)
  {
    var u := UnsignedText(Units4(x));
    UnsignedFixed(Units4(x));
    assert u[0] != '-' && u[0] != '+';
    assert Fixed4(x) == u;
  }
}
