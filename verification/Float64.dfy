/**
 * What a correctly rounded result is.
 *
 * Finite binary64 values are integers in units of 2^-1074, and the exact value of
 * x * y + z is an integer in units of 2^-2148, so the rounding of section 4.3.1 of
 * IEEE 754-2008 (to nearest, ties to even) is stated on integers, against every finite
 * float at once and without naming any algorithm.
 */
module Float64 {
  import opened Words

  /** One unit of an exact value is 2^-SCALE of a unit of a float. */
  const SCALE: nat := 1074

  const P52: nat := 0x10_0000_0000_0000
  const P53: nat := 0x20_0000_0000_0000
  const P63: nat := 0x8000_0000_0000_0000

  function Sign(b: Word): nat { b / P63 }
  function Exponent(b: Word): nat { b / P52 % 2048 }
  function Fraction(b: Word): nat { b % P52 }

  predicate Finite(b: Word) { Exponent(b) != 2047 }

  /** The absolute value, in units of 2^-1074. */
  function Magnitude(b: Word): nat {
    if Exponent(b) == 0 then Fraction(b) else Up(P52 + Fraction(b), Exponent(b) - 1)
  }

  function Signed(b: Word): int {
    var m: int := Magnitude(b);
    if Sign(b) == 1 then -m else m
  }

  function Infinity(negative: bool): Word {
    (if negative then P63 else 0) + 2047 * P52
  }

  function Abs(x: int): nat { if x < 0 then -x else x }

  /** x * y + z in units of 2^-2148. */
  function Fused(x: Word, y: Word, z: Word): int {
    Signed(x) * Signed(y) + Up(Signed(z), SCALE)
  }

  function Distance(b: Word, v: int): nat { Abs(Up(Signed(b), SCALE) - v) }

  /** From here on the result is infinite: halfway between the largest float and 2^1024. */
  function Overflow(): nat { Up(0x3f_ffff_ffff_ffff, 2044 + SCALE) }

  /** b is the correctly rounded float for the exact value v. */
  ghost predicate Rounds(v: int, b: Word) {
    if Abs(v) >= Overflow() then b == Infinity(v < 0)
    else
      && Finite(b)
      && (v == 0 ==> b == 0)
      && (v != 0 ==> (Sign(b) == 1 <==> v < 0))
      && (forall f: Word :: Finite(f) ==> Distance(b, v) <= Distance(f, v))
      && (forall f: Word :: Finite(f) && Signed(f) != Signed(b) && Distance(f, v) == Distance(b, v) ==> b % 2 == 0)
  }

  // ----------------------------------------------------- encoding of magnitudes

  /** The bits q * 2^52 + m decode to m * 2^q, also when rounding carried m to 2^53. */
  lemma Encoded(s: nat, q: nat, m: nat)
    requires s <= 1 && m <= P53 && (q == 0 || m >= P52)
    requires q * P52 + m < 2047 * P52
    ensures var b := s * P63 + q * P52 + m;
            b < W && Finite(b) && Sign(b) == s && Magnitude(b) == Up(m, q) && b % 2 == m % 2
  {
    hide Sign, Exponent, Fraction, Up;
    EncodedParity(s, q, m);
    if m < P52 {
      Fields(s, 0, m);
      UpZero(m);
    } else if m < P53 {
      Fields(s, q + 1, m - P52);
    } else {
      Fields(s, q + 2, 0);
      UpCarry(q);
    }
  }

  lemma EncodedParity(s: nat, q: nat, m: nat)
    ensures (s * P63 + q * P52 + m) % 2 == m % 2
  {
    var h := s * 0x4000_0000_0000_0000 + q * 0x8_0000_0000_0000;
    assert s * P63 + q * P52 + m == 2 * h + m;
    AddEven(h, m);
  }

  lemma AddEven(h: nat, m: nat)
    ensures (2 * h + m) % 2 == m % 2
  {
  }

  lemma UpZero(m: int)
    ensures Up(m, 0) == m
  {
  }

  lemma UpCarry(q: nat)
    ensures Up(P52, q + 1) == Up(P53, q)
  {
    UpSum(P52, P52, q);
  }

  lemma Fields(s: nat, e: nat, f: nat)
    requires s <= 1 && e < 2048 && f < P52
    ensures var b := s * P63 + e * P52 + f;
            b < W && Sign(b) == s && Exponent(b) == e && Fraction(b) == f
  {
    var b := s * P63 + e * P52 + f;
    assert b / P52 == s * 2048 + e;
  }

  /** Every float is the encoding of a significand and an exponent. */
  lemma Decoded(b: Word) returns (q: nat, m: nat)
    ensures m < P53 && (q == 0 || m >= P52) && q < 2047
    ensures b == Sign(b) * P63 + q * P52 + m
    ensures Magnitude(b) == Up(m, q)
    ensures Finite(b) ==> q * P52 + m < 2047 * P52
    ensures Sign(b) <= 1
  {
    var e, f := Exponent(b), Fraction(b);
    assert b == Sign(b) * P63 + e * P52 + f by {
      var h := b / P52;
      assert h / 2048 == Sign(b);
    }
    q, m := if e == 0 then 0 else e - 1, if e == 0 then f else P52 + f;
  }

  /** No float lies strictly between neighbouring significands of one exponent. */
  lemma NoFloatBetween(f: Word, q: nat, m: nat)
    requires q == 0 || m >= P52
    ensures Magnitude(f) <= Up(m, q) || Magnitude(f) >= Up(m + 1, q)
  {
    hide Magnitude, Sign;
    var qf, mf := Decoded(f);
    hide Up;
    if qf >= q {
      UpUp(mf, qf - q, q);
      var k := Up(mf, qf - q);
      UpOrder(k, m + 1, q);
      UpOrder(m, k, q);
    } else {
      UpOrder(mf, P53, qf);
      UpOrder(P52, m, q);
      Pow2Monotone(P53, qf, q - 1);
      UpCarry(q - 1);
    }
  }

  // ----------------------------------------------------------------- uniqueness

  lemma {:induction false} MagnitudeOrder(a: Word, b: Word)
    requires a < b < P63
    ensures Magnitude(a) < Magnitude(b)
    decreases b - a
  {
    hide Up, Sign, Fraction, Exponent;
    if b == a + 1 {
      var q, m := Decoded(a);
      if q * P52 + m + 1 < 2047 * P52 {
        Encoded(0, q, m + 1);
      } else {
        LastStep(a, q, m);
      }
      UpOrder(m, m + 1, q);
    } else {
      MagnitudeOrder(a, a + 1);
      MagnitudeOrder(a + 1, b);
    }
  }

  lemma LastStep(a: Word, q: nat, m: nat)
    requires q < 2047 && m < P53 && (q == 0 || m >= P52) && q * P52 + m + 1 >= 2047 * P52
    requires a == q * P52 + m && a + 1 < P63
    ensures Magnitude(a + 1) == Up(m + 1, q)
  {
    if m + 1 < P53 {
      Fields(0, q + 1, m + 1 - P52);
    } else {
      Fields(0, q + 2, 0);
      UpSum(P52, P52, q);
    }
  }

  /** At most one float is the rounding of a value, so Rounds determines the result. */
  lemma RoundsUnique(v: int, a: Word, b: Word)
    requires Rounds(v, a) && Rounds(v, b)
    ensures a == b
  {
    if a < b {
      RoundsNotBoth(v, a, b);
    } else if b < a {
      RoundsNotBoth(v, b, a);
    }
  }

  lemma RoundsNotBoth(v: int, a: Word, b: Word)
    requires a < b
    ensures !(Rounds(v, a) && Rounds(v, b))
  {
    hide Sign, Exponent, Fraction, Up, Finite, Magnitude;
    SignRange(a);
    SignRange(b);
    if Rounds(v, a) && Rounds(v, b) {
      SignedOrder(a, b);
      UpOrder(Signed(a), Signed(b), SCALE);
      assert a % 2 == 0 && b % 2 == 0;
      var c := a + 1;
      BetweenFinite(a, c, b);
      SignedOrder(a, c);
      SignedOrder(c, b);
      UpOrder(Signed(a), Signed(c), SCALE);
      UpOrder(Signed(c), Signed(b), SCALE);
    }
  }

  /** Among floats of one sign, larger bits mean a larger magnitude. */
  lemma SignedOrder(a: Word, b: Word)
    requires a < b && Sign(a) == Sign(b)
    ensures if Sign(a) == 1 then Signed(b) < Signed(a) else Signed(a) < Signed(b)
  {
    SignBit(a);
    SignBit(b);
    hide Exponent, Fraction, Magnitude;
    MagnitudeOrder(a - Sign(a) * P63, b - Sign(a) * P63);
  }

  lemma SignRange(b: Word)
    ensures Sign(b) <= 1
  {
  }

  lemma SignBit(b: Word)
    ensures Sign(b) * P63 <= b < Sign(b) * P63 + P63
    ensures Magnitude(b) == Magnitude(b - Sign(b) * P63)
  {
    hide Up;
    var c := b - Sign(b) * P63;
    assert b / P52 == Sign(b) * 2048 + c / P52;
  }

  lemma BetweenFinite(a: Word, c: Word, b: Word)
    requires Finite(a) && Finite(b) && a <= c <= b && Sign(a) == Sign(b)
    ensures Finite(c) && Sign(c) == Sign(a)
  {
    var s := Sign(a);
    assert b / P52 == s * 2048 + (b - s * P63) / P52;
    assert c / P52 == s * 2048 + (c - s * P63) / P52;
  }
}
