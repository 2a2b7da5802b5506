/**
 * The rounding half of math.FMA.
 *
 * The code reaches its last lines with a significand of 63 bits that is the sticky
 * compression of the exact sum. Whatever the exact value is, Round turns such a
 * significand into the correctly rounded float, subnormal and overflowing results
 * included.
 */
module FmaRounding {
  import opened Words
  import opened Sticky
  import opened DoubleWord
  import opened Float64

  type Int32 = x: int | -0x8000_0000 <= x < 0x8000_0000

  const BIAS: int := 1023
  const INF: nat := 0x7ff0_0000_0000_0000
  const P62: nat := 0x4000_0000_0000_0000

  // ------------------------------------------------------------------ rounding

  /** The significand and rounding step: nearest, ties to even, on the lowest ten bits. */
  function RoundOff(m: nat): nat {
    if m % 1024 > 512 then m / 1024 + 1
    else if m % 1024 < 512 then m / 1024
    else m / 1024 + m / 1024 % 2
  }

  /** m * 2^(q - 1084) is the exact magnitude t, up to a sticky bit. */
  ghost predicate Significand(t: nat, q: nat, m: nat) {
    && m == Compress(t, q + 1064)
    && m < P63
    && (q == 0 || m >= P62)
  }

  /** Where the exact value lies between the two candidate floats. */
  lemma Bracket(t: nat, q: nat, m: nat)
    requires Significand(t, q, m)
    ensures var lo, hi := Up(Up(m / 1024, q), SCALE), Up(Up(m / 1024 + 1, q), SCALE);
            && lo <= t < hi
            && (m % 1024 < 512 <==> 2 * t < lo + hi)
            && (m % 1024 == 512 <==> 2 * t == lo + hi)
  {
    hide Compress, Up;
    BracketAt(t, q, m / 1024, m % 1024);
  }

  lemma BracketAt(t: nat, q: nat, k: nat, low: nat)
    requires 1024 * k + low == Compress(t, q + 1064) && low < 1024
    ensures var lo, hi := Up(Up(k, q), SCALE), Up(Up(k + 1, q), SCALE);
            && lo <= t < hi
            && (low < 512 <==> 2 * t < lo + hi)
            && (low == 512 <==> 2 * t == lo + hi)
  {
    hide Compress, Up;
    var n, a := q + 1064, 1024 * k;
    assert a % 2 == 0;
    ShiftTen(k, q);
    ShiftTen(k + 1, q);
    CompressOrder(t, n, a);
    CompressOrder(t, n, a + 512);
    CompressOrder(t, n, a + 1024);
    MidpointDoubled(a, n);
  }

  lemma MidpointDoubled(a: nat, n: nat)
    ensures 2 * Up(a + 512, n) == Up(a, n) + Up(a + 1024, n)
  {
    UpSum(a, 512, n);
    UpSum(a + 512, 512, n);
  }

  lemma ShiftTen(k: nat, q: nat)
    ensures Up(1024 * k, q + 1064) == Up(Up(k, q), SCALE)
  {
    UpTen(k);
    UpUp(k, 10, q + 1064);
    UpUp(k, q, SCALE);
  }

  lemma UpTen(k: nat)
    ensures Up(k, 10) == 1024 * k
  {
    UpEight(k, 0);
  }

  /** The overflow test of the source is the overflow rule of the standard. */
  lemma OverflowTest(t: nat, q: nat, m: nat)
    requires Significand(t, q, m)
    ensures q > 2045 || (q == 2045 && m >= P63 - 512) <==> t >= Overflow()
  {
    hide Compress, Up;
    var n, top, c := q + 1064, 2045 + 1064, P63 - 512;
    OverflowScaled(c, top);
    CompressOrder(t, n, c);
    if q > 2045 {
      CompressOrder(t, n, P62);
      UpUp(P62, q - 2045, top);
      UpAtLeastDouble(P62, q - 2045);
      UpOrder(c, Up(P62, q - 2045), top);
    } else if q < 2045 {
      CompressOrder(t, n, P63);
      Pow2Monotone(P63, n, top - 1);
      UpDoubled(P62, top - 1);
      UpSum(P62, P62, top - 1);
      UpOrder(P62, c, top);
    }
  }

  lemma OverflowScaled(c: nat, n: nat)
    requires c == P63 - 512 && n == 2045 + 1064
    ensures Up(c, n) == Overflow()
  {
    hide Up;
    UpNine(0x3f_ffff_ffff_ffff);
    UpUp(0x3f_ffff_ffff_ffff, 9, n);
  }

  lemma UpNine(c: nat)
    ensures Up(c, 9) == 512 * c
  {
    UpEight(c, 0);
  }

  lemma UpDoubled(c: int, n: nat)
    ensures Up(c, n + 1) == 2 * Up(c, n)
  {
  }

  lemma UpAtLeastDouble(x: nat, n: nat)
    requires n >= 1
    ensures Up(x, n) >= 2 * x
  {
    Pow2Monotone(x, 1, n);
  }

  /** A candidate on the right side of the midpoint is nearest to everything outside the gap. */
  lemma NearestOfTwo(lo: int, hi: int, t: int, c: int, f: int)
    requires lo <= t < hi && (f <= lo || f >= hi)
    requires (c == lo && 2 * t <= lo + hi) || (c == hi && 2 * t >= lo + hi)
    ensures Abs(c - t) <= Abs(f - t)
    ensures f != c && Abs(c - t) == Abs(f - t) ==> 2 * t == lo + hi
  {
  }

  /** Rounding off a sticky significand gives the correctly rounded float. */
  lemma RoundOffCorrect(v: int, q: nat, m: nat)
    requires v != 0 && Significand(Abs(v), q, m)
    requires !(q > 2045 || (q == 2045 && m >= P63 - 512))
    ensures var b := (if v < 0 then 1 else 0) * P63 + q * P52 + RoundOff(m);
            b < W && Rounds(v, b)
  {
    hide Compress, Up, Sign, Magnitude, Fraction, Exponent, Finite, Rounds, Significand;
    var t, k, r := Abs(v), m / 1024, RoundOff(m);
    var s := if v < 0 then 1 else 0;
    OverflowTest(t, q, m);
    SignificandBounds(t, q, m);
    Encoded(s, q, r);
    var b: Word := s * P63 + q * P52 + r;
    Bracket(t, q, m);
    forall f: Word | Finite(f)
      ensures Distance(b, v) <= Distance(f, v)
      ensures Signed(f) != Signed(b) && Distance(f, v) == Distance(b, v) ==> m % 1024 == 512
    {
      CandidateNearest(v, q, m, b, f);
    }
    assert m % 1024 == 512 ==> b % 2 == 0;
    RoundsIntro(v, b);
  }

  lemma RoundsIntro(v: int, b: Word)
    requires v != 0 && Abs(v) < Overflow() && Finite(b) && (Sign(b) == 1 <==> v < 0)
    requires forall f: Word :: Finite(f) ==> Distance(b, v) <= Distance(f, v)
    requires forall f: Word :: Finite(f) && Signed(f) != Signed(b) && Distance(f, v) == Distance(b, v) ==> b % 2 == 0
    ensures Rounds(v, b)
  {
    hide Up, Distance, Finite, Sign, Signed, Overflow;
  }

  lemma SignificandBounds(t: nat, q: nat, m: nat)
    requires Significand(t, q, m)
    requires !(q > 2045 || (q == 2045 && m >= P63 - 512))
    ensures RoundOff(m) <= P53 && (q == 0 || RoundOff(m) >= P52)
    ensures q == 0 || m / 1024 >= P52
    ensures q * P52 + RoundOff(m) < 2047 * P52
  {
    hide Compress, Up;
  }

  lemma CandidateNearest(v: int, q: nat, m: nat, b: Word, f: Word)
    requires v != 0 && Significand(Abs(v), q, m)
    requires q == 0 || m / 1024 >= P52
    requires Magnitude(b) == Up(RoundOff(m), q) && (Sign(b) == 1 <==> v < 0)
    ensures Distance(b, v) <= Distance(f, v)
    ensures Signed(f) != Signed(b) && Distance(f, v) == Distance(b, v) ==> m % 1024 == 512
  {
    hide Compress, Up, Sign, Magnitude, Significand, Distance, Abs, Signed;
    var t, k := Abs(v), m / 1024;
    Bracket(t, q, m);
    NoFloatBetween(f, q, k);
    Mirror(v, f);
    Mirror(v, b);
    CandidateNearestSided(t, q, k, m % 1024, RoundOff(m), Toward(v, Signed(b)), Toward(v, Signed(f)));
  }

  lemma CandidateNearestSided(t: nat, q: nat, k: nat, low: nat, r: nat, c: int, g: int)
    requires var lo, hi := Up(Up(k, q), SCALE), Up(Up(k + 1, q), SCALE);
             && lo <= t < hi
             && (low < 512 <==> 2 * t < lo + hi)
             && (low == 512 <==> 2 * t == lo + hi)
    requires c == Up(r, q) && (g <= Up(k, q) || g >= Up(k + 1, q))
    requires (r == k && low <= 512) || (r == k + 1 && low >= 512)
    ensures Abs(Up(c, SCALE) - t) <= Abs(Up(g, SCALE) - t)
    ensures g != c && Abs(Up(c, SCALE) - t) == Abs(Up(g, SCALE) - t) ==> low == 512
  {
    hide Up;
    var lo, hi := Up(Up(k, q), SCALE), Up(Up(k + 1, q), SCALE);
    UpOrder(Up(k, q), g, SCALE);
    UpOrder(g, Up(k + 1, q), SCALE);
    UpOrder(g, c, SCALE);
    NearestOfTwo(lo, hi, t, Up(c, SCALE), Up(g, SCALE));
  }

  /** A signed value seen from the side of v. */
  function Toward(v: int, x: int): int { if v < 0 then -x else x }

  lemma Mirror(v: int, f: Word)
    ensures Distance(f, v) == Abs(Up(Toward(v, Signed(f)), SCALE) - Abs(v))
    ensures Toward(v, Signed(f)) == Magnitude(f) || Toward(v, Signed(f)) <= 0
    ensures (Sign(f) == 1 <==> v < 0) ==> Toward(v, Signed(f)) == Magnitude(f)
  {
    hide Up, Sign, Magnitude;
    UpDifference(0, Signed(f), SCALE);
    UpOfZero(SCALE);
  }

  lemma UpOfZero(n: nat)
    ensures Up(0, n) == 0
  {
  }

  /** Lines 169-181 of fma.go: round m, a sticky compression of the exact value v. */
  method Round(ps: Word, exponent: Int32, significand: Word, ghost v: int) returns (r: Word)
    requires v != 0 && ps <= 1 && (ps == 1 <==> v < 0)
    requires P62 <= significand < P63 && -1254 <= exponent <= 5000
    requires significand == Compress(Up(Abs(v), 190), exponent + 1254)
    ensures Rounds(v, r)
  {
    hide Compress, Up, Or, And, Xor, Shr, Shl, Low, Rounds;
    var pe, m := exponent, significand;
    HighBit(m + 512);
    SignWord(ps);
    if pe > 1022 + BIAS || (pe == 1022 + BIAS && Shr(m + 512, 63) == 1) {
      Unscale(Abs(v), pe, m);
      OverflowTest(Abs(v), pe, m);
      InfinityRounds(v);
      return OrWord(Shl(ps, 63), INF);
    }
    if pe < 0 {
      var n: Word := -pe;
      SubnormalShift(Abs(v), pe, m);
      m := OrWord(ShrWord(m, n), Nonzero(And(m, Sub(Shl(1, n), 1))));
      pe := 0;
    } else {
      Unscale(Abs(v), pe, m);
    }
    assert Significand(Abs(v), pe, m);
    SignificandBounds(Abs(v), pe, m);
    RoundOffCorrect(v, pe, m);
    RoundOffBits(m);
    m := And(ShrWord(m + 512, 10), Not(Zero(Xor(And(m, 1023), 512))));
    pe := if Nonzero(m) == 1 then pe else 0;
    ExponentWord(pe);
    r := Shl(ps, 63) + Shl(pe, 52) + m;
  }

  lemma HighBit(x: Word)
    ensures Shr(x, 63) == 1 <==> x >= P63
  {
    Pow2Constants();
    ShrLow(x, 63);
    hide Shr, Low;
    if x >= P63 {
      ShrLowUnique(x, 63, 1, x - P63);
    } else {
      LowWhole(x, 63);
    }
  }

  lemma SignWord(s: Word)
    requires s <= 1
    ensures Shl(s, 63) == s * P63
    ensures Or(Shl(s, 63), INF) == Infinity(s == 1)
  {
    hide Shl, Up, Or;
    Pow2Constants();
    if s == 0 {
      ShlMod(0, 63);
      UpOfZero(63);
      SmallMod(0);
      OrZeroLeft(INF);
    } else {
      MaskWord(63);
      OrDisjoint(1, INF, 63);
    }
  }

  lemma ExponentWord(e: nat)
    requires e < 2048
    ensures e < W && Shl(e, 52) == e * P52
  {
    hide Shl, Up;
    ShlMod(e, 52);
    UpScaled(e, 52);
    Pow2Constants();
  }

  lemma {:induction false} UpScaled(x: int, n: nat)
    ensures Up(x, n) == x * Pow2(n)
  {
    if n > 0 {
      UpScaled(x, n - 1);
      assert x * (2 * Up(1, n - 1)) == 2 * (x * Up(1, n - 1));
    }
  }

  lemma Unscale(t: nat, pe: nat, m: nat)
    requires m == Compress(Up(t, 190), pe + 1254) && P62 <= m < P63
    ensures Significand(t, pe, m)
  {
    hide Compress, Up;
    CompressScaled(t, pe + 1064, 190);
  }

  lemma InfinityRounds(v: int)
    requires Abs(v) >= Overflow()
    ensures Rounds(v, Infinity(v < 0))
  {
    hide Up;
  }

  /** A negative exponent shifts the significand further, keeping the sticky bit. */
  lemma SubnormalShift(t: nat, pe: Int32, m: Word)
    requires -1254 <= pe < 0 && m < P63 && m == Compress(Up(t, 190), pe + 1254)
    ensures var n: Word := -pe;
            Significand(t, 0, OrWord(ShrWord(m, n), Nonzero(And(m, Sub(Shl(1, n), 1)))))
  {
    hide Compress, Up, Or, And, Shr, Shl, Low;
    var n: Word := -pe;
    CompressCompress(Up(t, 190), pe + 1254, n);
    CompressScaled(t, 1064, 190);
    CompressMeaning(m, n);
    MaskedLow(m, n);
    CompressShrinks(m, n);
  }

  lemma MaskedLow(m: Word, n: Word)
    ensures And(m, Sub(Shl(1, n), 1)) == 0 <==> Low(m, n) == 0
  {
    hide And, Shl, Low, Up;
    if n < 64 {
      MaskWord(n);
      AndMask(m, n);
    } else {
      Pow2Constants();
      ShlBeyond(1, n);
      AndMask(m, 64);
      LowWhole(m, 64);
      Pow2Monotone(1, 64, n);
      LowWhole(m, n);
    }
  }

  lemma CompressShrinks(m: nat, n: nat)
    requires m < P63
    ensures Compress(m, n) < P63
  {
    hide Compress, Up;
    CompressOrder(m, n, P63);
    Pow2Monotone(P63, 0, n);
    UpZero(P63);
  }

  lemma RoundOffBits(m: Word)
    requires m < P63
    ensures And(Shr(m + 512, 10), Not(Zero(Xor(And(m, 1023), 512)))) == RoundOff(m)
  {
    hide And, Xor, Shr, Up, Low;
    Pow2Constants();
    AndMask(m, 10);
    LowTen(m);
    LowTen(m + 512);
    XorZero(m % 1024, 512);
    AndClearBit((m + 512) / 1024, Zero(Xor(And(m, 1023), 512)));
  }

  lemma LowTen(x: nat)
    ensures Low(x, 10) == x % 1024 && Shr(x, 10) == x / 1024
  {
    hide Low, Shr;
    UpTen(x / 1024);
    UpTen(1);
    ShrLowUnique(x, 10, x / 1024, x % 1024);
  }
}
