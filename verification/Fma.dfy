/**
 * math.FMA on the bit patterns of finite, non-zero floats.
 *
 * Split and Multiply give operands whose exact values are known, Combine adds or
 * subtracts them into a sticky significand of the exact sum, and FmaRounding.Round
 * rounds it once.
 */
module Fma {
  import opened Words
  import opened Sticky
  import opened DoubleWord
  import opened Float64
  import opened FmaRounding

  const P126: nat := 0x4000_0000_0000_0000_0000_0000_0000_0000
  const P127: nat := 0x8000_0000_0000_0000_0000_0000_0000_0000

  // ----------------------------------------------------------------- operands

  /** Sign, biased exponent and mantissa, subnormals normalized. */
  method Split(b: Word) returns (sign: Word, exp: Int32, mantissa: Word)
    requires Finite(b) && Magnitude(b) > 0
    ensures sign == Sign(b) && sign <= 1
    ensures P52 <= mantissa < P53 && -51 <= exp <= 2046
    ensures Up(Magnitude(b), 52) == Up(mantissa, exp + 51)
  {
    hide Up, And, Shr, Shl, Or, Low;
    SplitFields(b);
    sign := ShrWord(b, 63);
    exp := And(ShrWord(b, 52), 0x7ff);
    mantissa := And(b, P52 - 1);
    if exp == 0 {
      Normalize(mantissa);
      var shift: nat := LeadingZeros(mantissa) - 11;
      UpUp(mantissa, shift, 52 - shift);
      mantissa := Shl(mantissa, shift);
      exp := 1 - shift;
    } else {
      Pow2Constants();
      UpZero(1);
      OrDisjoint(1, mantissa, 52);
      OrCommutes(mantissa, P52);
      mantissa := OrWord(mantissa, P52);
      UpUp(mantissa, exp - 1, 52);
    }
  }

  lemma SplitFields(b: Word)
    ensures Shr(b, 63) == Sign(b) && Sign(b) <= 1
    ensures And(Shr(b, 52), 0x7ff) == Exponent(b)
    ensures And(b, P52 - 1) == Fraction(b)
  {
    hide And, Shr, Low, Up;
    Pow2Constants();
    UpScaled(b / P63, 63);
    ShrLowUnique(b, 63, b / P63, b % P63);
    UpScaled(b / P52, 52);
    ShrLowUnique(b, 52, b / P52, b % P52);
    AndMask(b, 52);
    AndMask(b / P52, 11);
    UpScaled(b / P52 / 2048, 11);
    ShrLowUnique(b / P52, 11, b / P52 / 2048, b / P52 % 2048);
  }

  lemma Normalize(f: Word)
    requires 0 < f < P52
    ensures 12 <= LeadingZeros(f) <= 63
    ensures var shift := LeadingZeros(f) - 11;
            Shl(f, shift) == Up(f, shift) && P52 <= Up(f, shift) < P53
  {
    hide Shl, Up, Len;
    LenPow2(f);
    Pow2Constants();
    LenBound(f, 52);
    NormalizeLen(f, Len(f));
  }

  lemma NormalizeLen(f: Word, l: nat)
    requires 1 <= l <= 52 && Pow2(l - 1) <= f < Pow2(l)
    ensures Shl(f, 53 - l) == Up(f, 53 - l) && P52 <= Up(f, 53 - l) < P53
  {
    hide Shl, Up;
    var shift := 53 - l;
    Pow2Constants();
    UpOrder(f, Pow2(l), shift);
    UpOrder(Pow2(l - 1), f, shift);
    UpUp(1, l, shift);
    UpUp(1, l - 1, shift);
    ShlMod(f, shift);
    SmallMod(Up(f, shift));
  }

  /** The 128-bit significand p at exponent e stands for the exact magnitude a. */
  ghost predicate Operand(a: nat, p: nat, e: int, g: nat) {
    && a > 0
    && P126 <= p < P127
    && p == Up(g, 21)
    && -1125 <= e <= 4000
    && Up(a, 126) == Up(p, e + 1125)
  }

  /** The full product of two words, as a pair. */
  function Mul64(a: Word, b: Word): (r: (Word, Word)) {
    ProductBound(a, b);
    (a * b / W, a * b % W)
  }

  lemma ProductBound(a: Word, b: Word)
    ensures 0 <= a * b / W < W
    ensures a * b / W * W + a * b % W == a * b
  {
    var p := a * b;
    assert 0 <= p by { MulOrder(0, a, b); }
    assert p < W * W by {
      MulOrder(a, W, b);
      MulOrder(b, W, W);
    }
  }

  lemma {:induction false} MulOrder(a: int, b: int, c: nat)
    requires a <= b
    ensures a * c <= b * c
    ensures a < b && c > 0 ==> a * c < b * c
  {
    if c > 0 {
      MulOrder(a, b, c - 1);
      assert a * c == a * (c - 1) + a && b * c == b * (c - 1) + b;
    }
  }

  lemma {:induction false} UpProduct(a: nat, b: nat, i: nat, j: nat)
    ensures Up(a, i) * Up(b, j) == Up(a * b, i + j)
    decreases i + j
  {
    if i > 0 {
      UpProduct(a, b, i - 1, j);
      DoubleProduct(Up(a, i - 1), Up(b, j));
    } else if j > 0 {
      UpProduct(a, b, 0, j - 1);
      DoubleProduct(Up(b, j - 1), a);
    }
  }

  lemma DoubleProduct(a: int, b: int)
    ensures (2 * a) * b == 2 * (a * b) && b * (2 * a) == 2 * (b * a)
  {
  }

  /** Lines 123-135 of fma.go: the product of two mantissas, normalized to bit 126. */
  method Multiply(xe: Int32, xm: Word, ye: Int32, ym: Word, ghost mx: nat, ghost my: nat)
    returns (pe: Int32, pm1: Word, pm2: Word, ghost g: nat)
    requires P52 <= xm < P53 && -51 <= xe <= 2046 && Up(mx, 52) == Up(xm, xe + 51) && mx > 0
    requires P52 <= ym < P53 && -51 <= ye <= 2046 && Up(my, 52) == Up(ym, ye + 51) && my > 0
    ensures Operand(Product(mx, my), Wide((pm1, pm2)), pe, g)
  {
    hide Up, Shl, And, Shr, Mul64, ShiftLeft, Operand, Product, Wide;
    pe := xe + ye - BIAS + 1;
    ghost var n := Product(xm, ym);
    ProductOperand(mx, my, xm, ym, xe, ye);
    var p := Mul64(Shl(xm, 10), Shl(ym, 11));
    pm1, pm2 := p.0, p.1;
    Bit62(p);
    var is62zero: Word := And(ShrWord(Not(pm1), 62), 1);
    NormalizedProduct(Product(mx, my), n, p, pe, is62zero);
    p := ShiftLeft(pm1, pm2, is62zero);
    pm1, pm2 := p.0, p.1;
    pe := pe - is62zero;
    g := Up(n, is62zero);
  }

  function Product(a: nat, b: nat): nat { a * b }

  lemma ProductOperand(mx: nat, my: nat, xm: Word, ym: Word, xe: int, ye: int)
    requires P52 <= xm < P53 && xe >= -51 && mx > 0 && Up(mx, 52) == Up(xm, xe + 51)
    requires P52 <= ym < P53 && ye >= -51 && my > 0 && Up(my, 52) == Up(ym, ye + 51)
    ensures Product(mx, my) > 0
    ensures var p := Wide(Mul64(Shl(xm, 10), Shl(ym, 11)));
            && p == Up(Product(xm, ym), 21)
            && P126 / 2 <= p < P127
            && Up(Product(mx, my), 126) == Up(p, xe + ye + 103)
  {
    hide Up, Shl, Mul64, Wide;
    ProductWide(xm, ym);
    ProductExact(mx, my, xm, ym, xe, ye);
  }

  lemma ProductWide(xm: Word, ym: Word)
    requires P52 <= xm < P53 && P52 <= ym < P53
    ensures Wide(Mul64(Shl(xm, 10), Shl(ym, 11))) == Up(xm * ym, 21)
    ensures P126 / 2 <= Up(xm * ym, 21) < P127
  {
    hide Up, Shl;
    ProductShifted(xm, ym);
    ProductBound(Shl(xm, 10), Shl(ym, 11));
  }

  lemma NormalizedProduct(a: nat, n: nat, u: (Word, Word), pe: int, z: Word)
    requires a > 0 && Wide(u) == Up(n, 21) && P126 / 2 <= Wide(u) < P127
    requires z == if u.0 < P62 then 1 else 0
    requires -1124 <= pe <= 4000 && Up(a, 126) == Up(Wide(u), pe + 1125)
    ensures Operand(a, Wide(ShiftLeft(u.0, u.1, z)), pe - z, Up(n, z))
  {
    hide Up, ShiftLeft;
    ShiftLeftExact(u.0, u.1, z);
    UpOneStep(Wide(u), z);
    ModW2(0, Up(Wide(u), z));
    UpUp(n, 21, z);
    UpUp(n, z, 21);
    UpUp(Wide(u), z, pe - z + 1125);
  }

  lemma UpOneStep(x: nat, n: nat)
    requires n <= 1
    ensures Up(x, n) == if n == 1 then 2 * x else x
  {
  }

  lemma ProductShifted(xm: nat, ym: nat)
    requires P52 <= xm < P53 && P52 <= ym < P53
    ensures xm < W && ym < W
    ensures Shl(xm, 10) == xm * 1024 && Shl(ym, 11) == ym * 2048
    ensures xm * 1024 * (ym * 2048) == Up(xm * ym, 21)
    ensures P126 / 2 <= Up(xm * ym, 21) < P127
  {
    hide Up, Shl;
    UpScaled(xm, 10);
    UpScaled(ym, 11);
    Pow2Constants();
    ShlMod(xm, 10);
    ShlMod(ym, 11);
    SmallMod(xm * 1024);
    SmallMod(ym * 2048);
    UpProduct(xm, ym, 10, 11);
    MulOrder(P52 * 1024, xm * 1024, ym * 2048);
    MulOrder(xm * 1024, P53 * 1024, ym * 2048);
  }

  lemma Bit62(u: (Word, Word))
    requires Wide(u) < P127
    ensures And(Shr(Not(u.0), 62), 1) == if u.0 < P62 then 1 else 0
  {
    hide And, Shr, Up;
    Pow2Constants();
    var x := Not(u.0);
    AndOne(Shr(x, 62));
    var q := if u.0 < P62 then 3 else 2;
    UpScaled(q, 62);
    ShrLowUnique(x, 62, q, x - q * P62);
  }

  lemma ProductExact(mx: nat, my: nat, xm: nat, ym: nat, xe: int, ye: int)
    requires xe >= -51 && ye >= -51 && mx > 0 && my > 0
    requires Up(mx, 52) == Up(xm, xe + 51) && Up(my, 52) == Up(ym, ye + 51)
    ensures mx * my > 0
    ensures Up(mx * my, 126) == Up(Up(xm * ym, 21), xe + ye + 103)
  {
    hide Up;
    MulOrder(1, mx, my);
    UpProduct(mx, my, 52, 52);
    UpProduct(xm, ym, xe + 51, ye + 51);
    UpUp(mx * my, 104, 22);
    UpUp(xm * ym, xe + ye + 102, 22);
    UpUp(xm * ym, 21, xe + ye + 103);
  }

  /** The addend z, moved to the same position as a product. */
  lemma AddendOperand(mz: nat, zm: nat, ze: int)
    requires P52 <= zm < P53 && -51 <= ze <= 2046 && mz > 0
    requires Up(mz, 52) == Up(zm, ze + 51)
    ensures zm < W && Operand(Up(mz, SCALE), Wide((Shl(zm, 10), 0)), ze, Up(zm, 53))
  {
    hide Up, Shl;
    UpScaled(zm, 10);
    Pow2Constants();
    ShlMod(zm, 10);
    SmallMod(zm * 1024);
    UpUp(zm, 10, 64);
    Up64(zm * 1024);
    UpUp(zm, 53, 21);
    UpUp(mz, SCALE, 126);
    UpUp(mz, 52, 1148);
    UpUp(zm, ze + 51, 1148);
    UpUp(zm, 74, ze + 1125);
  }

  // ------------------------------------------------------------------- the sum

  /** The larger operand, by exponent and then by significand, is the larger value. */
  lemma OperandOrder(a: nat, p: nat, pe: int, g: nat, b: nat, z: nat, ze: int, h: nat)
    requires Operand(a, p, pe, g) && Operand(b, z, ze, h)
    requires pe > ze || (pe == ze && p >= z)
    ensures a >= b
    ensures a == b <==> pe == ze && p == z
  {
    hide Up;
    UpOrder(b, a, 126);
    if pe == ze {
      UpOrder(z, p, pe + 1125);
    } else {
      UpUp(p, pe - ze, ze + 1125);
      UpAtLeastDouble(p, pe - ze);
      UpOrder(z, Up(p, pe - ze), ze + 1125);
    }
  }

  /** The aligned sum or difference is the exact one, up to the common scale. */
  lemma AlignedExact(a: nat, p: nat, pe: int, g: nat, b: nat, z: nat, ze: int, h: nat)
    requires Operand(a, p, pe, g) && Operand(b, z, ze, h) && pe >= ze
    ensures Up(a + b, 190) == Up(Up(p, pe - ze) + z, ze + 1189)
    ensures Up(a - b, 190) == Up(Up(p, pe - ze) - z, ze + 1189)
  {
    hide Up;
    var d, x := pe - ze, Up(p, pe - ze);
    UpUp(p, d, ze + 1125);
    UpUp(a, 126, 64);
    UpUp(b, 126, 64);
    UpUp(x, ze + 1125, 64);
    UpUp(z, ze + 1125, 64);
    UpSum(a, b, 190);
    UpDifference(a, b, 190);
    UpSum(x, z, ze + 1189);
    UpDifference(x, z, ze + 1189);
  }

  lemma OperandEven(a: nat, p: nat, e: int, g: nat)
    requires Operand(a, p, e, g)
    ensures p % 2 == 0
  {
    hide Up;
    UpDoubled(g, 20);
  }

  /** Adding: the compressed sum is a sticky significand of the exact sum. */
  lemma SumSticky(a: nat, p: nat, pe: int, g: nat, b: nat, z: nat, ze: int, h: nat, n: nat)
    requires Operand(a, p, pe, g) && Operand(b, z, ze, h) && pe >= ze
    ensures Compress(p + Compress(z, pe - ze), n) == Compress(Up(a + b, 190), pe + n + 1189)
  {
    hide Up, Compress, Operand;
    var d := pe - ze;
    OperandRange(b, z, ze, h);
    OperandEven(a, p, pe, g);
    AlignedExact(a, p, pe, g, b, z, ze, h);
    CompressSum(p, z, d);
    var x := Up(p, d) + z;
    CompressCompress(x, d, n);
    CompressScaled(x, d + n, ze + 1189);
  }

  lemma OperandRange(a: nat, p: nat, e: int, g: nat)
    requires Operand(a, p, e, g)
    ensures -1125 <= e <= 4000 && P126 <= p < P127 && a > 0
  {
  }

  /** Subtracting: so is the compressed difference, after any cancellation. */
  lemma DifferenceSticky(a: nat, p: nat, pe: int, g: nat, b: nat, z: nat, ze: int, h: nat, k: nat)
    requires Operand(a, p, pe, g) && Operand(b, z, ze, h) && pe >= ze && a >= b
    requires k <= 126 && (pe - ze <= 21 || k <= 1)
    ensures Compress(z, pe - ze) <= p
    ensures Compress(Up(p - Compress(z, pe - ze), k), 64) == Compress(Up(a - b, 190), pe - k + 1253)
  {
    hide Up, Compress, Operand;
    var d := pe - ze;
    OperandRange(b, z, ze, h);
    OperandEven(a, p, pe, g);
    AlignedExact(a, p, pe, g, b, z, ze, h);
    var x := Up(p, d) - z;
    UpOrder(b, a, 190);
    UpDifference(a, b, 190);
    UpOrder(0, x, ze + 1189);
    UpOfZero(ze + 1189);
    CompressDifference(p, z, d);
    if d <= 21 {
      ExactShift(x, p, z, d, g, h, b, ze);
      var y := p - Compress(z, d);
      CompressScaled(Up(y, k), 64, d);
      UpUp(y, k, d);
      UpUp(y, d, k);
    } else {
      CompressCompress(x, d, 64 - k);
      CompressScaled(p - Compress(z, d), 64 - k, k);
      CompressScaled(x, d + 64 - k, k);
    }
    RescaleDifference(x, k, d, ze);
    CompressScaled(Up(x, k), 64 + d, ze + 1189);
  }

  /** With a small shift nothing is lost at all. */
  lemma ExactShift(x: nat, p: nat, z: nat, d: nat, g: nat, h: nat, b: nat, ze: int)
    requires d <= 21 && Operand(b, z, ze, h) && x == Up(p, d) - z
    requires Compress(z, d) <= p
    ensures Up(p - Compress(z, d), d) == x
  {
    hide Up, Compress;
    UpUp(h, 21 - d, d);
    CompressExact(Up(h, 21 - d), d);
    UpDifference(p, Compress(z, d), d);
  }

  lemma RescaleDifference(x: nat, k: nat, d: nat, ze: int)
    requires ze + 1189 >= 0 && k <= 126 && d + ze + 1253 >= k
    ensures Compress(Up(Up(x, k), ze + 1189), 64 + d + ze + 1189)
         == Compress(Up(x, ze + 1189), d + ze + 1253 - k)
  {
    hide Up, Compress;
    UpUp(x, k, ze + 1189);
    UpUp(x, ze + 1189, k);
    CompressScaled(Up(x, ze + 1189), d + ze + 1253 - k, k);
  }

  /** Far apart operands cannot cancel more than one bit. */
  lemma NoCancellation(p: nat, z: nat, d: nat)
    requires P126 <= p && z < P127 && d > 21
    ensures Compress(z, d) <= P126 / 2
  {
    hide Up, Compress;
    var c := P126 / 2;
    CompressOrder(z, d, c);
    UpAtLeastDouble(c, d);
    UpUp(c, 1, d - 1);
    UpAtLeastDouble(Up(c, 1), d - 1);
    UpOneStep(c, 1);
  }

  /** bits.Add64: sum and carry out. */
  function Add64(x: Word, y: Word, carry: Word): (Word, Word)
    requires carry <= 1
  {
    ((x + y + carry) % W, if x + y + carry >= W then 1 else 0)
  }

  /** bits.Sub64: difference and borrow out. */
  function Sub64(x: Word, y: Word, borrow: Word): (Word, Word)
    requires borrow <= 1
  {
    ((x - y - borrow) % W, if x < y + borrow then 1 else 0)
  }

  lemma WideAdd(p: (Word, Word), z: (Word, Word))
    requires Wide(p) + Wide(z) < W2
    ensures var lo := Add64(p.1, z.1, 0);
            Wide((Add64(p.0, z.0, lo.1).0, lo.0)) == Wide(p) + Wide(z)
  {
    var lo := Add64(p.1, z.1, 0);
    assert p.1 + z.1 == lo.1 * W + lo.0;
    assert p.0 + z.0 + lo.1 < W;
  }

  lemma WideSub(p: (Word, Word), z: (Word, Word))
    requires Wide(z) <= Wide(p)
    ensures var lo := Sub64(p.1, z.1, 0);
            Wide((Sub64(p.0, z.0, lo.1).0, lo.0)) == Wide(p) - Wide(z)
  {
    var lo := Sub64(p.1, z.1, 0);
    assert p.1 - z.1 == lo.0 - lo.1 * W;
    assert 0 <= p.0 - z.0 - lo.1;
  }

  /** Lines 147-167 of fma.go: align the smaller operand, then add or subtract. */
  method Combine(same: bool, exponent: Int32, p: (Word, Word), ze: Int32, z: (Word, Word),
                 ghost a: nat, ghost g: nat, ghost b: nat, ghost h: nat)
    returns (pe: Int32, m: Word)
    requires Operand(a, Wide(p), exponent, g) && Operand(b, Wide(z), ze, h)
    requires exponent >= ze && a >= b && (!same ==> a > b)
    ensures P62 <= m < P63 && -1254 <= pe <= 5000
    ensures var exact := if same then a + b else a - b;
            m == Compress(Up(exact, 190), pe + 1254)
  {
    hide Up, Compress, Operand, Wide, Shr, Shl, ShrCompress, ShiftLeft, LeadingZeros2, Add64, Sub64;
    OperandRange(a, Wide(p), exponent, g);
    OperandRange(b, Wide(z), ze, h);
    pe := exponent;
    var aligned := ShrCompress(z.0, z.1, pe - ze);
    ShrCompressExact(z.0, z.1, pe - ze);
    if same {
      var lo := Add64(p.1, aligned.1, 0);
      CarryBit(p.1, aligned.1);
      var hi := Add64(p.0, aligned.0, lo.1);
      var pm1, pm2 := hi.0, lo.0;
      SumBounds(p, z, aligned, pe - ze);
      TopBit(pm1);
      pe := pe - ShrWord(Not(pm1), 63);
      var shift: Word := 64 + Shr(pm1, 63);
      var r := ShrCompress(pm1, pm2, shift);
      m := r.1;
      SumSignificand(pm1, pm2, shift);
      SumSticky(a, Wide(p), exponent, g, b, Wide(z), ze, h, shift);
    } else {
      var lo := Sub64(p.1, aligned.1, 0);
      BorrowBit(p.1, aligned.1);
      var hi := Sub64(p.0, aligned.0, lo.1);
      var pm1, pm2 := hi.0, lo.0;
      DifferenceBounds(a, p, exponent, g, b, z, ze, h, aligned);
      var nz := LeadingZeros2(pm1, pm2);
      DifferenceSignificand(pm1, pm2);
      pe := pe - nz;
      var r := ShiftLeft(pm1, pm2, nz - 1);
      m := OrWord(r.0, Nonzero(r.1));
      if exponent - ze > 21 {
        NoCancellation(Wide(p), Wide(z), exponent - ze);
        LittleCancellation(pm1, pm2);
      }
      DifferenceSticky(a, Wide(p), exponent, g, b, Wide(z), ze, h, nz - 1);
    }
  }

  lemma CarryBit(x: Word, y: Word)
    ensures Add64(x, y, 0).1 <= 1
  {
  }

  lemma BorrowBit(x: Word, y: Word)
    ensures Sub64(x, y, 0).1 <= 1
  {
  }

  /** The two words left by the addition. */
  lemma SumBounds(p: (Word, Word), z: (Word, Word), aligned: (Word, Word), d: nat)
    requires P126 <= Wide(p) < P127 && Wide(z) < P127 && Wide(aligned) == Compress(Wide(z), d)
    requires Add64(p.1, aligned.1, 0).1 <= 1
    ensures var lo := Add64(p.1, aligned.1, 0);
            var u := (Add64(p.0, aligned.0, lo.1).0, lo.0);
            Wide(u) == Wide(p) + Compress(Wide(z), d) && P126 <= Wide(u) < W2
  {
    hide Up, Compress, Add64;
    CompressOrder(Wide(z), d, P127);
    Pow2Monotone(P127, 0, d);
    UpZero(P127);
    WideAdd(p, aligned);
  }

  lemma TopBit(x: Word)
    ensures Shr(x, 63) == (if x >= P63 then 1 else 0)
    ensures Shr(Not(x), 63) == (if x >= P63 then 0 else 1)
  {
    hide Shr;
    HighBit(x);
    HighBit(Not(x));
    ShrTopBound(x);
    ShrTopBound(Not(x));
  }

  lemma ShrTopBound(x: Word)
    ensures Shr(x, 63) <= 1
  {
    hide Shr, Up;
    Pow2Constants();
    ShrBound(x, 63, 1);
    UpOneStep(1, 1);
  }

  /** Compressing a sum of 127 or 128 bits leaves 63 bits. */
  lemma SumSignificand(pm1: Word, pm2: Word, shift: Word)
    requires P126 <= Wide((pm1, pm2)) && shift == 64 + (if pm1 >= P63 then 1 else 0)
    ensures var r := ShrCompress(pm1, pm2, shift);
            P62 <= r.1 < P63 && r.1 == Compress(Wide((pm1, pm2)), shift)
  {
    hide Up, Compress, ShrCompress;
    ShrCompressExact(pm1, pm2, shift);
    var x := Wide((pm1, pm2));
    CompressOrder(x, shift, P62);
    CompressOrder(x, shift, P63);
    UpUp(P62, 64, shift - 64);
    UpUp(P63, 64, shift - 64);
    Up64(P62);
    Up64(P63);
    UpOneStep(P62 * W, shift - 64);
    UpOneStep(P63 * W, shift - 64);
  }

  /** The two words left by the subtraction. */
  lemma DifferenceBounds(a: nat, p: (Word, Word), pe: int, g: nat, b: nat, z: (Word, Word), ze: int, h: nat,
                         aligned: (Word, Word))
    requires Operand(a, Wide(p), pe, g) && Operand(b, Wide(z), ze, h) && pe >= ze && a > b
    requires Wide(aligned) == Compress(Wide(z), pe - ze)
    requires Sub64(p.1, aligned.1, 0).1 <= 1
    ensures var lo := Sub64(p.1, aligned.1, 0);
            var u := (Sub64(p.0, aligned.0, lo.1).0, lo.0);
            Wide(u) == Wide(p) - Compress(Wide(z), pe - ze) && 0 < Wide(u) < P127
  {
    hide Up, Compress, Sub64, Operand;
    var d := pe - ze;
    OperandRange(b, Wide(z), ze, h);
    OperandRange(a, Wide(p), pe, g);
    OperandEven(a, Wide(p), pe, g);
    AlignedExact(a, Wide(p), pe, g, b, Wide(z), ze, h);
    var x := Up(Wide(p), d) - Wide(z);
    UpOrder(0, a - b, 190);
    UpOfZero(190);
    UpOrder(0, x, ze + 1189);
    UpOfZero(ze + 1189);
    CompressDifference(Wide(p), Wide(z), d);
    CompressOrder(x, d, 0);
    UpOfZero(d);
    WideSub(p, aligned);
  }

  /** Normalizing the difference moves its highest bit to bit 126. */
  lemma DifferenceSignificand(pm1: Word, pm2: Word)
    requires 0 < Wide((pm1, pm2)) < P127
    ensures var nz := LeadingZeros2(pm1, pm2);
            && 1 <= nz <= 127
            && var r := ShiftLeft(pm1, pm2, nz - 1);
            var m := OrWord(r.0, Nonzero(r.1));
            P62 <= m < P63 && m == Compress(Up(Wide((pm1, pm2)), nz - 1), 64)
  {
    hide Up, Compress, ShiftLeft, LeadingZeros2, Or;
    var x, nz := Wide((pm1, pm2)), LeadingZeros2(pm1, pm2);
    LeadingZeros2Exact(pm1, pm2);
    Pow127();
    if nz == 0 {
      assert false;
    }
    var k := nz - 1;
    UpOrder(x, Pow2(128 - nz), k);
    UpOrder(Pow2(127 - nz), x, k);
    UpUp(1, 128 - nz, k);
    UpUp(1, 127 - nz, k);
    ShiftLeftExact(pm1, pm2, k);
    ModW2(0, Up(x, k));
    var r := ShiftLeft(pm1, pm2, k);
    ShrCompressExact(r.0, r.1, 64);
    TopSignificand(r, OrWord(r.0, Nonzero(r.1)));
  }

  lemma Pow127()
    ensures Pow2(126) == P126 && Pow2(127) == P127
  {
    hide Up;
    Pow2Constants();
    UpUp(1, 62, 64);
    UpUp(1, 63, 64);
    Up64(P62);
    Up64(P63);
  }

  lemma TopSignificand(r: (Word, Word), m: Word)
    requires P126 <= Wide(r) < P127 && m == Compress(Wide(r), 64)
    ensures P62 <= m < P63
  {
    hide Up, Compress;
    CompressOrder(Wide(r), 64, P62);
    CompressOrder(Wide(r), 64, P63);
    Up64(P62);
    Up64(P63);
  }

  lemma LittleCancellation(pm1: Word, pm2: Word)
    requires P126 / 2 <= Wide((pm1, pm2))
    ensures LeadingZeros2(pm1, pm2) <= 2
  {
    hide Up, LeadingZeros2;
    LeadingZeros2Exact(pm1, pm2);
    Pow127();
    var nz := LeadingZeros2(pm1, pm2);
    if nz > 2 {
      Pow2Monotone(1, 128 - nz, 125);
      UpDoubled(1, 125);
    }
  }

  // ------------------------------------------------------------------------ FMA

  /** x * y + z with a single rounding, for finite and non-zero operands. */
  method FMA(x: Word, y: Word, z: Word) returns (r: Word)
    requires Finite(x) && Magnitude(x) > 0
    requires Finite(y) && Magnitude(y) > 0
    requires Finite(z) && Magnitude(z) > 0
    ensures Rounds(Fused(x, y, z), r)
  {
    hide Up, Compress, Operand, Wide, Shl, Rounds, Fused, Magnitude, Sign, Product;
    var xs, xe, xm := Split(x);
    var ys, ye, ym := Split(y);
    var zs, ze, zm := Split(z);
    ghost var a, b := Product(Magnitude(x), Magnitude(y)), Up(Magnitude(z), SCALE);
    ghost var g, h := 0, Up(zm, 53);
    var pe, pm1, pm2;
    pe, pm1, pm2, g := Multiply(xe, xm, ye, ym, Magnitude(x), Magnitude(y));
    var zm1, zm2: Word := Shl(zm, 10), 0;
    AddendOperand(Magnitude(z), zm, ze);
    XorBit(xs, ys);
    var ps: Word := Xor(xs, ys);
    FusedParts(x, y, z, ps == 1, zs == 1, a, b);
    WordOrder((pm1, pm2), (zm1, zm2));
    if pe < ze || (pe == ze && pm1 < zm1) {
      ps, pe, pm1, pm2, zs, ze, zm1, zm2 := zs, ze, zm1, zm2, ps, pe, pm1, pm2;
      a, g, b, h := b, h, a, g;
    }
    OperandOrder(a, Wide((pm1, pm2)), pe, g, b, Wide((zm1, zm2)), ze, h);
    WideEqual((pm1, pm2), (zm1, zm2));
    if ps != zs && pe == ze && pm1 == zm1 && pm2 == zm2 {
      ZeroRounds();
      return 0;
    }
    OperandRange(a, Wide((pm1, pm2)), pe, g);
    OperandRange(b, Wide((zm1, zm2)), ze, h);
    var m;
    pe, m := Combine(ps == zs, pe, (pm1, pm2), ze, (zm1, zm2), a, g, b, h);
    r := Round(ps, pe, m, Fused(x, y, z));
  }

  lemma XorBit(x: Word, y: Word)
    requires x <= 1 && y <= 1
    ensures Xor(x, y) == if x == y then 0 else 1
  {
  }

  function Oriented(negative: bool, x: int): int { if negative then -x else x }

  /** The exact value is the signed sum of the two operands. */
  lemma FusedParts(x: Word, y: Word, z: Word, ps: bool, zs: bool, a: nat, b: nat)
    requires a == Product(Magnitude(x), Magnitude(y)) && b == Up(Magnitude(z), SCALE)
    requires ps <==> (Sign(x) == 1) != (Sign(y) == 1)
    requires zs <==> Sign(z) == 1
    ensures Fused(x, y, z) == Oriented(ps, a) + Oriented(zs, b)
  {
    hide Up, Magnitude, Sign;
    var mx: int := Magnitude(x);
    var my: int := Magnitude(y);
    var mz: int := Magnitude(z);
    UpDifference(0, mz, SCALE);
    UpOfZero(SCALE);
    SignedProduct(mx, my);
  }

  lemma SignedProduct(x: int, y: int)
    ensures (-x) * y == -(x * y) && x * (-y) == -(x * y) && (-x) * (-y) == x * y
  {
  }

  lemma WordOrder(p: (Word, Word), z: (Word, Word))
    requires z.1 == 0
    ensures p.0 < z.0 ==> Wide(p) < Wide(z)
    ensures p.0 >= z.0 ==> Wide(p) >= Wide(z)
  {
  }

  lemma WideEqual(p: (Word, Word), z: (Word, Word))
    ensures Wide(p) == Wide(z) <==> p == z
  {
  }

  lemma ZeroRounds()
    ensures Rounds(0, 0)
  {
    hide Up;
    Encoded(0, 0, 0);
    UpOfZero(0);
    UpOfZero(SCALE);
    UpOrder(0, 0x3f_ffff_ffff_ffff, 2044 + SCALE);
    UpOfZero(2044 + SCALE);
    forall f: Word | Signed(f) != 0
      ensures Distance(f, 0) != 0
    {
      UpOrder(Signed(f), 0, SCALE);
    }
  }
}
