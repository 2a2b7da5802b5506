/**
 * The two-word helpers of math/fma.go: shl, shr, shrcompress and lz.
 *
 * Each is written with the operators the source uses, and proved to be exact
 * arithmetic on the 128-bit number u1 * 2^64 + u2, for every shift count.
 */
module DoubleWord {
  import opened Words
  import opened Sticky

  const W2: nat := 0x1_0000_0000_0000_0000_0000_0000_0000_0000

  function Wide(u: (Word, Word)): (r: nat)
    ensures r < W2
  {
    u.0 * W + u.1
  }

  function Nonzero(x: nat): Word { if x != 0 then 1 else 0 }

  function Zero(x: nat): Word { if x == 0 then 1 else 0 }

  function OrWord(a: Word, b: Word): Word {
    Pow2Constants();
    OrBound(a, b, 64);
    Or(a, b)
  }

  function ShrWord(a: Word, n: nat): Word { Shr(a, n) }

  function ShiftLeft(u1: Word, u2: Word, n: Word): (Word, Word) {
    (OrWord(OrWord(Shl(u1, n), ShrWord(u2, Sub(64, n))), Shl(u2, Sub(n, 64))), Shl(u2, n))
  }

  function ShiftRight(u1: Word, u2: Word, n: Word): (Word, Word) {
    (ShrWord(u1, n), OrWord(OrWord(ShrWord(u2, n), Shl(u1, Sub(64, n))), ShrWord(u1, Sub(n, 64))))
  }

  function ShrCompress(u1: Word, u2: Word, n: Word): (Word, Word) {
    if n == 0 then (u1, u2)
    else if n == 64 then (0, OrWord(u1, Nonzero(u2)))
    else if n >= 128 then (0, Nonzero(OrWord(u1, u2)))
    else
      var r := ShiftRight(u1, u2, n);
      if n < 64 then (r.0, OrWord(r.1, Nonzero(And(u2, Sub(Shl(1, n), 1)))))
      else (r.0, OrWord(r.1, Nonzero(Or(And(u1, Sub(Shl(1, n - 64), 1)), u2))))
  }

  function LeadingZeros2(u1: Word, u2: Word): nat {
    var l := LeadingZeros(u1);
    if l == 64 then l + LeadingZeros(u2) else l
  }

  // ------------------------------------------------------------------ helpers

  lemma {:induction false} OrBound(a: nat, b: nat, n: nat)
    requires a < Pow2(n) && b < Pow2(n)
    ensures Or(a, b) < Pow2(n)
  {
    if a > 0 && b > 0 {
      OrBound(a / 2, b / 2, n - 1);
    }
  }

  lemma {:induction false} OrZero(a: nat, b: nat)
    ensures Or(a, b) == 0 <==> a == 0 && b == 0
  {
    if a > 0 && b > 0 {
      OrZero(a / 2, b / 2);
    }
  }

  lemma {:induction false} UpTimesW(u: int, n: nat)
    ensures Up(u * W, n) == Up(u, n) * W
    decreases n
  {
    if n > 0 {
      UpTimesW(u, n - 1);
    }
  }

  lemma UpWide(u1: Word, u2: Word, n: nat)
    ensures Up(Wide((u1, u2)), n) == Up(u1, n) * W + Up(u2, n)
  {
    UpSum(u1 * W, u2, n);
    UpTimesW(u1, n);
  }

  lemma ModW2(h: nat, l: nat)
    requires l < W2
    ensures (h * W2 + l) % W2 == l
  {
  }

  lemma ModW2Word(a: nat)
    ensures a * W % W2 == a % W * W
  {
    var h, l := a / W, a % W;
    assert a * W == h * W2 + l * W;
    ModW2(h, l * W);
  }

  // ---------------------------------------------------------------- left shift

  /** shl is multiplication by 2^n modulo 2^128. */
  lemma ShiftLeftExact(u1: Word, u2: Word, n: Word)
    ensures Wide(ShiftLeft(u1, u2, n)) == Up(Wide((u1, u2)), n) % W2
  {
    if n <= 64 {
      ShiftLeftNear(u1, u2, n);
    } else {
      ShiftLeftFar(u1, u2, n);
    }
  }

  lemma ShiftLeftNear(u1: Word, u2: Word, n: Word)
    requires n <= 64
    ensures Wide(ShiftLeft(u1, u2, n)) == Up(Wide((u1, u2)), n) % W2
  {
    hide Shl, Shr, Low, Up, Or;
    ShlShr(u1, n);
    ShlShr(u2, n);
    UpWide(u1, u2, n);
    OrDisjoint(Low(u1, 64 - n), Shr(u2, 64 - n), n);
    var r1: Word := OrWord(Shl(u1, n), ShrWord(u2, 64 - n));
    assert r1 == Shl(u1, n) + Shr(u2, 64 - n);
    if n < 64 {
      ShlBeyond(u2, Sub(n, 64));
      OrBit(r1, 0);
    } else {
      ShiftedWhole(u1, u2);
    }
    ModW2(Shr(u1, 64 - n), r1 * W + Shl(u2, n));
  }

  lemma ShiftedWhole(u1: Word, u2: Word)
    ensures Shl(u1, 64) == 0 && Shl(u2, 0) == u2 && Shr(u2, 0) == u2
    ensures Or(u2, u2) == u2 && Or(0, u2) == u2
  {
    ShlBeyond(u1, 64);
    OrSame(u2);
  }

  lemma ShiftLeftFar(u1: Word, u2: Word, n: Word)
    requires n > 64
    ensures Wide(ShiftLeft(u1, u2, n)) == Up(Wide((u1, u2)), n) % W2
  {
    hide Shl, Shr, Low, Up;
    ShlBeyond(u1, n);
    ShlBeyond(u2, n);
    ShrBeyond(u2, Sub(64, n));
    UpWide(u1, u2, n);
    UpUp(u1, n - 64, 64);
    UpUp(u2, n - 64, 64);
    Up64(Up(u1, n - 64));
    Up64(Up(u2, n - 64));
    ShlMod(u2, n - 64);
    ModW2Word(Up(u1, n - 64) * W + Up(u2, n - 64));
    MultipleModAny(Up(u1, n - 64), Up(u2, n - 64));
  }

  lemma MultipleModAny(h: nat, l: nat)
    ensures (h * W + l) % W == l % W
  {
  }

  // --------------------------------------------------------------- right shift

  /** shr is division by 2^n, and the dropped part is known exactly. */
  lemma ShiftRightExact(u1: Word, u2: Word, n: Word)
    ensures Wide(ShiftRight(u1, u2, n)) == Shr(Wide((u1, u2)), n)
    ensures Low(Wide((u1, u2)), n) == if n <= 64 then Low(u2, n) else Low(u1, n - 64) * W + u2
  {
    if n <= 64 {
      ShiftRightNear(u1, u2, n);
    } else {
      ShiftRightFar(u1, u2, n);
    }
  }

  lemma ShiftRightNear(u1: Word, u2: Word, n: Word)
    requires n <= 64
    ensures Wide(ShiftRight(u1, u2, n)) == Shr(Wide((u1, u2)), n)
    ensures Low(Wide((u1, u2)), n) == Low(u2, n)
  {
    hide Shl, Shr, Low, Up, Or;
    var m := 64 - n;
    ShlShr(u1, m);
    ShrLow(u1, n);
    ShrLow(u2, n);
    Pow2Constants();
    ShrBound(u2, n, m);
    OrDisjoint(Low(u1, n), Shr(u2, n), m);
    OrCommutes(Shl(u1, m), Shr(u2, n));
    var r1, r2 := Shr(u1, n), Shr(u2, n) + Shl(u1, m);
    if n < 64 {
      ShrBeyond(u1, Sub(n, 64));
      OrBit(r2, 0);
    } else {
      ShrBeyond(u2, 64);
      ShiftedWhole(u2, u1);
      OrBit(u1, 0);
    }
    assert ShiftRight(u1, u2, n) == (r1, r2);
    UpWide(r1, r2, n);
    UpSum(Shr(u2, n), Shl(u1, m), n);
    UpUp(Low(u1, n), m, n);
    Up64(Low(u1, n));
    ShrLowUnique(Wide((u1, u2)), n, Wide((r1, r2)), Low(u2, n));
  }

  lemma {:induction false} OrCommutes(a: nat, b: nat)
    ensures Or(a, b) == Or(b, a)
  {
    if a > 0 && b > 0 {
      OrCommutes(a / 2, b / 2);
    }
  }

  lemma ShiftRightFar(u1: Word, u2: Word, n: Word)
    requires n > 64
    ensures Wide(ShiftRight(u1, u2, n)) == Shr(Wide((u1, u2)), n)
    ensures Low(Wide((u1, u2)), n) == Low(u1, n - 64) * W + u2
  {
    hide Shl, Shr, Low, Up, Or;
    var m := n - 64;
    ShrBeyond(u1, n);
    ShrBeyond(u2, n);
    ShlBeyond(u1, Sub(64, n));
    OrBit(0, 0);
    OrZeroLeft(Shr(u1, m));
    var q, l := Shr(u1, m), Low(u1, m);
    ShrLow(u1, m);
    UpUp(q, m, 64);
    Up64(Up(q, m));
    UpUp(1, m, 64);
    Up64(Pow2(m));
    ShrLowUnique(Wide((u1, u2)), n, q, l * W + u2);
  }

  lemma OrZeroLeft(a: nat)
    ensures Or(0, a) == a
  {
  }

  // --------------------------------------------------------------- shrcompress

  /** shrcompress is the sticky shift of the 128-bit number, for every count. */
  lemma ShrCompressExact(u1: Word, u2: Word, n: Word)
    ensures Wide(ShrCompress(u1, u2, n)) == Compress(Wide((u1, u2)), n)
  {
    hide Compress;
    CompressMeaning(Wide((u1, u2)), n);
    if n == 0 {
      OrBit(Wide((u1, u2)), 0);
    } else if n >= 128 {
      ShrCompressAll(u1, u2, n);
    } else {
      ShrCompressSome(u1, u2, n);
    }
  }

  lemma ShrCompressAll(u1: Word, u2: Word, n: Word)
    requires n >= 128
    ensures var x := Wide((u1, u2));
            Wide(ShrCompress(u1, u2, n)) == Or(Shr(x, n), if Low(x, n) == 0 then 0 else 1)
  {
    hide Shr, Low, Up, Or;
    Pow2Constants();
    UpUp(1, 64, 64);
    Up64(Pow2(64));
    Pow2Monotone(1, 128, n);
    LowWhole(Wide((u1, u2)), n);
    OrZero(u1, u2);
    OrZeroLeft(if Wide((u1, u2)) == 0 then 0 else 1);
  }

  lemma ShrCompressSome(u1: Word, u2: Word, n: Word)
    requires 0 < n < 128
    ensures var x := Wide((u1, u2));
            Wide(ShrCompress(u1, u2, n)) == Or(Shr(x, n), if Low(x, n) == 0 then 0 else 1)
  {
    hide Shr, Low, Up, Or, And, ShiftRight;
    ShiftRightExact(u1, u2, n);
    var r := if n == 64 then (0, u1) else ShiftRight(u1, u2, n);
    var k := if n < 64 then n else n - 64;
    MaskWord(k);
    AndMask(if n < 64 then u2 else u1, k);
    OrZero(And(u1, Pow2(k) - 1), u2);
    if n == 64 {
      ShiftRight64(u1, u2);
      Pow2Constants();
      LowWhole(u2, 64);
    }
    var bit := if Low(Wide((u1, u2)), n) == 0 then 0 else 1;
    WideBit(r, bit);
  }

  lemma ShiftRight64(u1: Word, u2: Word)
    ensures ShiftRight(u1, u2, 64) == (0, u1)
  {
    hide Shr, Shl, Or;
    ShrBeyond(u1, 64);
    ShrBeyond(u2, 64);
    ShiftedWhole(u2, u1);
    OrZeroLeft(u1);
  }

  lemma MaskWord(k: nat)
    requires k < 64
    ensures Shl(1, k) == Pow2(k) && Sub(Shl(1, k), 1) == Pow2(k) - 1
  {
    hide Shl, Up;
    ShlMod(1, k);
    Pow2Constants();
    Pow2Monotone(1, k, 63);
    SmallMod(Pow2(k));
  }

  lemma SmallMod(x: nat)
    requires x < W
    ensures x % W == x
  {
  }

  lemma WideBit(r: (Word, Word), bit: Word)
    requires bit <= 1
    ensures Wide((r.0, OrWord(r.1, bit))) == Or(Wide(r), bit)
  {
    hide Or;
    OrBit(r.1, bit);
    OrBit(Wide(r), bit);
    WideParity(r.0, r.1);
  }

  lemma WideParity(a: nat, b: nat)
    ensures (a * W + b) % 2 == b % 2
  {
    var h := a * 0x8000_0000_0000_0000;
    assert a * W == 2 * h;
  }

  // ------------------------------------------------------------- leading zeros

  /** lz locates the highest bit of a non-zero 128-bit number. */
  lemma LeadingZeros2Exact(u1: Word, u2: Word)
    requires Wide((u1, u2)) > 0
    ensures LeadingZeros2(u1, u2) <= 127
    ensures Pow2(127 - LeadingZeros2(u1, u2)) <= Wide((u1, u2)) < Pow2(128 - LeadingZeros2(u1, u2))
  {
    hide Up;
    if u1 == 0 {
      LenPow2(u2);
    } else {
      LenPow2(u1);
      var k := Len(u1);
      UpUp(1, k - 1, 64);
      UpUp(1, k, 64);
      Up64(Pow2(k - 1));
      Up64(Pow2(k));
    }
  }
}
