/**
 * Go's 64-bit unsigned words as natural numbers.
 *
 * Up(x, n) is x * 2^n. The bitwise operators are defined digit by digit in base two,
 * and the shifts have Go's meaning: one position at a time, dropping what leaves the
 * word, so that a shift by 64 or more gives zero. The lemmas turn each operator into
 * arithmetic; every step multiplies or divides by the constant two only.
 */
module Words {

  const W: nat := 0x1_0000_0000_0000_0000

  type Word = x: nat | x < 0x1_0000_0000_0000_0000

  /** x * 2^n */
  function Up(x: int, n: nat): (r: int)
    ensures x >= 0 ==> r >= x
    ensures x == 0 ==> r == 0
  {
    if n == 0 then x else 2 * Up(x, n - 1)
  }

  function Pow2(n: nat): (r: nat)
    ensures r >= 1
  {
    Up(1, n)
  }

  // ---------------------------------------------------------------- operators

  function Or(a: nat, b: nat): nat {
    if a == 0 then b
    else if b == 0 then a
    else (if a % 2 == 1 || b % 2 == 1 then 1 else 0) + 2 * Or(a / 2, b / 2)
  }

  function And(a: nat, b: nat): nat {
    if a == 0 || b == 0 then 0
    else (if a % 2 == 1 && b % 2 == 1 then 1 else 0) + 2 * And(a / 2, b / 2)
  }

  function Xor(a: nat, b: nat): nat {
    if a == 0 then b
    else if b == 0 then a
    else (if a % 2 != b % 2 then 1 else 0) + 2 * Xor(a / 2, b / 2)
  }

  function Not(a: Word): Word { W - 1 - a }

  /** x << n on 64-bit words. */
  function Shl(x: Word, n: nat): Word {
    if n == 0 then x else 2 * Shl(x, n - 1) % W
  }

  /** x >> n */
  function Shr(x: nat, n: nat): (r: nat)
    ensures r <= x
  {
    if n == 0 then x else Shr(x / 2, n - 1)
  }

  /** a - b on unsigned words, wrapping below zero. */
  function Sub(a: Word, b: Word): Word { if a >= b then a - b else W + a - b }

  /** The lowest n bits of x. */
  function Low(x: nat, n: nat): (r: nat)
    ensures r < Pow2(n)
  {
    if n == 0 then 0 else x % 2 + 2 * Low(x / 2, n - 1)
  }

  /** The number of binary digits of x. */
  function Len(x: nat): nat {
    if x == 0 then 0 else 1 + Len(x / 2)
  }

  /** bits.LeadingZeros64 */
  function LeadingZeros(x: Word): (l: nat)
    ensures l <= 64
  {
    Pow2Constants();
    LenBound(x, 64);
    64 - Len(x)
  }

  // --------------------------------------------------------- powers of two

  lemma {:induction false} UpUp(x: int, a: nat, b: nat)
    ensures Up(Up(x, a), b) == Up(x, a + b)
    decreases b
  {
    if b > 0 {
      UpUp(x, a, b - 1);
    }
  }

  lemma {:induction false} UpSum(x: int, y: int, n: nat)
    ensures Up(x + y, n) == Up(x, n) + Up(y, n)
    decreases n
  {
    if n > 0 {
      UpSum(x, y, n - 1);
    }
  }

  lemma {:induction false} UpDifference(x: int, y: int, n: nat)
    ensures Up(x - y, n) == Up(x, n) - Up(y, n)
    decreases n
  {
    if n > 0 {
      UpDifference(x, y, n - 1);
    }
  }

  lemma {:induction false} UpOrder(x: int, y: int, n: nat)
    ensures x < y <==> Up(x, n) < Up(y, n)
    ensures x == y <==> Up(x, n) == Up(y, n)
    decreases n
  {
    if n > 0 {
      UpOrder(x, y, n - 1);
    }
  }

  lemma {:induction false} Pow2Monotone(x: nat, a: nat, b: nat)
    requires a <= b
    ensures Up(x, a) <= Up(x, b)
    decreases b
  {
    if a < b {
      Pow2Monotone(x, a, b - 1);
    }
  }

  lemma UpEight(x: int, n: nat)
    ensures Up(x, n + 8) == 256 * Up(x, n)
  {
    assert Up(x, n + 2) == 4 * Up(x, n);
    assert Up(x, n + 4) == 4 * Up(x, n + 2);
    assert Up(x, n + 6) == 4 * Up(x, n + 4);
  }

  lemma Up64(x: int)
    ensures Up(x, 64) == x * W
  {
    UpEight(x, 0);
    UpEight(x, 8);
    UpEight(x, 16);
    UpEight(x, 24);
    UpEight(x, 32);
    UpEight(x, 40);
    UpEight(x, 48);
    UpEight(x, 56);
  }

  lemma Pow2Constants()
    ensures Pow2(9) == 512 && Pow2(10) == 1024 && Pow2(11) == 2048
    ensures Pow2(52) == 0x10_0000_0000_0000
    ensures Pow2(53) == 0x20_0000_0000_0000
    ensures Pow2(62) == 0x4000_0000_0000_0000
    ensures Pow2(63) == 0x8000_0000_0000_0000
    ensures Pow2(64) == W
  {
    UpEight(1, 0);
    UpEight(1, 1);
    UpEight(1, 2);
    UpEight(1, 3);
    UpEight(1, 8);
    UpEight(1, 16);
    UpEight(1, 24);
    UpEight(1, 32);
    UpEight(1, 40);
    UpEight(1, 48);
    assert Up(1, 50) == 4 * Up(1, 48) && Up(1, 52) == 4 * Up(1, 50) && Up(1, 53) == 2 * Up(1, 52);
    assert Up(1, 58) == 4 * Up(1, 56) && Up(1, 60) == 4 * Up(1, 58);
    assert Up(1, 62) == 4 * Up(1, 60) && Up(1, 64) == 4 * Up(1, 62);
  }

  // -------------------------------------------------------- bitwise operators

  lemma {:induction false} OrDisjoint(h: nat, b: nat, k: nat)
    requires b < Pow2(k)
    ensures Or(Up(h, k), b) == Up(h, k) + b
    decreases k
  {
    if h != 0 && b != 0 {
      OrDisjoint(h, b / 2, k - 1);
    }
  }

  lemma {:induction false} OrSame(a: nat)
    ensures Or(a, a) == a
  {
    if a > 0 {
      OrSame(a / 2);
    }
  }

  /** Setting the lowest bit. */
  lemma OrBit(a: nat, bit: nat)
    requires bit <= 1
    ensures Or(a, bit) == if bit == 1 && a % 2 == 0 then a + 1 else a
  {
    if a > 0 && bit == 1 {
      assert Or(a / 2, 0) == a / 2;
    }
  }

  lemma LowZero(n: nat)
    ensures Low(0, n) == 0
  {
  }

  lemma {:induction false} AndMask(a: nat, n: nat)
    ensures And(a, Pow2(n) - 1) == Low(a, n)
    decreases n
  {
    if n > 0 {
      assert (Pow2(n) - 1) / 2 == Pow2(n - 1) - 1;
      AndMask(a / 2, n - 1);
      LowZero(n);
    }
  }

  lemma AndOne(a: nat)
    ensures And(a, 1) == a % 2
  {
    AndMask(a, 1);
  }

  lemma AndClearLowest(a: nat, n: nat)
    requires n >= 1
    ensures And(a, Pow2(n) - 2) == Low(a, n) - a % 2
  {
    assert (Pow2(n) - 2) / 2 == Pow2(n - 1) - 1;
    AndMask(a / 2, n - 1);
    LowZero(n - 1);
  }

  /** Masking with all ones except possibly the lowest bit. */
  lemma AndClearBit(a: Word, bit: nat)
    requires bit <= 1
    ensures And(a, Not(bit)) == if bit == 1 then a - a % 2 else a
  {
    var n := 64;
    Pow2Constants();
    assert Not(bit) == Pow2(n) - 1 - bit;
    LowWhole(a, n);
    if bit == 0 {
      AndMask(a, n);
    } else {
      AndClearLowest(a, n);
    }
  }

  lemma {:induction false} XorZero(a: nat, b: nat)
    ensures Xor(a, b) == 0 <==> a == b
  {
    if a > 0 && b > 0 {
      XorZero(a / 2, b / 2);
    }
  }

  // ----------------------------------------------------------------- shifts

  /** A number is its high part moved up, plus its low part. */
  lemma {:induction false} ShrLow(x: nat, n: nat)
    ensures x == Up(Shr(x, n), n) + Low(x, n)
  {
    if n > 0 {
      ShrLow(x / 2, n - 1);
    }
  }

  /** The parts are the only such pair. */
  lemma {:induction false} ShrLowUnique(x: nat, n: nat, q: nat, r: nat)
    requires x == Up(q, n) + r && r < Pow2(n)
    ensures Shr(x, n) == q && Low(x, n) == r
    decreases n
  {
    if n > 0 {
      ShrLowUnique(x / 2, n - 1, q, r / 2);
    }
  }

  lemma LowWhole(x: nat, n: nat)
    requires x < Pow2(n)
    ensures Low(x, n) == x && Shr(x, n) == 0
  {
    ShrLowUnique(x, n, 0, x);
  }

  lemma ShrBeyond(x: Word, n: nat)
    requires n >= 64
    ensures Shr(x, n) == 0
  {
    Pow2Constants();
    Pow2Monotone(1, 64, n);
    LowWhole(x, n);
  }

  lemma DoubleMod(u: nat)
    ensures 2 * (u % W) % W == 2 * u % W
  {
    var q := u / W;
    assert 2 * u == 2 * (u % W) + 2 * q * W;
  }

  lemma MultipleMod(h: nat, l: nat)
    requires l < W
    ensures (h * W + l) % W == l
  {
  }

  lemma {:induction false} ShlMod(x: Word, n: nat)
    ensures Shl(x, n) == Up(x, n) % W
    decreases n
  {
    if n > 0 {
      ShlMod(x, n - 1);
      DoubleMod(Up(x, n - 1));
    }
  }

  lemma ShlBeyond(x: Word, n: nat)
    requires n >= 64
    ensures Shl(x, n) == 0
  {
    ShlMod(x, n);
    UpUp(x, n - 64, 64);
    Up64(Up(x, n - 64));
    MultipleMod(Up(x, n - 64), 0);
  }

  /** What a left shift keeps and what it drops. */
  lemma ShlShr(x: Word, n: nat)
    requires n <= 64
    ensures Up(x, n) == Shr(x, 64 - n) * W + Shl(x, n)
    ensures Shl(x, n) == Up(Low(x, 64 - n), n)
    ensures Shr(x, 64 - n) < Pow2(n)
  {
    hide Shr, Low, Shl, Up;
    var m := 64 - n;
    var h, l := Shr(x, m), Low(x, m);
    ShrLow(x, m);
    UpSum(Up(h, m), l, n);
    UpUp(h, m, n);
    Up64(h);
    UpUp(1, m, n);
    Pow2Constants();
    UpOrder(l, Pow2(m), n);
    ShlMod(x, n);
    MultipleMod(h, Up(l, n));
    ShrBound(x, m, n);
  }

  lemma ShrBound(x: nat, m: nat, n: nat)
    requires x < Pow2(m + n)
    ensures Shr(x, m) < Pow2(n)
  {
    ShrLow(x, m);
    UpUp(1, n, m);
    UpOrder(Shr(x, m), Pow2(n), m);
  }

  // ------------------------------------------------------------- digit counts

  lemma {:induction false} LenBound(x: nat, n: nat)
    requires x < Pow2(n)
    ensures Len(x) <= n
  {
    if x > 0 {
      LenBound(x / 2, n - 1);
    }
  }

  lemma {:induction false} LenPow2(x: nat)
    requires x > 0
    ensures Len(x) >= 1
    ensures Pow2(Len(x) - 1) <= x < Pow2(Len(x))
  {
    if x > 1 {
      LenPow2(x / 2);
    }
  }
}
