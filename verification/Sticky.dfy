/**
 * Right shifts that keep one sticky bit.
 *
 * Halve drops the lowest bit of a number and, if that bit was one, sets the bit that
 * becomes the lowest; Compress does it n times. CompressMeaning gives the closed
 * form: the quotient by 2^n with its lowest bit set when the remainder is not zero.
 * The other lemmas say why that is enough to round once at the end: a compressed
 * value compares with every even number exactly as the uncompressed one does, and
 * compressing commutes with further shifts, sums and differences.
 */
module Sticky {
  import opened Words

  function Halve(x: nat): nat {
    if x % 4 == 1 then x / 2 + 1 else x / 2
  }

  function Compress(x: nat, n: nat): nat
    decreases n
  {
    if n == 0 then x else Compress(Halve(x), n - 1)
  }

  lemma HalveOrder(x: nat, a: nat)
    requires a % 2 == 0
    ensures Halve(x) < a <==> x < 2 * a
    ensures Halve(x) == a <==> x == 2 * a
  {
  }

  lemma HalveSum(a: nat, z: nat)
    requires a % 2 == 0
    ensures Halve(2 * a + z) == a + Halve(z)
  {
    var b := a / 2;
    assert (4 * b + z) % 4 == z % 4;
  }

  lemma HalveDifference(a: nat, z: nat)
    requires a % 2 == 0 && z <= 2 * a
    ensures Halve(z) <= a
    ensures Halve(2 * a - z) == a - Halve(z)
  {
    HalveParts(z / 4, z % 4);
    if z % 4 == 0 {
      HalveParts(a / 2 - z / 4, 0);
    } else {
      HalveParts(a / 2 - z / 4 - 1, 4 - z % 4);
    }
  }

  lemma HalveParts(q: nat, r: nat)
    requires r < 4
    ensures Halve(4 * q + r) == 2 * q + (if r == 0 then 0 else 1)
  {
  }

  lemma HalveTwice(x: nat)
    ensures Halve(2 * x) == x
    ensures Halve(x) / 2 == x / 4
    ensures Halve(x) % 2 == 0 <==> x % 4 == 0
  {
  }

  lemma UpEven(c: int, n: nat)
    requires c % 2 == 0
    ensures Up(c, n) % 2 == 0
  {
  }

  /** The order of a value against even numbers survives compression. */
  lemma {:induction false} CompressOrder(x: nat, n: nat, c: nat)
    requires c % 2 == 0
    ensures Compress(x, n) < c <==> x < Up(c, n)
    ensures Compress(x, n) == c <==> x == Up(c, n)
    decreases n
  {
    hide Halve;
    if n > 0 {
      CompressOrder(Halve(x), n - 1, c);
      UpEven(c, n - 1);
      HalveOrder(x, Up(c, n - 1));
    }
  }

  /** Compressing twice is compressing once by the sum of the shifts. */
  lemma {:induction false} CompressCompress(x: nat, a: nat, b: nat)
    ensures Compress(Compress(x, a), b) == Compress(x, a + b)
    decreases a
  {
    hide Halve;
    if a > 0 {
      CompressCompress(Halve(x), a - 1, b);
    }
  }

  /** Bits shifted in at the bottom and out again do not matter. */
  lemma {:induction false} CompressScaled(x: nat, n: nat, c: nat)
    ensures Compress(Up(x, c), n + c) == Compress(x, n)
    decreases c
  {
    hide Halve;
    if c > 0 {
      CompressScaled(x, n, c - 1);
      HalveTwice(Up(x, c - 1));
    }
  }

  /** An even addend can be added before or after the compression. */
  lemma {:induction false} CompressSum(p: nat, z: nat, d: nat)
    requires p % 2 == 0
    ensures p + Compress(z, d) == Compress(Up(p, d) + z, d)
    decreases d
  {
    hide Halve;
    if d > 0 {
      CompressSum(p, Halve(z), d - 1);
      UpEven(p, d - 1);
      HalveSum(Up(p, d - 1), z);
    }
  }

  /** And so can an even minuend: the sticky bit of a difference is right too. */
  lemma {:induction false} CompressDifference(p: nat, z: nat, d: nat)
    requires p % 2 == 0 && z <= Up(p, d)
    ensures Compress(z, d) <= p
    ensures p - Compress(z, d) == Compress(Up(p, d) - z, d)
    decreases d
  {
    hide Halve;
    if d > 0 {
      UpEven(p, d - 1);
      HalveDifference(Up(p, d - 1), z);
      CompressDifference(p, Halve(z), d - 1);
    }
  }

  /** The closed form, in terms of the quotient and the remainder of x by 2^n. */
  lemma {:induction false} CompressMeaning(x: nat, n: nat)
    ensures Compress(x, n) == Or(Shr(x, n), if Low(x, n) == 0 then 0 else 1)
    decreases n
  {
    if n == 1 {
      OrBit(x / 2, x % 2);
      assert Compress(x, 1) == Halve(x);
      assert Low(x, 1) == x % 2;
    } else if n > 1 {
      hide Halve;
      CompressMeaning(Halve(x), n - 1);
      HalveTwice(x);
      LowTwice(x, n);
      assert Low(Halve(x), n - 1) == Halve(x) % 2 + 2 * Low(x / 4, n - 2);
      assert Shr(Halve(x), n - 1) == Shr(x / 4, n - 2);
    }
  }

  lemma LowTwice(x: nat, n: nat)
    requires n > 1
    ensures Low(x, n) == x % 4 + 4 * Low(x / 4, n - 2)
    ensures Shr(x, n) == Shr(x / 4, n - 2)
  {
    assert x / 2 / 2 == x / 4;
    assert Low(x, n) == x % 2 + 2 * (x / 2 % 2 + 2 * Low(x / 4, n - 2));
  }

  /** A multiple of 2^n loses nothing. */
  lemma CompressExact(q: nat, n: nat)
    ensures Compress(Up(q, n), n) == q
  {
    CompressScaled(q, 0, n);
  }
}
