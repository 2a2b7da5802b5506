/**
 * What Unescape makes of references, told without its own functions: numerals come from digit
 * printers, code points are read back by a decoder of UTF-8 (section 3 of RFC 3629), and names
 * are looked up in the tables directly.
 */
module HtmlReferences {
  import opened Prelude
  import opened Html

  // ---------------------------------------------------------------- printing numerals

  const LOWER: Bytes := [48, 49, 50, 51, 52, 53, 54, 55, 56, 57, 97, 98, 99, 100, 101, 102]
  const UPPER: Bytes := [48, 49, 50, 51, 52, 53, 54, 55, 56, 57, 65, 66, 67, 68, 69, 70]

  /** The digits of n in base 10 or 16. */
  function Printed(n: nat, base: nat, digits: Bytes): Bytes
    requires (base == 10 || base == 16) && |digits| == 16
  {
    if n < base then [digits[n]] else Printed(n / base, base, digits) + [digits[n % base]]
  }

  /** How a numeral is written: &#106; or &#x6a; or &#X6A; */
  datatype Form = Decimal | Hex(bigX: bool, bigDigits: bool)

  function Base(f: Form): nat { if f.Decimal? then 10 else 16 }

  function Numeral(n: nat, f: Form): Bytes {
    Printed(n, Base(f), if f.Hex? && f.bigDigits then UPPER else LOWER)
  }

  function Marked(f: Form): Bytes {
    if f.Decimal? then [38, 35] else if f.bigX then [38, 35, 88] else [38, 35, 120]
  }

  // ------------------------------------------------------------------- reading UTF-8

  /** The six bits of a continuation byte, or a value far too large. */
  function Tail(b: Byte): int { if 0x80 <= b < 0xC0 then b - 0x80 else 0x100_0000_0000 }

  /** The number the bytes spell, by the length the first byte announces. */
  function Spelt(e: Bytes): int {
    if |e| == 1 && e[0] < 0x80 then e[0]
    else if |e| == 2 && 0xC0 <= e[0] < 0xE0 then Lead(e[0], 0xC0) * 64 + Tail(e[1])
    else if |e| == 3 && 0xE0 <= e[0] < 0xF0 then Lead(e[0], 0xE0) * 4096 + Tail(e[1]) * 64 + Tail(e[2])
    else if |e| == 4 && 0xF0 <= e[0] < 0xF8
    then Lead(e[0], 0xF0) * 262144 + Tail(e[1]) * 4096 + Tail(e[2]) * 64 + Tail(e[3])
    else -1
  }

  function Lead(b: Byte, mark: int): int { b - mark }

  function Shortest(x: int): nat { if x < 0x80 then 1 else if x < 0x800 then 2 else if x < 0x1_0000 then 3 else 4 }

  /** A code point: not a surrogate. */
  predicate Scalar(x: int) { 0 <= x < 0xD800 || 0xE000 <= x <= 0x10FFFF }

  /** The code point whose encoding e is, if it is one; overlong forms and surrogates are not. */
  function Point(e: Bytes): Option<int> {
    if Scalar(Spelt(e)) && |e| == Shortest(Spelt(e)) then Some(Spelt(e)) else None
  }

  lemma EncodedPoint(x: int)
    requires Scalar(x)
    ensures Point(Utf8(x)) == Some(x)
  {
    SpeltBack(x);
    hide Utf8, Spelt;
  }

  lemma SpeltBack(x: int)
    requires Scalar(x)
    ensures Spelt(Utf8(x)) == x && |Utf8(x)| == Shortest(x)
  {
    SixBits(x);
    var c, d := x / 64 % 64, x % 64;
    if x < 0x80 {
      assert Utf8(x) == [x];
    } else if x < 0x800 {
      assert Utf8(x) == [0xC0 + x / 64, 0x80 + d];
    } else if x < 0x1_0000 {
      assert Utf8(x) == [0xE0 + x / 4096, 0x80 + c, 0x80 + d];
    } else {
      SpeltLong(x);
    }
  }

  lemma SpeltLong(x: int)
    requires 0x1_0000 <= x <= 0x10FFFF
    ensures Spelt(Utf8(x)) == x && |Utf8(x)| == 4
  {
    SixBits(x);
    assert Utf8(x) == [0xF0 + x / 262144, 0x80 + x / 4096 % 64, 0x80 + x / 64 % 64, 0x80 + x % 64];
  }

  lemma SixBits(x: nat)
    ensures x == x / 64 * 64 + x % 64 == x / 4096 * 4096 + x / 64 % 64 * 64 + x % 64
    ensures x == x / 262144 * 262144 + x / 4096 % 64 * 4096 + x / 64 % 64 * 64 + x % 64
    ensures 0 <= x % 64 < 64 && 0 <= x / 64 % 64 < 64 && 0 <= x / 4096 % 64 < 64
  {
    assert x / 64 == x / 4096 * 64 + x / 64 % 64;
    assert x / 4096 == x / 262144 * 64 + x / 4096 % 64;
  }

  // ----------------------------------------------------------------- reading numerals

  function Valued(ds: Bytes, base: nat): nat {
    if ds == [] then 0 else Valued(ds[..|ds| - 1], base) * base + DigitOf(ds[|ds| - 1])
  }

  function DigitOf(c: Byte): nat {
    if 48 <= c <= 57 then c - 48 else if 97 <= c <= 102 then c - 97 + 10 else if 65 <= c <= 70 then c - 65 + 10 else 0
  }

  predicate IsDigit(c: Byte, base: nat) {
    48 <= c <= 57 || (base == 16 && (97 <= c <= 102 || 65 <= c <= 70))
  }

  predicate AllDigits(ds: Bytes, base: nat) {
    forall i :: 0 <= i < |ds| ==> IsDigit(ds[i], base)
  }

  lemma {:induction false} PrintedDigits(n: nat, base: nat, digits: Bytes)
    requires (base == 10 || base == 16) && (digits == LOWER || digits == UPPER)
    ensures var ds := Printed(n, base, digits);
      ds != [] && AllDigits(ds, base) && Valued(ds, base) == n
    decreases n
  {
    PrintedStep(n, base, digits);
    hide Printed, Valued, IsDigit, DigitOf, AllDigits;
    NoDigits(base);
    if n < base {
      DigitPrinted(n, base, digits);
      assert [] + [digits[n]] == [digits[n]];
      ValuedSnoc([], digits[n], base);
    } else {
      var q, r := n / base, n % base;
      PrintedDigits(q, base, digits);
      DigitPrinted(r, base, digits);
      ValuedSnoc(Printed(q, base, digits), digits[r], base);
    }
  }

  lemma NoDigits(base: nat)
    ensures Valued([], base) == 0 && AllDigits([], base)
  {
  }

  lemma PrintedStep(n: nat, base: nat, digits: Bytes)
    requires (base == 10 || base == 16) && |digits| == 16
    ensures 0 <= n % base < base && n / base * base + n % base == n && (n >= base ==> 0 <= n / base < n)
    ensures Printed(n, base, digits) ==
            if n < base then [digits[n]] else Printed(n / base, base, digits) + [digits[n % base]]
  {
  }

  lemma DigitPrinted(d: nat, base: nat, digits: Bytes)
    requires (base == 10 || base == 16) && (digits == LOWER || digits == UPPER) && d < base
    ensures IsDigit(digits[d], base) && DigitOf(digits[d]) == d
  {
  }

  lemma ValuedSnoc(ds: Bytes, c: Byte, base: nat)
    ensures Valued(ds + [c], base) == Valued(ds, base) * base + DigitOf(c)
    ensures AllDigits(ds, base) && IsDigit(c, base) ==> AllDigits(ds + [c], base)
  {
    assert (ds + [c])[..|ds|] == ds;
  }

  /** The digit loop over digits ds from position i on, one digit further. */
  lemma DigitStep(s: Bytes, i: nat, hex: bool, x: int)
    requires i < |s| && IsDigit(s[i], if hex then 16 else 10)
    ensures Numeric(s, i, hex, x) == Numeric(s, i + 1, hex, Wrap32((if hex then 16 else 10) * x + DigitOf(s[i])))
  {
  }

  lemma WrapAgain(x: int, base: int, d: int)
    requires base == 10 || base == 16
    ensures Wrap32(base * Wrap32(x) + d) == Wrap32(base * x + d)
  {
    var k := (x - Wrap32(x)) / 0x1_0000_0000;
    assert x == Wrap32(x) + k * 0x1_0000_0000;
    WrapMultiple(base * Wrap32(x) + d, base * k);
  }

  lemma WrapMultiple(x: int, k: int)
    ensures Wrap32(x + k * 0x1_0000_0000) == Wrap32(x)
  {
  }

  /** After k digits the loop has their value, wrapped to 32 bits. */
  lemma {:induction false} DigitsRead(s: Bytes, i: nat, ds: Bytes, k: nat, hex: bool)
    requires k <= |ds| && i + |ds| <= |s| && s[i..i + |ds|] == ds && AllDigits(ds, if hex then 16 else 10)
    ensures Numeric(s, i, hex, 0) == Numeric(s, i + k, hex, Wrap32(Valued(ds[..k], if hex then 16 else 10)))
  {
    var base := if hex then 16 else 10;
    if k > 0 {
      DigitsRead(s, i, ds, k - 1, hex);
      assert s[i..i + |ds|][k - 1] == s[i + k - 1];
      assert ds[..k] == ds[..k - 1] + [ds[k - 1]];
      ValuedSnoc(ds[..k - 1], ds[k - 1], base);
      DigitStep(s, i + k - 1, hex, Wrap32(Valued(ds[..k - 1], base)));
      WrapAgain(Valued(ds[..k - 1], base), base, DigitOf(ds[k - 1]));
    } else {
      assert ds[..0] == [];
    }
  }

  // ---------------------------------------------------------------- numeric references

  /** What the numeral of n stands for: its value as a 32-bit number, with what browsers have
      always read into some values. */
  predicate StandsFor(n: nat, x: int) {
    var m := n % 0x1_0000_0000;
    if 0x80 <= m <= 0x9F then x == Windows1252(m)
    else if m == 0 || 0xD800 <= m < 0xE000 || m > 0x10FFFF then x == 0xFFFD
    else x == m
  }

  /** The characters of Windows-1252 where they are not those of Unicode. */
  function Windows1252(m: int): int {
    match m
    case 0x80 => 0x20AC
    case 0x82 => 0x201A
    case 0x83 => 0x0192
    case 0x84 => 0x201E
    case 0x85 => 0x2026
    case 0x86 => 0x2020
    case 0x87 => 0x2021
    case 0x88 => 0x02C6
    case 0x89 => 0x2030
    case 0x8A => 0x0160
    case 0x8B => 0x2039
    case 0x8C => 0x0152
    case 0x8E => 0x017D
    case 0x91 => 0x2018
    case 0x92 => 0x2019
    case 0x93 => 0x201C
    case 0x94 => 0x201D
    case 0x95 => 0x2022
    case 0x96 => 0x2013
    case 0x97 => 0x2014
    case 0x98 => 0x02DC
    case 0x99 => 0x2122
    case 0x9A => 0x0161
    case 0x9B => 0x203A
    case 0x9C => 0x0153
    case 0x9E => 0x017E
    case 0x9F => 0x0178
    case _ => m
  }

  lemma WrapValue(n: nat)
    ensures var m := n % 0x1_0000_0000;
      0 <= m < 0x1_0000_0000 && Wrap32(n) == if m < 0x8000_0000 then m else m - 0x1_0000_0000
  {
  }

  lemma OldValue(m: int)
    requires 0x80 <= m <= 0x9F
    ensures REPLACEMENTS[m - 0x80] == Windows1252(m) && Scalar(Windows1252(m))
  {
  }

  /** The code point that a value read from digits becomes. */
  function Becomes(n: nat): int {
    if Wrap32(n) < 0 then 0xFFFD else Mapped(Wrap32(n))
  }

  lemma NegativeUtf8(x: int)
    requires x < 0
    ensures Utf8(Mapped(x)) == Utf8(0xFFFD)
  {
  }

  lemma MappedStands(n: nat)
    ensures Scalar(Becomes(n)) && StandsFor(n, Becomes(n)) && Utf8(Mapped(Wrap32(n))) == Utf8(Becomes(n))
  {
    WrapValue(n);
    var m := n % 0x1_0000_0000;
    if Wrap32(n) < 0 {
      NegativeUtf8(Wrap32(n));
    }
    hide Wrap32, Utf8;
    if 0x80 <= m <= 0x9F {
      OldValue(m);
    }
    hide Windows1252, REPLACEMENTS;
    assert Becomes(n) == if 0x8000_0000 <= m then 0xFFFD else Mapped(m);
  }

  /** A numeric reference to any number, in each of its forms, in front of any text, decodes to the
      code point it stands for. */
  lemma NumericReference(n: nat, f: Form, rest: Bytes, t: Tables)
    ensures exists e: Bytes, x: int ::
      && Point(e) == Some(x) && StandsFor(n, x)
      && Unescape(Marked(f) + Numeral(n, f) + [SEMI] + rest, t) == e + Unescape(rest, t)
  {
    NumeralRead(n, f, rest, t);
    MappedStands(n);
    EncodedPoint(Becomes(n));
    hide Utf8, Point, StandsFor, Mapped, Wrap32, Unescape, Becomes, Scalar, Numeral, Marked;
    assert Point(Utf8(Becomes(n))) == Some(Becomes(n));
  }

  lemma NumeralRead(n: nat, f: Form, rest: Bytes, t: Tables)
    ensures Unescape(Marked(f) + Numeral(n, f) + [SEMI] + rest, t) == Utf8(Mapped(Wrap32(n))) + Unescape(rest, t)
  {
    var ds := Numeral(n, f);
    PrintedDigits(n, Base(f), if f.Hex? && f.bigDigits then UPPER else LOWER);
    hide Printed, Valued, Wrap32, Numeric, Numeral;
    DigitsDecoded(ds, f, rest, t);
  }

  /** Any digits between the mark and the semicolon. */
  lemma DigitsDecoded(ds: Bytes, f: Form, rest: Bytes, t: Tables)
    requires ds != [] && AllDigits(ds, Base(f))
    ensures Unescape(Marked(f) + ds + [SEMI] + rest, t) ==
            Utf8(Mapped(Wrap32(Valued(ds, Base(f))))) + Unescape(rest, t)
  {
    var s := Marked(f) + ds + [SEMI] + rest;
    var i, x := |Marked(f)|, Wrap32(Valued(ds, Base(f)));
    Laid(Marked(f), ds, rest);
    DigitsRead(s, i, ds, |ds|, f.Hex?);
    assert ds[..|ds|] == ds;
    SemicolonEnds(s, i + |ds|, f.Hex?, x);
    FirstDigit(ds, Base(f));
    hide Numeric, Wrap32, Mapped, Utf8, Valued, Unescape, AllDigits;
    NumericEntity(s, f, i + |ds| + 1, x, t);
    UnescapeReference(s, t);
  }

  lemma FirstDigit(ds: Bytes, base: nat)
    requires ds != [] && AllDigits(ds, base)
    ensures IsDigit(ds[0], base) && ds[0] != SEMI && (base == 10 ==> ds[0] != 120 && ds[0] != 88)
  {
  }

  lemma SemicolonEnds(s: Bytes, i: nat, hex: bool, x: int)
    requires i < |s| && s[i] == SEMI
    ensures Numeric(s, i, hex, x) == (x, i + 1)
  {
  }

  lemma NumericEntity(s: Bytes, f: Form, end: nat, x: int, t: Tables)
    requires |s| > 3 && end > 3 && |Marked(f)| < |s| && forall k :: 0 <= k < |Marked(f)| ==> s[k] == Marked(f)[k]
    requires f.Decimal? ==> s[2] != 120 && s[2] != 88
    requires Numeric(s, |Marked(f)|, f.Hex?, 0) == (x, end)
    ensures Entity(s, t) == Ref(Utf8(Mapped(x)), end) && s[0] == AMP
  {
    hide Numeric, Mapped, Utf8;
    assert s[0] == Marked(f)[0] && s[1] == Marked(f)[1];
    if f.Hex? {
      assert s[2] == Marked(f)[2];
    }
  }

  lemma UnescapeReference(s: Bytes, t: Tables)
    requires s != [] && s[0] == AMP
    ensures Unescape(s, t) == Entity(s, t).out + Unescape(s[Entity(s, t).used..], t)
  {
  }

  lemma Laid(a: Bytes, ds: Bytes, rest: Bytes)
    ensures var s := a + ds + [SEMI] + rest;
      && s[|a|..|a| + |ds|] == ds && s[|a| + |ds|] == SEMI && s[|a| + |ds| + 1..] == rest
      && (forall k :: 0 <= k < |a| ==> s[k] == a[k]) && (ds != [] ==> s[|a|] == ds[0])
      && |s| == |a| + |ds| + 1 + |rest|
  {
  }

  /** In particular every code point that needs no replacement decodes to its own encoding. */
  lemma PlainReference(n: nat, f: Form, rest: Bytes, t: Tables)
    requires 0 < n < 0x110000 && !(0x80 <= n <= 0x9F) && !(0xD800 <= n < 0xE000)
    ensures exists e: Bytes ::
      Point(e) == Some(n) && Unescape(Marked(f) + Numeral(n, f) + [SEMI] + rest, t) == e + Unescape(rest, t)
  {
    NumericReference(n, f, rest, t);
    hide Point, Unescape, Marked, Numeral;
  }

  // ------------------------------------------------------ the edges of numeric references

  /** Digits behind which the text goes on without a semicolon: one decimal digit is not enough. */
  lemma BareDigits(ds: Bytes, f: Form, rest: Bytes, t: Tables)
    requires ds != [] && AllDigits(ds, Base(f))
    requires rest != [] ==> !IsDigit(rest[0], Base(f)) && rest[0] != SEMI
    ensures f.Hex? || |ds| >= 2 ==>
      exists e: Bytes, x: int ::
        && Point(e) == Some(x) && StandsFor(Valued(ds, Base(f)), x)
        && Unescape(Marked(f) + ds + rest, t) == e + Unescape(rest, t)
    ensures f.Decimal? && |ds| == 1 ==>
      Unescape(Marked(f) + ds + rest, t) == [AMP] + Unescape((Marked(f) + ds + rest)[1..], t)
  {
    var s := Marked(f) + ds + rest;
    var i, x := |Marked(f)|, Wrap32(Valued(ds, Base(f)));
    LaidBare(Marked(f), ds, rest);
    DigitsRead(s, i, ds, |ds|, f.Hex?);
    assert ds[..|ds|] == ds;
    OtherEnds(s, i + |ds|, f.Hex?, x);
    FirstDigit(ds, Base(f));
    var n := Valued(ds, Base(f));
    hide Numeric, Wrap32, Mapped, Utf8, Valued, Unescape, AllDigits, IsDigit, Point, StandsFor, Becomes, Scalar;
    UnescapeReference(s, t);
    if f.Hex? || |ds| >= 2 {
      NumericEntity(s, f, i + |ds|, x, t);
      MappedStands(n);
      EncodedPoint(Becomes(n));
      assert Point(Utf8(Becomes(n))) == Some(Becomes(n));
    } else {
      OneDigit(s, x, t);
    }
  }

  lemma LaidBare(a: Bytes, ds: Bytes, rest: Bytes)
    ensures var s := a + ds + rest;
      && s[|a|..|a| + |ds|] == ds && s[|a| + |ds|..] == rest && |s| == |a| + |ds| + |rest|
      && (rest != [] ==> s[|a| + |ds|] == rest[0])
      && (forall k :: 0 <= k < |a| ==> s[k] == a[k]) && (ds != [] ==> s[|a|] == ds[0])
  {
  }

  lemma OtherEnds(s: Bytes, i: nat, hex: bool, x: int)
    requires i <= |s| && (i < |s| ==> !IsDigit(s[i], if hex then 16 else 10) && s[i] != SEMI)
    ensures Numeric(s, i, hex, x) == (x, i)
  {
  }

  lemma OneDigit(s: Bytes, x: int, t: Tables)
    requires |s| >= 3 && s[0] == AMP && s[1] == HASH && s[2] != 120 && s[2] != 88 && Numeric(s, 2, false, 0) == (x, 3)
    ensures Entity(s, t) == Ref([AMP], 1)
  {
    hide Numeric;
    assert s[..1] == [AMP];
  }

  /** A hexadecimal reference without digits is an error character, if the semicolon is there. */
  lemma EmptyHex(f: Form, rest: Bytes, t: Tables)
    requires f.Hex?
    ensures Unescape(Marked(f) + [SEMI] + rest, t) == [0xEF, 0xBF, 0xBD] + Unescape(rest, t)
  {
    var s := Marked(f) + [SEMI] + rest;
    assert Utf8(0xFFFD) == [0xEF, 0xBF, 0xBD];
    Laid(Marked(f), [], rest);
    assert Marked(f) + [] == Marked(f);
    SemicolonEnds(s, 3, true, 0);
    hide Numeric, Unescape, Utf8;
    NumericEntity(s, f, 4, 0, t);
    UnescapeReference(s, t);
  }

  /** The value of a reference wraps around: four thousand million and some are an ordinary j. */
  lemma Wrapped(rest: Bytes, t: Tables)
    ensures exists e: Bytes ::
      Point(e) == Some(106) && Unescape(Marked(Decimal) + Numeral(4294967402, Decimal) + [SEMI] + rest, t)
                               == e + Unescape(rest, t)
  {
    hide Point, Unescape, Marked, Numeral, StandsFor;
    NumericReference(4294967402, Decimal, rest, t);
    var e: Bytes, x: int :|
      && Point(e) == Some(x) && StandsFor(4294967402, x)
      && Unescape(Marked(Decimal) + Numeral(4294967402, Decimal) + [SEMI] + rest, t) == e + Unescape(rest, t);
    AnOrdinaryJ(x);
  }

  lemma AnOrdinaryJ(x: int)
    requires StandsFor(4294967402, x)
    ensures x == 106
  {
  }

  // ------------------------------------------------------------------ named references

  predicate Letters(s: Bytes) {
    forall i :: 0 <= i < |s| ==> 97 <= s[i] <= 122 || 65 <= s[i] <= 90 || 48 <= s[i] <= 57
  }

  /** A longest run of letters and digits, with the semicolon behind it if there is one. */
  predicate FullName(name: Bytes, rest: Bytes) {
    name != [] && if name[|name| - 1] == SEMI then Letters(name[..|name| - 1])
                  else Letters(name) && (rest != [] ==> !Letters(rest[..1]) && rest[0] != SEMI)
  }

  predicate Known(t: Tables, name: Bytes) { name in t.entity && t.entity[name] != 0 }

  predicate KnownPair(t: Tables, name: Bytes) { name in t.entity2 && t.entity2[name].0 != 0 }

  /** j letters of the name are the longest known name that may stand without a semicolon. */
  predicate LongestKnown(t: Tables, name: Bytes, j: nat) {
    && 2 <= j <= 6 && j < |name| && Known(t, name[..j])
    && forall k :: j < k <= 6 && k < |name| ==> !Known(t, name[..k])
  }

  /** The four things a name can be, in the order they are tried. */
  lemma NamedReference(name: Bytes, rest: Bytes, t: Tables)
    requires FullName(name, rest)
    ensures var s := [AMP] + name + rest;
      && (Known(t, name) ==> Unescape(s, t) == Utf8(t.entity[name]) + Unescape(rest, t))
      && (!Known(t, name) && KnownPair(t, name) ==>
            Unescape(s, t) == Utf8(t.entity2[name].0) + Utf8(t.entity2[name].1) + Unescape(rest, t))
      && (!Known(t, name) && !KnownPair(t, name) ==>
            && (forall j: nat :: LongestKnown(t, name, j) ==>
                  Unescape(s, t) == Utf8(t.entity[name[..j]]) + Unescape(name[j..] + rest, t))
            && ((forall j: nat :: !LongestKnown(t, name, j)) ==>
                  Unescape(s, t) == [AMP] + name + Unescape(rest, t)))
  {
    var s := [AMP] + name + rest;
    NameRead(name, rest);
    NotHash(name, rest);
    NamedLaid(name, rest);
    hide Unescape, Utf8, NameEnd, FullName, LongestKnown;
    UnescapeReference(s, t);
    NamedEntity(s, name, t);
    if !Known(t, name) && !KnownPair(t, name) {
      PrefixFound(t, name, Min(|name| - 1, LONGEST_WITHOUT_SEMICOLON));
      forall j: nat | LongestKnown(t, name, j)
        ensures s[j + 1..] == name[j..] + rest
      {
        PrefixLaid(t, name, rest, j);
      }
    }
  }

  lemma NamedLaid(name: Bytes, rest: Bytes)
    ensures var s := [AMP] + name + rest;
      s[0] == AMP && s[1..1 + |name|] == name && s[1 + |name|..] == rest && s[..1 + |name|] == [AMP] + name
  {
  }

  lemma PrefixLaid(t: Tables, name: Bytes, rest: Bytes, j: nat)
    requires LongestKnown(t, name, j)
    ensures ([AMP] + name + rest)[j + 1..] == name[j..] + rest
  {
  }

  lemma NotHash(name: Bytes, rest: Bytes)
    requires FullName(name, rest)
    ensures ([AMP] + name + rest)[1] == name[0] != HASH
  {
    if |name| > 1 && name[|name| - 1] == SEMI {
      assert name[..|name| - 1][0] == name[0];
    }
  }

  /** The name loop finds exactly the full name. */
  lemma NameRead(name: Bytes, rest: Bytes)
    requires FullName(name, rest)
    ensures NameEnd([AMP] + name + rest, 1) == 1 + |name|
  {
    var s := [AMP] + name + rest;
    var letters := if name[|name| - 1] == SEMI then name[..|name| - 1] else name;
    assert forall k :: 0 <= k < |letters| ==> s[1 + k] == letters[k];
    LettersRead(s, 1, 1 + |letters|);
    if name[|name| - 1] == SEMI {
      assert s[|name|] == SEMI;
    } else if rest != [] {
      assert s[1 + |name|] == rest[0] == rest[..1][0];
    }
  }

  lemma {:induction false} LettersRead(s: Bytes, i: nat, j: nat)
    requires i <= j <= |s| && forall k :: i <= k < j ==> Alphanumeric(s[k])
    ensures NameEnd(s, i) == NameEnd(s, j)
    decreases j - i
  {
    if i < j {
      LettersRead(s, i + 1, j);
    }
  }

  lemma NamedEntity(s: Bytes, name: Bytes, t: Tables)
    requires |s| > 1 && s[0] == AMP && s[1] != HASH && name != []
    requires NameEnd(s, 1) == 1 + |name| && s[1..1 + |name|] == name
    ensures var j := LongestPrefix(t, name, Min(|name| - 1, LONGEST_WITHOUT_SEMICOLON));
      Entity(s, t) ==
        if Known(t, name) then Ref(Utf8(t.entity[name]), 1 + |name|)
        else if KnownPair(t, name) then Ref(Utf8(t.entity2[name].0) + Utf8(t.entity2[name].1), 1 + |name|)
        else if j != 0 then Ref(Utf8(Lookup(t, name[..j])), j + 1) else Ref(s[..1 + |name|], 1 + |name|)
  {
    hide NameEnd, Utf8, LongestPrefix, Numeric, Mapped;
    var i := NameEnd(s, 1);
    assert s[1..i] == name && i == 1 + |name|;
  }

  /** The search from the longest prefix down. */
  lemma {:induction false} PrefixFound(t: Tables, name: Bytes, top: int)
    requires name != [] && top == Min(|name| - 1, LONGEST_WITHOUT_SEMICOLON)
    ensures var r := LongestPrefix(t, name, top);
      if r != 0 then 0 < r && LongestKnown(t, name, r) && Lookup(t, name[..r]) == t.entity[name[..r]] &&
        forall j: nat :: LongestKnown(t, name, j) ==> j == r
      else forall j: nat :: !LongestKnown(t, name, j)
  {
    SearchDown(t, name, top);
  }

  lemma {:induction false} SearchDown(t: Tables, name: Bytes, top: int)
    requires top < |name|
    ensures var r := LongestPrefix(t, name, top);
      && (r != 0 ==> 2 <= r <= top && Known(t, name[..r]) && Lookup(t, name[..r]) == t.entity[name[..r]])
      && (forall k :: 2 <= k <= top && k > r ==> !Known(t, name[..k]))
    decreases top
  {
    if top > 1 && !Known(t, name[..top]) {
      SearchDown(t, name, top - 1);
    }
  }

  /** An ampersand with no name and no number behind it stands for itself. */
  lemma LoneAmpersand(rest: Bytes, t: Tables)
    requires rest != [] ==> !Letters(rest[..1]) && rest[0] != SEMI && rest[0] != HASH
    ensures Unescape([AMP] + rest, t) == [AMP] + Unescape(rest, t)
  {
    var s := [AMP] + rest;
    assert s[1..] == rest && s[..1] == [AMP];
    if rest != [] {
      assert rest[..1][0] == s[1];
      assert NameEnd(s, 1) == 1;
      assert s[1..1] == [];
    }
    UnescapeReference(s, t);
  }

  /** Nor does a number sign without digits begin anything. */
  lemma LoneHash(rest: Bytes, t: Tables)
    requires rest != [] ==> !IsDigit(rest[0], 10) && rest[0] != 120 && rest[0] != 88
    ensures Unescape([AMP, HASH] + rest, t) == [AMP] + Unescape([HASH] + rest, t)
  {
    var s := [AMP, HASH] + rest;
    assert s[1..] == [HASH] + rest && s[..1] == [AMP];
    if rest != [] {
      assert s[2] == rest[0];
      assert Numeric(s, 2, false, 0).1 <= 3;
    }
    hide Numeric, Unescape;
    UnescapeReference(s, t);
  }

  /** Nor an x without digits or a semicolon behind it. */
  lemma LoneX(f: Form, rest: Bytes, t: Tables)
    requires f.Hex? && (rest != [] ==> !IsDigit(rest[0], 16) && rest[0] != SEMI)
    ensures Unescape(Marked(f) + rest, t) == [AMP] + Unescape((Marked(f) + rest)[1..], t)
  {
    var s := Marked(f) + rest;
    assert s[0] == AMP && s[1] == HASH && (s[2] == 120 || s[2] == 88) && s[..1] == [AMP];
    if rest != [] {
      assert s[3] == rest[0];
    }
    OtherEnds(s, 3, true, 0);
    hide Numeric, Unescape;
    UnescapeReference(s, t);
  }
}
