/**
 * fmtInteger of fmt/format.go with writePadding and pad.
 *
 * The text of a number is a sign, a prefix and digits, written from right to left into a
 * scratch buffer whose size is fixed beforehand. Read is an independent reader of such
 * texts: whatever the flags, it gets back the number that was formatted.
 */
module FmtInteger {
  import opened Prelude

  const LDIGITS: string := "0123456789abcdefx"
  const UDIGITS: string := "0123456789ABCDEFX"
  const TWO_63: nat := 0x8000_0000_0000_0000
  const TWO_64: nat := 0x1_0000_0000_0000_0000
  const INT_BUF: nat := 68

  predicate Base(b: nat) { b == 2 || b == 8 || b == 10 || b == 16 }

  predicate Table(digits: string) { digits == LDIGITS || digits == UDIGITS }

  // --------------------------------------------------------------------- the numeral

  function Numeral(u: nat, base: nat, digits: string): string
    requires Base(base) && Table(digits)
  {
    if u < base then [digits[u]] else Numeral(u / base, base, digits) + [digits[u % base]]
  }

  /** What a digit is worth; 99 for anything else. */
  function Worth(c: char): nat {
    if '0' <= c <= '9' then c as int - '0' as int
    else if 'a' <= c <= 'f' then c as int - 'a' as int + 10
    else if 'A' <= c <= 'F' then c as int - 'A' as int + 10
    else 99
  }

  function ValueOf(s: string, base: nat): nat {
    if s == [] then 0 else ValueOf(s[..|s| - 1], base) * base + Worth(s[|s| - 1])
  }

  predicate AllDigits(s: string, base: nat) {
    forall i :: 0 <= i < |s| ==> Worth(s[i]) < base
  }

  lemma DigitWorth(digits: string, d: nat)
    requires Table(digits) && d < 16
    ensures Worth(digits[d]) == d
    ensures d < 10 ==> digits[d] == ('0' as int + d) as char
  {
  }

  /** Numerals are digits that spell the number, with no needless zero in front. */
  lemma {:induction false} NumeralSpells(u: nat, base: nat, digits: string)
    requires Base(base) && Table(digits)
    ensures var s := Numeral(u, base, digits);
      && s != [] && AllDigits(s, base) && ValueOf(s, base) == u
      && (u > 0 ==> Worth(s[0]) > 0)
    decreases u
  {
    hide Numeral, ValueOf, AllDigits, Worth, Table;
    NumeralStep(u, base, digits);
    if u < base {
      DigitWorth(digits, u);
      OneDigit(digits[u], base);
    } else {
      Divided(u, base);
      NumeralSpells(u / base, base, digits);
      DigitWorth(digits, u % base);
      Appended(Numeral(u / base, base, digits), digits[u % base], base);
    }
  }

  lemma NumeralStep(u: nat, base: nat, digits: string)
    requires Base(base) && Table(digits)
    ensures |digits| == 17 && 0 <= u % base < base <= 16
    ensures Numeral(u, base, digits) ==
            if u < base then [digits[u]] else Numeral(u / base, base, digits) + [digits[u % base]]
  {
  }

  lemma OneDigit(c: char, base: nat)
    requires Worth(c) < base
    ensures AllDigits([c], base) && ValueOf([c], base) == Worth(c)
  {
    assert [c][..0] == [];
  }

  lemma Appended(s: string, c: char, base: nat)
    requires AllDigits(s, base) && Worth(c) < base
    ensures AllDigits(s + [c], base) && ValueOf(s + [c], base) == ValueOf(s, base) * base + Worth(c)
  {
    assert (s + [c])[..|s|] == s;
  }

  lemma Divided(u: nat, base: nat)
    requires base >= 2 && u >= base
    ensures u / base * base + u % base == u && 0 < u / base < u
  {
  }

  function Power2(k: nat): nat { if k == 0 then 1 else 2 * Power2(k - 1) }

  lemma {:induction false} NumeralLength(u: nat, base: nat, digits: string, k: nat)
    requires Base(base) && Table(digits) && k > 0 && u < Power2(k)
    ensures |Numeral(u, base, digits)| <= k
    decreases k
  {
    assert Power2(1) == 2;
    if u >= base && k > 1 {
      Halved(u, base, Power2(k - 1));
      NumeralLength(u / base, base, digits, k - 1);
    }
  }

  lemma Halved(u: nat, base: nat, half: nat)
    requires base >= 2 && u < 2 * half
    ensures u / base < half
  {
  }

  lemma Times16(k: nat)
    ensures Power2(k + 4) == 16 * Power2(k)
  {
    assert Power2(k + 1) == 2 * Power2(k);
    assert Power2(k + 2) == 2 * Power2(k + 1);
    assert Power2(k + 3) == 2 * Power2(k + 2);
  }

  lemma Times65536(k: nat)
    ensures Power2(k + 16) == 0x1_0000 * Power2(k)
  {
    hide Power2;
    Times16(k);
    Times16(k + 4);
    Times16(k + 8);
    Times16(k + 12);
  }

  lemma Sixty4()
    ensures Power2(64) == TWO_64
  {
    assert Power2(0) == 1;
    hide Power2;
    Times65536(0);
    Times65536(16);
    Times65536(32);
    Times65536(48);
  }

  lemma Fits(u: nat, base: nat, digits: string)
    requires Base(base) && Table(digits) && u < TWO_64
    ensures |Numeral(u, base, digits)| <= 64
  {
    Sixty4();
    NumeralLength(u, base, digits, 64);
  }

  // ------------------------------------------------------------------------ the text

  datatype Flags = Flags(
    widPresent: bool, precPresent: bool, minus: bool, plus: bool, sharp: bool, space: bool, zero: bool,
    wid: nat, prec: nat)

  function Repeat(c: char, n: int): (s: string)
    ensures |s| == if n > 0 then n else 0
    ensures forall i :: 0 <= i < |s| ==> s[i] == c
  {
    if n <= 0 then [] else [c] + Repeat(c, n - 1)
  }

  /** A 64-bit word read as a signed number. */
  function Signed(u: nat): int { if u < TWO_63 then u else u - TWO_64 }

  function Number(u: nat, isSigned: bool): int { if isSigned then Signed(u) else u }

  function Abs(x: int): nat { if x < 0 then -x else x }

  /** How many digits are wanted at least. */
  function Wanted(f: Flags, negative: bool): int {
    if f.precPresent then f.prec
    else if f.zero && !f.minus && f.widPresent then f.wid - (if negative || f.plus || f.space then 1 else 0)
    else 0
  }

  function Filled(f: Flags, x: int, base: nat, digits: string): string
    requires Base(base) && Table(digits)
  {
    var s := Numeral(Abs(x), base, digits);
    Repeat('0', Wanted(f, x < 0) - |s|) + s
  }

  /** 0b, 0x or 0X for '#', or a single 0 in octal where none is there yet. */
  function Marker(f: Flags, base: nat, digits: string, ds: string): string
    requires Table(digits)
  {
    if !f.sharp then ""
    else if base == 2 then "0b"
    else if base == 8 then (if ds != [] && ds[0] == '0' then "" else "0")
    else if base == 16 then ['0', digits[16]]
    else ""
  }

  function Octal(verb: char): string { if verb == 'O' then "0o" else "" }

  function Sign(f: Flags, negative: bool): string {
    if negative then "-" else if f.plus then "+" else if f.space then " " else ""
  }

  function Text(f: Flags, x: int, base: nat, verb: char, digits: string): string
    requires Base(base) && Table(digits)
  {
    var ds := Filled(f, x, base, digits);
    Sign(f, x < 0) + (Octal(verb) + (Marker(f, base, digits, ds) + ds))
  }

  /** Zero padding is allowed only to the left. */
  function PadByte(f: Flags): char { if f.zero && !f.minus then '0' else ' ' }

  function Padded(f: Flags, b: string): string {
    if !f.widPresent || f.wid == 0 then b
    else if f.minus then b + Repeat(PadByte(f), f.wid - |b|)
    else Repeat(PadByte(f), f.wid - |b|) + b
  }

  /** Everything fmtInteger adds to the output. */
  function Formatted(f: Flags, x: int, base: nat, verb: char, digits: string): string
    requires Base(base) && Table(digits)
  {
    if f.precPresent && f.prec == 0 && x == 0 then Repeat(' ', f.wid)
    else Padded(f.(zero := false), Text(f, x, base, verb, digits))
  }

  // ---------------------------------------------------------------------- the reader

  function SkipSpaces(s: string): string {
    if s != [] && s[0] == ' ' then SkipSpaces(s[1..]) else s
  }

  function DigitRun(s: string, base: nat): string {
    if s != [] && Worth(s[0]) < base then [s[0]] + DigitRun(s[1..], base) else []
  }

  function SkipMarker(s: string, base: nat): string {
    if |s| >= 2 && s[0] == '0' &&
       ((base == 2 && s[1] == 'b') || (base == 8 && s[1] == 'o') || (base == 16 && (s[1] == 'x' || s[1] == 'X')))
    then s[2..] else s
  }

  /** An optional sign, an optional marker and digits, after spaces and before anything. */
  function Read(s: string, base: nat): int { ReadSigned(SkipSpaces(s), base) }

  function ReadSigned(t: string, base: nat): int {
    if t != [] && t[0] == '-' then -(ReadMarked(t[1..], base) as int)
    else ReadMarked(if t != [] && t[0] == '+' then t[1..] else t, base)
  }

  function ReadMarked(t: string, base: nat): nat { ValueOf(DigitRun(SkipMarker(t, base), base), base) }

  lemma {:induction false} SpacesSkipped(n: int, s: string)
    ensures SkipSpaces(Repeat(' ', n) + s) == SkipSpaces(s)
    decreases n
  {
    if n <= 0 {
      assert Repeat(' ', n) + s == s;
    } else {
      assert (Repeat(' ', n) + s)[1..] == Repeat(' ', n - 1) + s;
      SpacesSkipped(n - 1, s);
    }
  }

  /** The reader takes all the digits and stops at the blank behind them. */
  lemma {:induction false} RunEnds(ds: string, n: int, base: nat)
    requires Base(base) && AllDigits(ds, base)
    ensures DigitRun(ds + Repeat(' ', n), base) == ds
  {
    var s := ds + Repeat(' ', n);
    if ds == [] {
      if s != [] {
        assert s[0] == ' ';
      }
    } else {
      assert s[1..] == ds[1..] + Repeat(' ', n);
      RunEnds(ds[1..], n, base);
    }
  }

  lemma {:induction false} ZerosInFront(n: int, s: string, base: nat)
    ensures ValueOf(Repeat('0', n) + s, base) == ValueOf(s, base)
    decreases |s|, n
  {
    var t := Repeat('0', n) + s;
    if s != [] {
      assert t[..|t| - 1] == Repeat('0', n) + s[..|s| - 1];
      ZerosInFront(n, s[..|s| - 1], base);
    } else if n > 0 {
      assert t[..|t| - 1] == Repeat('0', n - 1) + [];
      ZerosInFront(n - 1, [], base);
    } else {
      assert t == s;
    }
  }

  /** Zero-filled digits spell the number. */
  lemma FilledSpells(f: Flags, x: int, base: nat, digits: string)
    requires Base(base) && Table(digits)
    ensures var ds := Filled(f, x, base, digits);
      ds != [] && AllDigits(ds, base) && ValueOf(ds, base) == Abs(x)
  {
    var s := Numeral(Abs(x), base, digits);
    NumeralSpells(Abs(x), base, digits);
    hide Numeral, ValueOf, AllDigits, Worth, Wanted, Repeat, Table;
    ZerosInFront(Wanted(f, x < 0) - |s|, s, base);
    DigitsBoth(Repeat('0', Wanted(f, x < 0) - |s|), s, base);
  }

  lemma DigitsBoth(zeros: string, s: string, base: nat)
    requires Base(base) && AllDigits(s, base) && forall i :: 0 <= i < |zeros| ==> zeros[i] == '0'
    ensures AllDigits(zeros + s, base)
  {
  }

  /** The verb 'O' goes with octal. */
  predicate Matches(verb: char, base: nat) { Base(base) && (verb == 'O' ==> base == 8) }

  /** Behind the sign: markers, digits, blanks. */
  lemma MarkerRead(f: Flags, base: nat, verb: char, digits: string, ds: string, n: int)
    requires Matches(verb, base) && Table(digits) && ds != [] && AllDigits(ds, base)
    ensures var s := Octal(verb) + (Marker(f, base, digits, ds) + ds) + Repeat(' ', n);
      && ReadMarked(s, base) == ValueOf(ds, base)
      && s != [] && s[0] != '-' && s[0] != '+' && s[0] != ' '
  {
    var m := Marker(f, base, digits, ds);
    if |m| == 2 {
      assert Octal(verb) + (m + ds) == m + ds;
      TwoCharMarker(m, base, ds, n);
    } else if m == "0" {
      AnotherZero(ds, base);
      assert m + ds == "0" + ds;
      PlainDigits(verb, base, "0" + ds, n);
    } else {
      assert m + ds == ds;
      PlainDigits(verb, base, ds, n);
    }
  }

  lemma AnotherZero(ds: string, base: nat)
    requires Base(base) && AllDigits(ds, base)
    ensures AllDigits("0" + ds, base) && ValueOf("0" + ds, base) == ValueOf(ds, base)
  {
    assert Repeat('0', 1) == "0" + Repeat('0', 0) == "0";
    ZerosInFront(1, ds, base);
  }

  lemma TwoCharMarker(m: string, base: nat, ds: string, n: int)
    requires Base(base) && ds != [] && AllDigits(ds, base)
    requires (base == 2 && m == "0b") || (base == 16 && (m == "0x" || m == "0X"))
    ensures var s := m + ds + Repeat(' ', n);
      ReadMarked(s, base) == ValueOf(ds, base) && s[0] == '0'
  {
    hide ValueOf, DigitRun;
    RunEnds(ds, n, base);
    var s := m + ds + Repeat(' ', n);
    assert s[2..] == ds + Repeat(' ', n);
  }

  /** Nothing is mistaken for a marker. */
  lemma PlainDigits(verb: char, base: nat, ds: string, n: int)
    requires Matches(verb, base) && ds != [] && AllDigits(ds, base)
    ensures var s := Octal(verb) + ds + Repeat(' ', n);
      ReadMarked(s, base) == ValueOf(ds, base) && s[0] != '-' && s[0] != '+' && s[0] != ' '
  {
    hide ValueOf, DigitRun, Repeat, AllDigits;
    RunEnds(ds, n, base);
    NoMarker(base, ds, n);
    var t := ds + Repeat(' ', n);
    var s := Octal(verb) + ds + Repeat(' ', n);
    if verb == 'O' {
      assert s[2..] == t;
    } else {
      assert s == t;
    }
  }

  lemma NoMarker(base: nat, ds: string, n: int)
    requires Base(base) && ds != [] && AllDigits(ds, base)
    ensures var t := ds + Repeat(' ', n);
      SkipMarker(t, base) == t && t != [] && t[0] != '-' && t[0] != '+' && t[0] != ' '
  {
    var t := ds + Repeat(' ', n);
    assert t[0] == ds[0] && Worth(ds[0]) < base;
    assert |t| >= 2 ==> t[1] == (if |ds| >= 2 then ds[1] else ' ');
  }

  lemma SignRead(f: Flags, x: int, base: nat, s: string)
    requires ReadMarked(s, base) == Abs(x) && s != [] && s[0] != '-' && s[0] != '+' && s[0] != ' '
    ensures Read(Sign(f, x < 0) + s, base) == x
  {
    hide ReadMarked;
    var sign := Sign(f, x < 0);
    var t := sign + s;
    assert sign != [] ==> t[1..] == s;
    assert sign == [] ==> t == s;
    assert SkipSpaces(t) == if sign == " " then s else t;
  }

  /** Blanks on one side only. */
  lemma PaddedShape(f: Flags, text: string)
    requires !f.zero
    ensures exists left, right :: Padded(f, text) == Repeat(' ', left) + (text + Repeat(' ', right))
  {
    var n := f.wid - |text|;
    assert Repeat(' ', 0) == [];
    if !f.widPresent || f.wid == 0 {
      assert Padded(f, text) == Repeat(' ', 0) + (text + Repeat(' ', 0));
    } else if f.minus {
      assert Padded(f, text) == Repeat(' ', 0) + (text + Repeat(' ', n));
    } else {
      assert Padded(f, text) == Repeat(' ', n) + (text + Repeat(' ', 0));
    }
  }

  /** For every value, base and flag set, what was formatted reads back as the number, unless
      a zero was asked to print nothing. */
  lemma ReadBack(f: Flags, x: int, base: nat, verb: char, digits: string)
    requires Matches(verb, base) && Table(digits)
    ensures !(f.precPresent && f.prec == 0 && x == 0) ==> Read(Formatted(f, x, base, verb, digits), base) == x
  {
    if !(f.precPresent && f.prec == 0 && x == 0) {
      hide Text, Padded, Read, Repeat;
      var text := Text(f, x, base, verb, digits);
      PaddedShape(f.(zero := false), text);
      var left, right :| Padded(f.(zero := false), text) == Repeat(' ', left) + (text + Repeat(' ', right));
      TextRead(f, x, base, verb, digits, right);
      BlanksRead(left, text + Repeat(' ', right), base);
    }
  }

  lemma BlanksRead(n: int, s: string, base: nat)
    ensures Read(Repeat(' ', n) + s, base) == Read(s, base)
  {
    SpacesSkipped(n, s);
  }

  lemma TextRead(f: Flags, x: int, base: nat, verb: char, digits: string, n: int)
    requires Matches(verb, base) && Table(digits)
    ensures Read(Text(f, x, base, verb, digits) + Repeat(' ', n), base) == x
  {
    FilledSpells(f, x, base, digits);
    hide Marker, Filled, ReadMarked, Read, Sign, Octal, Repeat;
    var ds := Filled(f, x, base, digits);
    var rest := Octal(verb) + (Marker(f, base, digits, ds) + ds);
    MarkerRead(f, base, verb, digits, ds, n);
    SignRead(f, x, base, rest + Repeat(' ', n));
    Regroup(Sign(f, x < 0), rest, Repeat(' ', n));
  }

  /** At least width characters are written, and no more than the text needs beyond that. */
  lemma WideEnough(f: Flags, x: int, base: nat, verb: char, digits: string)
    requires Base(base) && Table(digits)
    ensures f.widPresent ==> |Formatted(f, x, base, verb, digits)| >= f.wid
    ensures !(f.precPresent && f.prec == 0 && x == 0) ==>
      var n := |Text(f, x, base, verb, digits)|;
      |Formatted(f, x, base, verb, digits)| == if f.widPresent && f.wid > n then f.wid else n
  {
    hide Text;
  }

  // ------------------------------------------------------------------ what the flags ask for

  /** A formatted number in parts: blanks, sign, marker, zeros, the number itself, blanks. */
  datatype Parts = Parts(left: nat, sign: string, mark: string, zeros: nat, num: string, right: nat)

  function Written(p: Parts): string {
    Repeat(' ', p.left) + (p.sign + (p.mark + (Repeat('0', p.zeros) + p.num))) + Repeat(' ', p.right)
  }

  /** The number itself: its digits in the case asked for, and no needless zero in front. */
  predicate Spells(num: string, n: nat, base: nat, digits: string)
    requires Table(digits)
  {
    && num != "" && AllDigits(num, base) && ValueOf(num, base) == n && (|num| > 1 ==> num[0] != '0')
    && forall i :: 0 <= i < |num| ==> num[i] in digits[..16]
  }

  predicate SignAsked(f: Flags, x: int, sign: string) {
    if x < 0 then sign == "-" else if f.plus then sign == "+" else if f.space then sign == " " else sign == ""
  }

  /** '#' asks for 0b, for 0x in the case of the digits, or for a zero in front of octal digits; the
      verb O for 0o in front of everything. */
  predicate MarkAsked(f: Flags, base: nat, verb: char, digits: string, p: Parts)
    requires Table(digits) && p.num != ""
  {
    var octal := if verb == 'O' then "0o" else "";
    if !f.sharp || base == 10 then p.mark == octal
    else if base == 2 then p.mark == octal + "0b"
    else if base == 16 then p.mark == octal + (if digits == LDIGITS then "0x" else "0X")
    else if p.zeros > 0 || p.num[..1] == "0" then p.mark == octal
    else p.mark == octal + "0"
  }

  function Larger(a: int, b: int): int { if a > b then a else b }

  /** A precision is a least number of digits; without one, zero padding fills the width with digits
      behind the sign; otherwise there are no zeros. */
  predicate ZerosAsked(f: Flags, p: Parts) {
    if f.precPresent then p.zeros + |p.num| == Larger(f.prec, |p.num|)
    else if f.zero && !f.minus && f.widPresent
    then |p.sign| + p.zeros + |p.num| == Larger(f.wid, |p.sign| + |p.num|)
    else p.zeros == 0
  }

  /** Blanks fill the width on the left, or with '-' on the right. */
  predicate BlanksAsked(f: Flags, p: Parts) {
    var n := |p.sign| + |p.mark| + p.zeros + |p.num|;
    var missing := if f.widPresent then Larger(f.wid - n, 0) else 0;
    if f.minus then p.left == 0 && p.right == missing else p.left == missing && p.right == 0
  }

  predicate AsAsked(f: Flags, x: int, base: nat, verb: char, digits: string, p: Parts)
    requires Table(digits)
  {
    && Spells(p.num, Abs(x), base, digits) && SignAsked(f, x, p.sign) && MarkAsked(f, base, verb, digits, p)
    && ZerosAsked(f, p) && BlanksAsked(f, p)
  }

  /** What is written is what the flags ask for: sign, marker, number of digits, their case, and the
      side of the padding. */
  lemma FormattedAsAsked(f: Flags, x: int, base: nat, verb: char, digits: string)
    requires Matches(verb, base) && Table(digits) && !(f.precPresent && f.prec == 0 && x == 0)
    ensures exists p :: AsAsked(f, x, base, verb, digits, p) && Formatted(f, x, base, verb, digits) == Written(p)
  {
    PartsAsAsked(f, x, base, verb, digits);
    PartsWritten(f, x, base, verb, digits);
  }

  /** The parts of a formatted number. */
  function PartsOf(f: Flags, x: int, base: nat, verb: char, digits: string): Parts
    requires Base(base) && Table(digits)
  {
    var num := Numeral(Abs(x), base, digits);
    var text := Text(f, x, base, verb, digits);
    var missing := if f.widPresent then Larger(f.wid - |text|, 0) else 0;
    Parts(if f.minus then 0 else missing, Sign(f, x < 0),
          Octal(verb) + Marker(f, base, digits, Filled(f, x, base, digits)),
          Larger(Wanted(f, x < 0) - |num|, 0), num, if f.minus then missing else 0)
  }

  lemma PartsAsAsked(f: Flags, x: int, base: nat, verb: char, digits: string)
    requires Matches(verb, base) && Table(digits)
    ensures AsAsked(f, x, base, verb, digits, PartsOf(f, x, base, verb, digits))
  {
    var p := PartsOf(f, x, base, verb, digits);
    NumeralAsAsked(Abs(x), base, digits);
    NumeralFront(Abs(x), base, digits);
    ZerosFilled(f, x, base, digits);
    MarkFound(f, base, verb, digits, Filled(f, x, base, digits), p);
    TextInParts(f, x, base, verb, digits);
    FilledLength(p.zeros, p.num);
    hide Numeral, Wanted, Filled, Text, Marker, Octal, Spells, MarkAsked, Repeat, Sign, SignAsked;
  }

  lemma FilledLength(zeros: nat, num: string)
    ensures |Repeat('0', zeros) + num| == zeros + |num|
  {
  }

  lemma PartsWritten(f: Flags, x: int, base: nat, verb: char, digits: string)
    requires Base(base) && Table(digits) && !(f.precPresent && f.prec == 0 && x == 0)
    ensures Formatted(f, x, base, verb, digits) == Written(PartsOf(f, x, base, verb, digits))
  {
    ZerosFilled(f, x, base, digits);
    TextInParts(f, x, base, verb, digits);
    PaddedInParts(f, Text(f, x, base, verb, digits));
    hide Numeral, Wanted, Filled, Text, Padded, Marker, Octal, Repeat, Sign, SignAsked;
  }

  /** A zero with zero precision is nothing but blanks, as many as the width. */
  lemma NothingPrinted(f: Flags, base: nat, verb: char, digits: string, i: nat)
    requires Matches(verb, base) && Table(digits) && f.precPresent && f.prec == 0
    ensures var s := Formatted(f, 0, base, verb, digits); |s| == f.wid && (i < |s| ==> s[i] == ' ')
  {
  }

  lemma {:induction false} NumeralAsAsked(u: nat, base: nat, digits: string)
    requires Base(base) && Table(digits)
    ensures Spells(Numeral(u, base, digits), u, base, digits)
  {
    NumeralSpells(u, base, digits);
    NumeralCase(u, base, digits);
    NumeralFront(u, base, digits);
    hide Numeral, ValueOf, AllDigits;
  }

  lemma {:induction false} NumeralCase(u: nat, base: nat, digits: string)
    requires Base(base) && Table(digits)
    ensures forall i :: 0 <= i < |Numeral(u, base, digits)| ==> Numeral(u, base, digits)[i] in digits[..16]
    decreases u
  {
    NumeralStep(u, base, digits);
    hide Numeral;
    if u < base {
      assert digits[..16][u] == digits[u];
    } else {
      Divided(u, base);
      NumeralCase(u / base, base, digits);
      assert digits[..16][u % base] == digits[u % base];
    }
  }

  lemma NumeralFront(u: nat, base: nat, digits: string)
    requires Base(base) && Table(digits)
    ensures var s := Numeral(u, base, digits); s != "" && (|s| > 1 ==> s[0] != '0')
  {
    NumeralSpells(u, base, digits);
    if u == 0 {
      NumeralStep(u, base, digits);
    }
    hide Numeral, ValueOf, AllDigits;
  }

  lemma ZerosFilled(f: Flags, x: int, base: nat, digits: string)
    requires Base(base) && Table(digits)
    ensures var num := Numeral(Abs(x), base, digits);
      var zeros := Larger(Wanted(f, x < 0) - |num|, 0);
      var sign := Sign(f, x < 0);
      && Filled(f, x, base, digits) == Repeat('0', zeros) + num
      && (if f.precPresent then zeros + |num| == Larger(f.prec, |num|)
          else if f.zero && !f.minus && f.widPresent
          then |sign| + zeros + |num| == Larger(f.wid, |sign| + |num|) else zeros == 0)
      && SignAsked(f, x, sign)
  {
    NumeralFront(Abs(x), base, digits);
    NoRepeat('0', Wanted(f, x < 0) - |Numeral(Abs(x), base, digits)|);
    NoRepeat('0', 0);
    hide Numeral, Repeat;
  }

  lemma MarkFound(f: Flags, base: nat, verb: char, digits: string, ds: string, p: Parts)
    requires Matches(verb, base) && Table(digits) && p.num != "" && ds == Repeat('0', p.zeros) + p.num
    requires p.mark == Octal(verb) + Marker(f, base, digits, ds)
    ensures MarkAsked(f, base, verb, digits, p)
  {
    assert p.zeros > 0 ==> ds[0] == '0';
    assert p.zeros == 0 ==> Repeat('0', 0) == [] && ds == p.num && p.num[..1] == [p.num[0]];
    hide Repeat;
    assert Octal(verb) + "" == Octal(verb);
    assert digits == UDIGITS ==> digits != LDIGITS && ['0', digits[16]] == "0X";
    assert digits == LDIGITS ==> ['0', digits[16]] == "0x";
  }

  lemma TextInParts(f: Flags, x: int, base: nat, verb: char, digits: string)
    requires Base(base) && Table(digits)
    ensures var ds := Filled(f, x, base, digits);
      var mark := Octal(verb) + Marker(f, base, digits, ds);
      && Text(f, x, base, verb, digits) == Sign(f, x < 0) + (mark + ds)
      && |Text(f, x, base, verb, digits)| == |Sign(f, x < 0)| + |mark| + |ds|
  {
    hide Filled, Marker, Octal, Sign;
    var ds := Filled(f, x, base, digits);
    Regroup(Octal(verb), Marker(f, base, digits, ds), ds);
  }

  lemma PaddedInParts(f: Flags, text: string)
    ensures var missing := if f.widPresent then Larger(f.wid - |text|, 0) else 0;
      Padded(f.(zero := false), text) ==
        Repeat(' ', if f.minus then 0 else missing) + text + Repeat(' ', if f.minus then missing else 0)
  {
    NoRepeat(' ', 0);
    NoRepeat(' ', f.wid - |text|);
    hide Repeat;
    assert [] + text == text && text + [] == text;
  }

  // --------------------------------------------------------------------- the scratch buffer

  /** i--; buf[i] = c */
  method Push(buf: array<char>, i: nat, c: char) returns (j: nat)
    requires 0 < i <= buf.Length
    modifies buf
    ensures j == i - 1 && buf[j..] == [c] + old(buf[i..])
  {
    j := i - 1;
    buf[j] := c;
    assert buf[j..] == [buf[j]] + buf[i..];
  }

  /** The loops of the four bases: low digits first, from the right. */
  method WriteDigits(buf: array<char>, u: nat, base: nat, digits: string) returns (i: nat)
    requires Base(base) && Table(digits) && |Numeral(u, base, digits)| <= buf.Length
    modifies buf
    ensures i == buf.Length - |Numeral(u, base, digits)| && buf[i..] == Numeral(u, base, digits)
  {
    i := buf.Length;
    var v: nat := u;
    assert buf[i..] == [];
    while v >= base
      invariant 0 <= i <= buf.Length
      invariant Numeral(v, base, digits) + buf[i..] == Numeral(u, base, digits)
      decreases v
    {
      NumeralEnd(v, base, digits, buf[i..]);
      var next := v / base;
      i := Push(buf, i, digits[v - next * base]);
      v := next;
    }
    assert Numeral(v, base, digits) == [digits[v]];
    i := Push(buf, i, digits[v]);
  }

  lemma NumeralEnd(v: nat, base: nat, digits: string, tail: string)
    requires Base(base) && Table(digits) && v >= base
    ensures 0 <= v / base < v && v - v / base * base == v % base < base
    ensures Numeral(v, base, digits) + tail == Numeral(v / base, base, digits) + ([digits[v % base]] + tail)
    ensures |Numeral(v, base, digits) + tail| > |tail|
  {
    Divided(v, base);
  }

  /** Zeros up to the precision. */
  method FillZeros(buf: array<char>, start: nat, prec: int) returns (i: nat)
    requires start <= buf.Length && prec <= buf.Length
    modifies buf
    ensures i <= start && i == start - |Repeat('0', prec - (buf.Length - start))|
    ensures buf[i..] == Repeat('0', prec - (buf.Length - start)) + old(buf[start..])
  {
    i := start;
    hide Repeat, Filling;
    ghost var missing := prec - (buf.Length - start);
    ghost var tail := buf[start..];
    FillStart(tail);
    while i > 0 && prec > buf.Length - i
      invariant 0 <= i <= start && (missing > 0 ==> start - i <= missing) && (missing <= 0 ==> i == start)
      invariant Filling(buf[i..], start - i, tail)
    {
      FillNext(buf[i..], start - i, tail);
      i := Push(buf, i, '0');
    }
    FillEnd(buf[i..], start - i, missing, tail);
  }

  /** n zeros in front of tail. */
  ghost predicate Filling(s: string, n: nat, tail: string) { s == Repeat('0', n) + tail }

  lemma FillStart(tail: string)
    ensures Filling(tail, 0, tail)
  {
    assert Repeat('0', 0) == [];
  }

  lemma FillNext(s: string, n: nat, tail: string)
    requires Filling(s, n, tail)
    ensures Filling(['0'] + s, n + 1, tail)
  {
    OneMore('0', n, tail);
  }

  lemma FillEnd(s: string, n: nat, missing: int, tail: string)
    requires Filling(s, n, tail) && n == if missing > 0 then missing else 0
    ensures s == Repeat('0', missing) + tail && |Repeat('0', missing)| == n
  {
    NoRepeat('0', missing);
    NoRepeat('0', 0);
    hide Repeat;
  }

  lemma NoRepeat(c: char, n: int)
    ensures n <= 0 ==> Repeat(c, n) == []
  {
  }

  lemma OneMore(c: char, n: nat, tail: string)
    ensures [c] + (Repeat(c, n) + tail) == Repeat(c, n + 1) + tail
  {
    assert [c] + (Repeat(c, n) + tail) == ([c] + Repeat(c, n)) + tail;
  }

  lemma MarkerShort(f: Flags, base: nat, digits: string, ds: string)
    requires Table(digits)
    ensures |Marker(f, base, digits, ds)| <= 2
    ensures base == 8 ==> |Marker(f, base, digits, ds)| <= 1
    ensures base == 8 && ds != [] && ds[0] == '0' ==> Marker(f, base, digits, ds) == ""
  {
  }

  /** The scratch buffer is long enough for everything: 68 bytes, or three more than width
      and precision. */
  lemma Roomy(f: Flags, x: int, base: nat, verb: char, digits: string, room: nat)
    requires Matches(verb, base) && Table(digits) && Abs(x) < TWO_64
    requires room >= INT_BUF && (f.widPresent || f.precPresent ==> room >= 3 + f.wid + f.prec)
    ensures |Numeral(Abs(x), base, digits)| <= 64 && Wanted(f, x < 0) <= room
    ensures |Text(f, x, base, verb, digits)| <= room
  {
    var s := Numeral(Abs(x), base, digits);
    var ds := Filled(f, x, base, digits);
    Fits(Abs(x), base, digits);
    MarkerShort(f, base, digits, ds);
    if Wanted(f, x < 0) > |s| {
      assert ds[0] == '0';
    }
  }

  lemma TextParts(f: Flags, x: int, base: nat, verb: char, digits: string)
    requires Base(base) && Table(digits)
    ensures var ds := Filled(f, x, base, digits);
      var m := Marker(f, base, digits, ds);
      && ds != [] && Text(f, x, base, verb, digits) == Sign(f, x < 0) + (Octal(verb) + (m + ds))
      && |Text(f, x, base, verb, digits)| == |Sign(f, x < 0)| + |Octal(verb)| + |m| + |ds|
  {
  }

  lemma PrintsNothing(f: Flags, x: int, base: nat, verb: char, digits: string)
    requires Base(base) && Table(digits)
    ensures Formatted(f, x, base, verb, digits) ==
      if f.precPresent && f.prec == 0 && x == 0 then Repeat(' ', f.wid)
      else Padded(f.(zero := false), Text(f, x, base, verb, digits))
  {
  }

  lemma AppendedText(s: string, front: string, b: string, n: nat)
    requires n == |front| + |b| <= |s|
    requires forall k :: 0 <= k < |front| ==> s[k] == front[k]
    requires forall k :: 0 <= k < |b| ==> s[|front| + k] == b[k]
    ensures s[..n] == front + b
  {
  }

  /** u = -u on 64 bits gives the magnitude of a negative number. */
  lemma Negated(u: nat, isSigned: bool)
    requires u < TWO_64
    ensures var negative := isSigned && u >= TWO_63;
      var magnitude: int := if negative then (TWO_64 - u) % TWO_64 else u;
      && magnitude == Abs(Number(u, isSigned)) && negative == (Number(u, isSigned) < 0)
      && Number(u, isSigned) == (if negative then -magnitude else magnitude) && magnitude < TWO_64
  {
  }

  class Formatter {
    /** The output slice f.buf: out[..len], capacity out.Length. */
    var out: array<char>
    var len: nat
    var flags: Flags
    const intbuf: array<char>

    ghost predicate Valid()
      reads this
    {
      len <= out.Length && intbuf.Length == INT_BUF && out != intbuf
    }

    ghost function Output(): string
      requires Valid()
      reads this, out
    {
      out[..len]
    }

    constructor (flags: Flags)
      ensures Valid() && Output() == "" && this.flags == flags && fresh(out) && fresh(intbuf)
    {
      out := new char[0];
      intbuf := new char[INT_BUF](_ => '0');
      len, this.flags := 0, flags;
    }

    /** writePadding: n bytes, zeros only on the left. */
    method WritePadding(n: int)
      requires Valid()
      modifies this`out, this`len, out
      ensures Valid() && (out == old(out) || fresh(out))
      ensures Output() == old(Output()) + Repeat(PadByte(flags), n)
    {
      if n <= 0 {
        return;
      }
      var buf := out;
      var newLen := len + n;
      if newLen > buf.Length {
        buf := new char[buf.Length * 2 + n](_ => '0');
        forall k | 0 <= k < len {
          buf[k] := out[k];
        }
      }
      assert buf[..len] == old(Output());
      hide Repeat;
      var padByte := if flags.zero && !flags.minus then '0' else ' ';
      forall k | len <= k < newLen {
        buf[k] := padByte;
      }
      AppendedText(buf[..], old(Output()), Repeat(padByte, n), newLen);
      out, len := buf, newLen;
    }

    /** buffer.write: append. */
    method Append(b: string)
      requires Valid()
      modifies this`out, this`len, out
      ensures Valid() && (out == old(out) || fresh(out))
      ensures Output() == old(Output()) + b
    {
      var buf := out;
      if len + |b| > buf.Length {
        var size: nat :| size >= len + |b|;
        buf := new char[size](_ => '0');
        forall k | 0 <= k < len {
          buf[k] := out[k];
        }
      }
      assert buf[..len] == old(Output());
      forall k | 0 <= k < |b| {
        buf[len + k] := b[k];
      }
      AppendedText(buf[..], old(Output()), b, len + |b|);
      out, len := buf, len + |b|;
    }

    method Pad(b: string)
      requires Valid()
      modifies this`out, this`len, out
      ensures Valid() && (out == old(out) || fresh(out))
      ensures Output() == old(Output()) + Padded(flags, b)
    {
      if !flags.widPresent || flags.wid == 0 {
        Append(b);
        return;
      }
      var width := flags.wid - |b|;
      hide Repeat;
      Regroup(Output(), Repeat(PadByte(flags), width), b);
      Regroup(Output(), b, Repeat(PadByte(flags), width));
      if !flags.minus {
        WritePadding(width);
        Append(b);
      } else {
        Append(b);
        WritePadding(width);
      }
    }

    /** Sign, prefix and digits of x into the scratch buffer. */
    method WriteNumber(buf: array<char>, x: int, base: nat, verb: char, digits: string) returns (i: nat)
      requires Matches(verb, base) && Table(digits) && |Text(flags, x, base, verb, digits)| <= buf.Length
      requires |Numeral(Abs(x), base, digits)| <= buf.Length && Wanted(flags, x < 0) <= buf.Length
      modifies buf
      ensures i <= buf.Length && buf[i..] == Text(flags, x, base, verb, digits)
    {
      ghost var ds := Filled(flags, x, base, digits);
      TextParts(flags, x, base, verb, digits);
      hide Text, Marker, Filled, Numeral, Wanted, Repeat, Sign, Octal;
      i := WriteFilled(buf, x, base, digits);
      i := WriteMarker(buf, i, base, digits);
      ghost var marked := Marker(flags, base, digits, ds) + ds;
      i := WriteOctal(buf, i, verb);
      i := WriteSign(buf, i, x < 0);
    }

    method WriteFilled(buf: array<char>, x: int, base: nat, digits: string) returns (i: nat)
      requires Base(base) && Table(digits)
      requires |Numeral(Abs(x), base, digits)| <= buf.Length && Wanted(flags, x < 0) <= buf.Length
      modifies buf
      ensures i <= buf.Length && buf[i..] == Filled(flags, x, base, digits)
    {
      hide Numeral, Wanted, Repeat;
      i := WriteDigits(buf, Abs(x), base, digits);
      i := FillZeros(buf, i, Wanted(flags, x < 0));
    }

    method WriteOctal(buf: array<char>, start: nat, verb: char) returns (i: nat)
      requires |Octal(verb)| <= start <= buf.Length
      modifies buf
      ensures i <= buf.Length && buf[i..] == Octal(verb) + old(buf[start..])
    {
      i := start;
      if verb == 'O' {
        i := Push(buf, i, 'o');
        i := Push(buf, i, '0');
      }
    }

    method WriteSign(buf: array<char>, start: nat, negative: bool) returns (i: nat)
      requires |Sign(flags, negative)| <= start <= buf.Length
      modifies buf
      ensures i <= buf.Length && buf[i..] == Sign(flags, negative) + old(buf[start..])
    {
      i := start;
      if negative {
        i := Push(buf, i, '-');
      } else if flags.plus {
        i := Push(buf, i, '+');
      } else if flags.space {
        i := Push(buf, i, ' ');
      }
    }

    method WriteMarker(buf: array<char>, start: nat, base: nat, digits: string) returns (i: nat)
      requires Base(base) && Table(digits) && start < buf.Length
      requires |Marker(flags, base, digits, buf[start..])| <= start
      modifies buf
      ensures i <= buf.Length && buf[i..] == Marker(flags, base, digits, old(buf[start..])) + old(buf[start..])
    {
      i := start;
      if !flags.sharp {
        return;
      }
      if base == 2 {
        i := Push(buf, i, 'b');
        i := Push(buf, i, '0');
      } else if base == 8 {
        if buf[i] != '0' {
          i := Push(buf, i, '0');
        }
      } else if base == 16 {
        i := Push(buf, i, digits[16]);
        i := Push(buf, i, '0');
      }
    }

    /** The 68 bytes kept for the purpose, or a buffer that fits width and precision. */
    method Scratch() returns (buf: array<char>)
      requires Valid()
      ensures buf == intbuf || fresh(buf)
      ensures buf.Length >= INT_BUF && (flags.widPresent || flags.precPresent ==>
              buf.Length >= 3 + flags.wid + flags.prec)
    {
      buf := intbuf;
      if flags.widPresent || flags.precPresent {
        var width := 3 + flags.wid + flags.prec;
        if width > buf.Length {
          buf := new char[width](_ => '0');
        }
      }
    }

    /** fmtInteger: appends the number, whatever the flags, and leaves the flags alone. */
    method FmtInteger(u: nat, base: nat, isSigned: bool, verb: char, digits: string)
      requires Valid() && u < TWO_64 && Matches(verb, base) && Table(digits)
      modifies this, out, intbuf
      ensures Valid() && flags == old(flags) && (out == old(out) || fresh(out))
      ensures Output() == old(Output()) + Formatted(flags, Number(u, isSigned), base, verb, digits)
    {
      var negative := isSigned && u >= TWO_63;
      var magnitude := if negative then (TWO_64 - u) % TWO_64 else u;
      ghost var x := Number(u, isSigned);
      Negated(u, isSigned);
      hide Formatted, Numeral, Text, Wanted, Repeat, Padded, Number, Abs, Signed, Matches, Table;
      PrintsNothing(flags, x, base, verb, digits);
      var buf := Scratch();
      if flags.precPresent && flags.prec == 0 && magnitude == 0 {
        OnlyPadding();
        return;
      }
      Roomy(flags, x, base, verb, digits, buf.Length);
      var i := WriteNumber(buf, if negative then -magnitude else magnitude, base, verb, digits);
      PadWithSpaces(buf[i..]);
    }

    /** A zero with zero precision: padding, and nothing else. */
    method OnlyPadding()
      requires Valid()
      modifies this, out
      ensures Valid() && flags == old(flags) && (out == old(out) || fresh(out))
      ensures Output() == old(Output()) + Repeat(' ', flags.wid)
    {
      hide Repeat;
      var oldZero := flags.zero;
      flags := flags.(zero := false);
      WritePadding(flags.wid);
      flags := flags.(zero := oldZero);
    }

    /** Zeros have been written as digits by now, so pad without the zero flag. */
    method PadWithSpaces(b: string)
      requires Valid()
      modifies this, out
      ensures Valid() && flags == old(flags) && (out == old(out) || fresh(out))
      ensures Output() == old(Output()) + Padded(flags.(zero := false), b)
    {
      hide Padded;
      var oldZero := flags.zero;
      flags := flags.(zero := false);
      Pad(b);
      flags := flags.(zero := oldZero);
    }
  }
}
