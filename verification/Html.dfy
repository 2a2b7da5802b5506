/**
 * html.EscapeString and html.UnescapeString.
 *
 * Unescape is the left-to-right decoding of section 13.2.5 of the WHATWG HTML Standard
 * as the code implements it, written as a pure function. UnescapeString and
 * UnescapeEntity are the two-cursor code that rewrites one array in place; they are
 * proved to compute it, and to leave the text still to be read untouched. The entity
 * tables are parameters; Narrow is the width condition their comment asks for.
 */
module Html {
  import opened Prelude

  const AMP: Byte := 38
  const HASH: Byte := 35
  const SEMI: Byte := 59

  /** Entity names, including a final semicolon if any, to one or two code points. */
  datatype Tables = Tables(entity: map<Bytes, int>, entity2: map<Bytes, (int, int)>)

  const LONGEST_WITHOUT_SEMICOLON: nat := 6

  // -------------------------------------------------------------------- runes

  /** An int32 result, wrapped around. */
  function Wrap32(x: int): int {
    (x + 0x8000_0000) % 0x1_0000_0000 - 0x8000_0000
  }

  /** utf8.EncodeRune; values that are not code points become U+FFFD. */
  function Utf8(r: int): (e: Bytes)
    ensures 1 <= |e| <= 4
    ensures 0 <= r < 0x80 ==> e == [r]
  {
    if 0 <= r < 0x80 then [r]
    else if 0 <= r < 0x800 then [0xC0 + r / 64, 0x80 + r % 64]
    else if 0 <= r < 0xD800 || 0xE000 <= r < 0x10000
    then [0xE0 + r / 4096, 0x80 + r / 64 % 64, 0x80 + r % 64]
    else if 0x10000 <= r <= 0x10FFFF
    then [0xF0 + r / 262144, 0x80 + r / 4096 % 64, 0x80 + r / 64 % 64, 0x80 + r % 64]
    else [0xEF, 0xBF, 0xBD]
  }

  /** What the old numeric references 0x80 to 0x9F meant in Windows-1252. */
  const REPLACEMENTS: seq<int> := [
    0x20AC, 0x0081, 0x201A, 0x0192, 0x201E, 0x2026, 0x2020, 0x2021,
    0x02C6, 0x2030, 0x0160, 0x2039, 0x0152, 0x008D, 0x017D, 0x008F,
    0x0090, 0x2018, 0x2019, 0x201C, 0x201D, 0x2022, 0x2013, 0x2014,
    0x02DC, 0x2122, 0x0161, 0x203A, 0x0153, 0x009D, 0x017E, 0x0178]

  function Mapped(x: int): int {
    if 0x80 <= x <= 0x9F then REPLACEMENTS[x - 0x80]
    else if x == 0 || 0xD800 <= x <= 0xDFFF || x > 0x10FFFF then 0xFFFD
    else x
  }

  // ------------------------------------------------------------- one reference

  /** The value of a digit, or -1. */
  function Digit(c: Byte, hex: bool): int {
    if 48 <= c <= 57 then c - 48
    else if hex && 97 <= c <= 102 then c - 87
    else if hex && 65 <= c <= 70 then c - 55
    else -1
  }

  /** Value and end of a run of digits with an optional semicolon. */
  function Numeric(s: Bytes, i: nat, hex: bool, x: int): (r: (int, nat))
    requires i <= |s|
    ensures i <= r.1 <= |s|
    decreases |s| - i
  {
    if i == |s| then (x, i)
    else if Digit(s[i], hex) >= 0
    then Numeric(s, i + 1, hex, Wrap32((if hex then 16 else 10) * x + Digit(s[i], hex)))
    else (x, if s[i] == SEMI then i + 1 else i)
  }

  predicate Alphanumeric(c: Byte) {
    97 <= c <= 122 || 65 <= c <= 90 || 48 <= c <= 57
  }

  /** End of a run of letters and digits with an optional semicolon. */
  function NameEnd(s: Bytes, i: nat): (r: nat)
    requires i <= |s|
    ensures i <= r <= |s|
    decreases |s| - i
  {
    if i == |s| then i
    else if Alphanumeric(s[i]) then NameEnd(s, i + 1)
    else if s[i] == SEMI then i + 1
    else i
  }

  function Lookup(t: Tables, name: Bytes): int {
    if name in t.entity then t.entity[name] else 0
  }

  function Lookup2(t: Tables, name: Bytes): (int, int) {
    if name in t.entity2 then t.entity2[name] else (0, 0)
  }

  function Min(a: int, b: int): int { if a < b then a else b }

  /** The longest known name among the prefixes of length 2 to j, or 0. */
  function LongestPrefix(t: Tables, name: Bytes, j: int): (r: int)
    requires j <= |name|
    ensures r == 0 || (1 < r <= j && Lookup(t, name[..r]) != 0)
  {
    if j <= 1 then 0
    else if Lookup(t, name[..j]) != 0 then j
    else LongestPrefix(t, name, j - 1)
  }

  /** A decoded reference: its replacement and how much text it used up. */
  datatype Ref = Ref(out: Bytes, used: nat)

  /** The reference at the start of s; unknown ones stand for themselves. */
  function Entity(s: Bytes, t: Tables): (r: Ref)
    requires s != []
    ensures 1 <= r.used <= |s|
  {
    if |s| == 1 then Ref(s[..1], 1)
    else if s[1] == HASH then
      if |s| <= 3 then Ref(s[..1], 1)
      else
        var hex := s[2] == 120 || s[2] == 88;
        var n := Numeric(s, if hex then 3 else 2, hex, 0);
        if n.1 <= 3 then Ref(s[..1], 1) else Ref(Utf8(Mapped(n.0)), n.1)
    else
      var i := NameEnd(s, 1);
      var name := s[1..i];
      if name == [] then Ref(s[..i], i)
      else if Lookup(t, name) != 0 then Ref(Utf8(Lookup(t, name)), i)
      else if Lookup2(t, name).0 != 0 then Ref(Utf8(Lookup2(t, name).0) + Utf8(Lookup2(t, name).1), i)
      else
        var j := LongestPrefix(t, name, Min(|name| - 1, LONGEST_WITHOUT_SEMICOLON));
        if j != 0 then Ref(Utf8(Lookup(t, name[..j])), j + 1) else Ref(s[..i], i)
  }

  /** The whole text, decoded from left to right. */
  function Unescape(s: Bytes, t: Tables): Bytes {
    if s == [] then []
    else if s[0] != AMP then [s[0]] + Unescape(s[1..], t)
    else Entity(s, t).out + Unescape(s[Entity(s, t).used..], t)
  }

  /** Replacements are no wider than the reference they replace, ampersand included. */
  ghost predicate Narrow(t: Tables) {
    && (forall name :: name in t.entity && t.entity[name] != 0 ==> |Utf8(t.entity[name])| <= |name| + 1)
    && (forall name :: name in t.entity2 && t.entity2[name].0 != 0 ==>
          |Utf8(t.entity2[name].0)| + |Utf8(t.entity2[name].1)| <= |name| + 1)
  }

  /** So no reference grows when it is decoded. */
  lemma EntityNarrow(s: Bytes, t: Tables)
    requires s != [] && Narrow(t)
    ensures |Entity(s, t).out| <= Entity(s, t).used
  {
    if |s| > 1 && s[1] != HASH {
      var i := NameEnd(s, 1);
      var name := s[1..i];
      assert Lookup(t, name) != 0 ==> |Utf8(Lookup(t, name))| <= |name| + 1;
      if name != [] {
        var j := LongestPrefix(t, name, Min(|name| - 1, LONGEST_WITHOUT_SEMICOLON));
        assert j != 0 ==> |Utf8(Lookup(t, name[..j]))| <= j + 1;
      }
    }
  }

  lemma {:induction false} UnescapeShrinks(s: Bytes, t: Tables)
    requires Narrow(t)
    ensures |Unescape(s, t)| <= |s|
    decreases |s|
  {
    if s != [] {
      if s[0] != AMP {
        UnescapeShrinks(s[1..], t);
      } else {
        EntityNarrow(s, t);
        UnescapeShrinks(s[Entity(s, t).used..], t);
      }
    }
  }

  // ------------------------------------------------------------------- escaping

  function EscapeByte(c: Byte): Bytes {
    if c == 38 then [38, 97, 109, 112, 59]        // &amp;
    else if c == 39 then [38, 35, 51, 57, 59]     // &#39;
    else if c == 60 then [38, 108, 116, 59]       // &lt;
    else if c == 62 then [38, 103, 116, 59]       // &gt;
    else if c == 34 then [38, 35, 51, 52, 59]     // &#34;
    else [c]
  }

  function Escape(s: Bytes): Bytes {
    if s == [] then [] else EscapeByte(s[0]) + Escape(s[1..])
  }

  /** The three entries the round trip needs: "amp;", "lt;" and "gt;". */
  predicate Knows(t: Tables) {
    && Lookup(t, [97, 109, 112, 59]) == 38
    && Lookup(t, [108, 116, 59]) == 60
    && Lookup(t, [103, 116, 59]) == 62
  }

  /** An escaped byte in front of any text decodes to that byte. */
  lemma EscapedByte(c: Byte, rest: Bytes, t: Tables)
    requires Knows(t)
    ensures Unescape(EscapeByte(c) + rest, t) == [c] + Unescape(rest, t)
  {
    var s := EscapeByte(c) + rest;
    if c == 38 {
      assert NameEnd(s, 4) == 5 && NameEnd(s, 3) == 5 && NameEnd(s, 2) == 5 && NameEnd(s, 1) == 5;
      assert s[1..5] == [97, 109, 112, 59];
      assert Entity(s, t) == Ref([38], 5);
    } else if c == 39 || c == 34 {
      EscapedNumeric(s, t);
    } else if c == 60 || c == 62 {
      assert NameEnd(s, 3) == 4 && NameEnd(s, 2) == 4 && NameEnd(s, 1) == 4;
      assert s[1..4] == EscapeByte(c)[1..];
      assert Entity(s, t) == Ref([c], 4);
    }
    assert s[|EscapeByte(c)|..] == rest;
  }

  lemma EscapedNumeric(s: Bytes, t: Tables)
    requires |s| >= 5 && s[0] == 38 && s[1] == 35 && s[2] == 51 && 48 <= s[3] <= 57 && s[4] == 59
    ensures Entity(s, t) == Ref([30 + s[3] - 48], 5)
  {
    var d := s[3] - 48;
    assert Numeric(s, 4, false, 30 + d) == (30 + d, 5);
    assert Numeric(s, 3, false, 3) == (30 + d, 5);
    assert Numeric(s, 2, false, 0) == (30 + d, 5);
  }

  /** The five characters that may not stand in the text for themselves. */
  predicate Special(c: Byte) { c == 38 || c == 39 || c == 60 || c == 62 || c == 34 }

  /** How an ampersand may go on: amp; #39; lt; gt; or #34; */
  predicate Reference(s: Bytes) {
    [38, 97, 109, 112, 59] <= s || [38, 35, 51, 57, 59] <= s || [38, 108, 116, 59] <= s || [38, 103, 116, 59] <= s
    || [38, 35, 51, 52, 59] <= s
  }

  /** Escaped text is safe: of the special characters it contains only ampersands, and each of them
      begins one of the five references. */
  lemma {:induction false} EscapedSafe(s: Bytes, i: nat)
    requires i < |Escape(s)| && Special(Escape(s)[i])
    ensures Escape(s)[i] == AMP && Reference(Escape(s)[i..])
  {
    var e, more := EscapeByte(s[0]), Escape(s[1..]);
    if i < |e| {
      SafeByte(s[0], i);
      assert Escape(s)[0..] == e + more;
      StillReference(e, more);
    } else {
      assert Escape(s)[i] == more[i - |e|] && Escape(s)[i..] == more[i - |e|..];
      EscapedSafe(s[1..], i - |e|);
    }
  }

  lemma SafeByte(c: Byte, i: nat)
    requires i < |EscapeByte(c)| && Special(EscapeByte(c)[i])
    ensures i == 0 && EscapeByte(c)[0] == AMP && Reference(EscapeByte(c))
  {
  }

  lemma StillReference(e: Bytes, more: Bytes)
    requires Reference(e)
    ensures Reference(e + more)
  {
  }

  /** Bytes that are not special stay as they are. */
  lemma {:induction false} PlainEscape(s: Bytes)
    requires forall i :: 0 <= i < |s| ==> !Special(s[i])
    ensures Escape(s) == s
  {
    if s != [] {
      PlainEscape(s[1..]);
    }
  }

  /** UnescapeString(EscapeString(s)) == s, for every byte string. */
  lemma {:induction false} RoundTrip(s: Bytes, t: Tables)
    requires Knows(t)
    ensures Unescape(Escape(s), t) == s
  {
    if s != [] {
      RoundTrip(s[1..], t);
      EscapedByte(s[0], Escape(s[1..]), t);
    }
  }
}
