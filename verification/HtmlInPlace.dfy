/** The two-cursor code of html/escape.go over one array. */
module HtmlInPlace {
  import opened Prelude
  import opened Html

  /** utf8.EncodeRune into b at dst. */
  method EncodeRune(b: array<Byte>, dst: nat, r: int) returns (n: nat)
    requires dst + |Utf8(r)| <= b.Length
    modifies b
    ensures n == |Utf8(r)|
    ensures b[..] == old(b[..dst]) + Utf8(r) + old(b[dst + n..])
  {
    var e := Utf8(r);
    n := |e|;
    b[dst] := e[0];
    if n > 1 { b[dst + 1] := e[1]; }
    if n > 2 { b[dst + 2] := e[2]; }
    if n > 3 { b[dst + 3] := e[3]; }
    ghost var whole := old(b[..dst]) + e + old(b[dst + n..]);
    assert forall k :: 0 <= k < b.Length ==> b[k] == whole[k];
  }

  /** copy(b[dst:], b[src:src+n]), which may overlap. */
  method CopyDown(b: array<Byte>, dst: nat, src: nat, n: nat)
    requires dst <= src && src + n <= b.Length
    modifies b
    ensures b[..] == old(b[..dst]) + old(b[src..src + n]) + old(b[dst + n..])
  {
    ghost var was := b[..];
    for i := 0 to n
      invariant forall k :: dst <= k < dst + i ==> b[k] == was[k + (src - dst)]
      invariant forall k :: 0 <= k < dst || dst + i <= k < b.Length ==> b[k] == was[k]
    {
      b[dst + i] := b[src + i];
    }
    Spliced(was, b[..], dst, was[src..src + n]);
  }

  lemma Spliced(was: Bytes, now: Bytes, dst: nat, text: Bytes)
    requires |now| == |was| && dst + |text| <= |was|
    requires forall k :: dst <= k < dst + |text| ==> now[k] == text[k - dst]
    requires forall k :: 0 <= k < dst || dst + |text| <= k < |was| ==> now[k] == was[k]
    ensures now == was[..dst] + text + was[dst + |text|..]
  {
  }

  /** copy(b[dst:], text) */
  method CopyIn(b: array<Byte>, dst: nat, text: Bytes)
    requires dst + |text| <= b.Length
    modifies b
    ensures b[..] == old(b[..dst]) + text + old(b[dst + |text|..])
  {
    ghost var was := b[..];
    for i := 0 to |text|
      invariant forall k :: dst <= k < dst + i ==> b[k] == text[k - dst]
      invariant forall k :: 0 <= k < dst || dst + i <= k < b.Length ==> b[k] == was[k]
    {
      b[dst + i] := text[i];
    }
    Spliced(was, b[..], dst, text);
  }

  /** The digits loop. */
  method ScanNumber(s: Bytes, start: nat, hex: bool) returns (x: int, i: nat)
    requires start <= |s|
    ensures (x, i) == Numeric(s, start, hex, 0)
  {
    x, i := 0, start;
    while i < |s|
      invariant i <= |s| && Numeric(s, start, hex, 0) == Numeric(s, i, hex, x)
    {
      var d := Digit(s[i], hex);
      if d < 0 {
        if s[i] == SEMI {
          i := i + 1;
        }
        return;
      }
      x := Wrap32((if hex then 16 else 10) * x + d);
      i := i + 1;
    }
  }

  /** The letters-and-digits loop. */
  method ScanName(s: Bytes) returns (i: nat)
    requires |s| >= 1
    ensures i == NameEnd(s, 1)
  {
    i := 1;
    while i < |s|
      invariant 1 <= i <= |s| && NameEnd(s, 1) == NameEnd(s, i)
    {
      if !Alphanumeric(s[i]) {
        if s[i] == SEMI {
          i := i + 1;
        }
        return;
      }
      i := i + 1;
    }
  }

  /** What one call leaves behind: decoded output up to dst', untouched text from src'. */
  ghost predicate Decoded(was: Bytes, now: Bytes, dst: nat, src: nat, dst': nat, src': nat, t: Tables)
    requires dst <= src < |was|
  {
    var e := Entity(was[src..], t);
    && |now| == |was|
    && dst' == dst + |e.out| && src' == src + e.used && dst' <= src' <= |was|
    && now[..dst'] == was[..dst] + e.out
    && now[src'..] == was[src'..]
  }

  /** Writing a replacement no wider than its reference leaves the array like that. */
  lemma Wrote(was: Bytes, now: Bytes, dst: nat, src: nat, t: Tables)
    requires dst <= src < |was| && Narrow(t)
    requires var e := Entity(was[src..], t);
             dst + |e.out| <= |was| && now == was[..dst] + e.out + was[dst + |e.out|..]
    ensures var e := Entity(was[src..], t);
            Decoded(was, now, dst, src, dst + |e.out|, src + e.used, t)
  {
    EntityNarrow(was[src..], t);
    hide Entity, Narrow;
    var e := Entity(was[src..], t);
    var src' := src + e.used;
    assert now[src'..] == was[src'..];
  }

  /** Write a code point and step over the text it replaces. */
  method Emit(b: array<Byte>, dst: nat, src: nat, x: int, used: nat, t: Tables) returns (dst': nat, src': nat)
    requires dst <= src < b.Length && Narrow(t) && Entity(b[src..], t) == Ref(Utf8(x), used)
    modifies b
    ensures Decoded(old(b[..]), b[..], dst, src, dst', src', t)
  {
    hide Decoded, Narrow, Utf8, Entity;
    ghost var was := b[..];
    assert was[src..] == b[src..];
    EntityNarrow(was[src..], t);
    var n := EncodeRune(b, dst, x);
    Wrote(was, b[..], dst, src, t);
    return dst + n, src + used;
  }

  method EmitPair(b: array<Byte>, dst: nat, src: nat, y: (int, int), used: nat, t: Tables)
    returns (dst': nat, src': nat)
    requires dst <= src < b.Length && Narrow(t) && Entity(b[src..], t) == Ref(Utf8(y.0) + Utf8(y.1), used)
    modifies b
    ensures Decoded(old(b[..]), b[..], dst, src, dst', src', t)
  {
    hide Decoded, Narrow, Utf8, Entity;
    ghost var was := b[..];
    assert was[src..] == b[src..];
    EntityNarrow(was[src..], t);
    dst' := EncodePair(b, dst, y);
    Wrote(was, b[..], dst, src, t);
    src' := src + used;
  }

  /** Keep the first i bytes of the text as they are. */
  method EmitSame(b: array<Byte>, dst: nat, src: nat, i: nat, t: Tables) returns (dst': nat, src': nat)
    requires dst <= src < b.Length && Narrow(t) && src + i <= b.Length
    requires Entity(b[src..], t) == Ref(b[src..][..i], i)
    modifies b
    ensures Decoded(old(b[..]), b[..], dst, src, dst', src', t)
  {
    hide Decoded, Narrow, Entity;
    ghost var was := b[..];
    assert was[src..] == b[src..];
    assert was[src..][..i] == was[src..src + i];
    CopyDown(b, dst, src, i);
    Wrote(was, b[..], dst, src, t);
    return dst + i, src + i;
  }

  /** unescapeEntity: read a reference at src, write its replacement at dst. */
  method UnescapeEntity(b: array<Byte>, dst: nat, src: nat, t: Tables) returns (dst': nat, src': nat)
    requires dst <= src < b.Length && Narrow(t)
    modifies b
    ensures Decoded(old(b[..]), b[..], dst, src, dst', src', t)
  {
    hide Decoded, Narrow, Utf8;
    var s := b[src..];
    if |s| <= 1 {
      dst', src' := EmitSame(b, dst, src, 1, t);
      return;
    }
    if s[1] == HASH {
      dst', src' := UnescapeNumeric(b, dst, src, t);
      return;
    }
    var i := ScanName(s);
    var name := s[1..i];
    if name != [] {
      var x := Lookup(t, name);
      if x != 0 {
        dst', src' := Emit(b, dst, src, x, i, t);
        return;
      }
      var y := Lookup2(t, name);
      if y.0 != 0 {
        dst', src' := EmitPair(b, dst, src, y, i, t);
        return;
      }
      var j := FindPrefix(name, t);
      if j > 1 {
        dst', src' := Emit(b, dst, src, Lookup(t, name[..j]), j + 1, t);
        return;
      }
    }
    dst', src' := EmitSame(b, dst, src, i, t);
  }

  method EncodePair(b: array<Byte>, dst: nat, y: (int, int)) returns (dst': nat)
    requires dst + |Utf8(y.0)| + |Utf8(y.1)| <= b.Length
    modifies b
    ensures dst' == dst + |Utf8(y.0)| + |Utf8(y.1)|
    ensures b[..] == old(b[..dst]) + (Utf8(y.0) + Utf8(y.1)) + old(b[dst'..])
  {
    hide Utf8;
    var n := EncodeRune(b, dst, y.0);
    ghost var mid := b[..];
    var m := EncodeRune(b, dst + n, y.1);
    dst' := dst + n + m;
    assert mid[..dst + n] == old(b[..dst]) + Utf8(y.0);
    assert mid[dst'..] == old(b[dst'..]);
  }

  /** The loop over ever shorter prefixes of an unknown name. */
  method FindPrefix(name: Bytes, t: Tables) returns (j: int)
    requires name != []
    ensures LongestPrefix(t, name, Min(|name| - 1, LONGEST_WITHOUT_SEMICOLON)) == if j > 1 then j else 0
    ensures j <= |name|
  {
    j := Min(|name| - 1, LONGEST_WITHOUT_SEMICOLON);
    while j > 1
      invariant j <= |name| - 1
      invariant LongestPrefix(t, name, Min(|name| - 1, LONGEST_WITHOUT_SEMICOLON)) == LongestPrefix(t, name, j)
    {
      if Lookup(t, name[..j]) != 0 {
        return;
      }
      j := j - 1;
    }
  }

  method UnescapeNumeric(b: array<Byte>, dst: nat, src: nat, t: Tables) returns (dst': nat, src': nat)
    requires dst <= src < b.Length - 1 && b[src + 1] == HASH && Narrow(t)
    modifies b
    ensures Decoded(old(b[..]), b[..], dst, src, dst', src', t)
  {
    hide Decoded, Narrow, Utf8, Mapped;
    var s := b[src..];
    if |s| <= 3 {
      dst', src' := EmitSame(b, dst, src, 1, t);
      return;
    }
    var hex := s[2] == 120 || s[2] == 88;
    var x, i := ScanNumber(s, if hex then 3 else 2, hex);
    if i <= 3 {
      dst', src' := EmitSame(b, dst, src, 1, t);
      return;
    }
    dst', src' := Emit(b, dst, src, Mapped(x), i, t);
  }

  /** strings.IndexByte(s, '&') */
  method IndexAmp(s: Bytes) returns (i: int)
    ensures -1 <= i < |s|
    ensures i >= 0 ==> s[i] == AMP && AMP !in s[..i]
    ensures i < 0 ==> AMP !in s
  {
    for k := 0 to |s|
      invariant AMP !in s[..k]
    {
      if s[k] == AMP {
        return k;
      }
    }
    return -1;
  }

  /** Text without an ampersand stands for itself. */
  lemma {:induction false} UnescapePlain(s: Bytes, i: nat, t: Tables)
    requires i <= |s| && AMP !in s[..i]
    ensures Unescape(s, t) == s[..i] + Unescape(s[i..], t)
  {
    hide Unescape;
    if i == 0 {
      assert s[0..] == s;
    } else {
      PlainFront(s, i);
      UnescapeFirst(s, t);
      UnescapePlain(s[1..], i - 1, t);
      Regroup([s[0]], s[1..][..i - 1], Unescape(s[i..], t));
    }
  }

  lemma PlainFront(s: Bytes, i: nat)
    requires 0 < i <= |s| && AMP !in s[..i]
    ensures s[0] != AMP && AMP !in s[1..][..i - 1]
    ensures s[..i] == [s[0]] + s[1..][..i - 1] && s[1..][i - 1..] == s[i..]
  {
    assert s[..i] == [s[0]] + s[1..][..i - 1];
    assert s[..i][0] == s[0];
  }

  lemma UnescapeFirst(s: Bytes, t: Tables)
    requires s != [] && s[0] != AMP
    ensures Unescape(s, t) == [s[0]] + Unescape(s[1..], t)
  {
  }

  /** The invariant of the main loop: output so far, and text still to be read. */
  ghost predicate Progress(s: Bytes, b: Bytes, dst: nat, src: nat, t: Tables) {
    && dst <= src <= |s| && |b| == |s|
    && b[src..] == s[src..]
    && Unescape(s, t) == b[..dst] + Unescape(s[src..], t)
  }

  lemma ProgressStart(s: Bytes, i: nat, t: Tables)
    requires i <= |s| && AMP !in s[..i]
    ensures Progress(s, s, i, i, t)
  {
    UnescapePlain(s, i, t);
  }

  lemma ProgressEnd(s: Bytes, b: Bytes, dst: nat, src: nat, t: Tables)
    requires Progress(s, b, dst, src, t) && src == |s|
    ensures Unescape(s, t) == b[..dst]
  {
    UnescapeEmpty(s[src..], t);
  }

  /** Copying plain text down keeps it. */
  lemma ProgressPlain(s: Bytes, b: Bytes, c: Bytes, dst: nat, src: nat, i: nat, t: Tables)
    requires Progress(s, b, dst, src, t) && src + i <= |s| && AMP !in s[src..][..i]
    requires c == b[..dst] + s[src..][..i] + b[dst + i..]
    ensures Progress(s, c, dst + i, src + i, t)
  {
    UnescapePlain(s[src..], i, t);
    hide Unescape;
    var text := s[src..][..i];
    SameTail(s, b, src, i);
    assert s[src..][i..] == s[src + i..];
    Regroup(b[..dst], text, Unescape(s[src + i..], t));
    assert c[..dst + i] == b[..dst] + text;
    assert c[src + i..] == b[src + i..];
  }

  /** And so does decoding one reference. */
  lemma ProgressEntity(s: Bytes, b: Bytes, c: Bytes, dst: nat, src: nat, dst': nat, src': nat, t: Tables)
    requires Progress(s, b, dst, src, t) && src < |s| && s[src] == AMP
    requires Decoded(b, c, dst, src, dst', src', t)
    ensures Progress(s, c, dst', src', t) && src' > src && dst' <= src' <= |s|
  {
    hide Unescape, Entity;
    var e := Entity(s[src..], t);
    SameTail(s, b, src, e.used);
    UnescapeStep(s, src, t);
    Regroup(b[..dst], e.out, Unescape(s[src'..], t));
  }

  lemma SameTail(s: Bytes, b: Bytes, src: nat, n: nat)
    requires src + n <= |s| == |b| && b[src..] == s[src..]
    ensures b[src + n..] == s[src + n..]
  {
    assert b[src + n..] == b[src..][n..];
    assert s[src + n..] == s[src..][n..];
  }

  /** Copy plain text from the original string to the output. */
  method CopyText(s: Bytes, b: array<Byte>, dst: nat, src: nat, i: nat, t: Tables) returns (dst': nat, src': nat)
    requires b.Length == |s| && dst <= src && src + i <= |s| && Progress(s, b[..], dst, src, t) && AMP !in s[src..][..i]
    modifies b
    ensures dst' == dst + i && src' == src + i && Progress(s, b[..], dst', src', t)
  {
    hide Progress;
    ghost var was := b[..];
    assert s[src..][..i] == s[src..src + i];
    CopyIn(b, dst, s[src..src + i]);
    ProgressPlain(s, was, b[..], dst, src, i, t);
    return dst + i, src + i;
  }

  /** UnescapeString computes the left-to-right decoding in place. */
  method UnescapeString(s: Bytes, t: Tables) returns (r: Bytes)
    requires Narrow(t)
    ensures r == Unescape(s, t)
  {
    hide Decoded, Unescape, Narrow, Progress;
    var i := IndexAmp(s);
    if i < 0 {
      UnescapePlain(s, |s|, t);
      UnescapeEmpty(s[|s|..], t);
      return s;
    }
    var b := new Byte[|s|](k requires 0 <= k < |s| => s[k]);
    assert b[..] == s;
    ProgressStart(s, i, t);
    var dst: nat, src: nat := UnescapeEntity(b, i, i, t);
    ProgressEntity(s, s, b[..], i, i, dst, src, t);
    while src < |s|
      invariant b.Length == |s| && dst <= src <= |s| && Progress(s, b[..], dst, src, t)
      decreases |s| - src
    {
      i := IndexAmp(s[src..]);
      if i < 0 {
        dst, src := CopyText(s, b, dst, src, |s| - src, t);
        break;
      }
      dst, src := CopyText(s, b, dst, src, i, t);
      ghost var mid, from, at := b[..], dst, src;
      dst, src := UnescapeEntity(b, dst, src, t);
      ProgressEntity(s, mid, b[..], from, at, dst, src, t);
    }
    ProgressEnd(s, b[..], dst, src, t);
    return b[..dst];
  }

  lemma UnescapeEmpty(s: Bytes, t: Tables)
    requires |s| == 0
    ensures Unescape(s, t) == []
  {
  }

  lemma UnescapeStep(s: Bytes, i: nat, t: Tables)
    requires i < |s| && s[i] == AMP
    ensures Unescape(s[i..], t) == Entity(s[i..], t).out + Unescape(s[i + Entity(s[i..], t).used..], t)
  {
    assert s[i..][Entity(s[i..], t).used..] == s[i + Entity(s[i..], t).used..];
  }
}
