/**
 * ReadBytes, and lines put together from ReadLine fragments.
 *
 * Until and Verdict read a result off the stream alone. Whatever the buffer size and
 * however the source cuts its data into reads, that is what ReadBytes returns, and it is the
 * text of the joined fragments, unless the source stalls for a hundred empty reads. What does
 * depend on the buffer and the reads is whether the error behind an unterminated line comes
 * with its last fragment, where ReadLine drops it, or alone; LastFragment shows both.
 */
module BufioLines {
  import opened Prelude
  import opened IoSource
  import opened BufioReader

  /** The bytes up to and including the first delim, or up to the first error or the end. */
  function Until(items: seq<Item>, delim: Byte): (s: Bytes)
    ensures |s| <= |items|
  {
    if items == [] || items[0].Fault? then []
    else if items[0].b == delim then [delim]
    else [items[0].b] + Until(items[1..], delim)
  }

  predicate Ends(s: Bytes, delim: Byte) { s != [] && s[|s| - 1] == delim }

  /** Why Until stopped: nil at a delim, else the error found there, else EOF. */
  function Verdict(items: seq<Item>, delim: Byte): Option<Error> {
    var s := Until(items, delim);
    if Ends(s, delim) then None
    else if |s| < |items| && items[|s|].Fault? then Some(items[|s|].e)
    else Some(EOF)
  }

  lemma {:induction false} UntilFirst(x: Bytes, behind: seq<Item>, delim: Byte)
    requires EndsFirst(x, delim)
    ensures Until(Datas(x) + behind, delim) == x
  {
    var items := Datas(x) + behind;
    assert items[0] == Data(x[0]);
    if |x| > 1 {
      assert x[..|x| - 1][0] == x[0];
      assert x[1..][..|x| - 2] == x[..|x| - 1][1..];
      UntilFirst(x[1..], behind, delim);
      assert items[1..] == Datas(x[1..]) + behind;
    }
  }

  lemma {:induction false} UntilStop(x: Bytes, behind: seq<Item>, delim: Byte)
    requires delim !in x && (behind == [] || behind[0].Fault?)
    ensures Until(Datas(x) + behind, delim) == x
  {
    var items := Datas(x) + behind;
    if x == [] {
      assert items == behind;
    } else {
      assert items[0] == Data(x[0]);
      UntilStop(x[1..], behind, delim);
      assert items[1..] == Datas(x[1..]) + behind;
    }
  }

  /** What was taken off the front is what the stream prescribes. */
  lemma TookUntil(a: seq<Item>, x: Bytes, given: seq<Item>, b: seq<Item>, e: Option<Error>, delim: Byte)
    requires Took(a, x, given, b)
    requires e.None? ==> given == [] && EndsFirst(x, delim)
    requires e.Some? ==> delim !in x && Told(e, given, b)
    ensures e != Some(ErrNoProgress) ==> x == Until(a, delim) && e == Verdict(a, delim)
  {
    assert a == Datas(x) + (given + b);
    if e.None? {
      UntilFirst(x, given + b, delim);
    } else if !e.value.ErrNoProgress? {
      UntilStop(x, given + b, delim);
      NotEnding(x, delim);
      if given != [] {
        assert a[|x|] == Fault(e.value);
      }
    }
  }

  lemma NotEnding(x: Bytes, delim: Byte)
    requires delim !in x
    ensures !Ends(x, delim)
  {
  }

  function Join(parts: seq<Bytes>): Bytes {
    if parts == [] then [] else Join(parts[..|parts| - 1]) + parts[|parts| - 1]
  }

  /** Full buffers without a delim, and the fragment that ends it. */
  method CollectFragments(b: Reader, delim: Byte)
    returns (full: seq<Bytes>, frag: Bytes, total: nat, e: Option<Error>, ghost given: seq<Item>)
    requires b.Valid()
    modifies b, b.buf, b.rd
    ensures b.Valid() && (old(b.Intact()) ==> b.Intact()) && b.buf == old(b.buf) && b.rd == old(b.rd)
    ensures Took(old(b.Ahead()), Join(full) + frag, given, b.Ahead())
    ensures b.consumed == old(b.consumed) + (Join(full) + frag)
    ensures total == |Join(full) + frag|
    ensures e.None? ==> given == [] && EndsFirst(Join(full) + frag, delim)
    ensures e.Some? ==> Without(Join(full) + frag, delim) && Told(e, given, b.Ahead())
    ensures e == Some(ErrNoProgress) ==> b.rd.stalled
  {
    hide Datas, BytesOf, Proper, Told, Took, Join, Reader.Ahead, Reader.Intact, Without, EndsFirst;
    NoParts();
    full, total := [], 0;
    StartTook(b.Ahead());
    while true
      invariant b.Valid() && (old(b.Intact()) ==> b.Intact()) && b.buf == old(b.buf) && b.rd == old(b.rd)
      invariant Took(old(b.Ahead()), Join(full), [], b.Ahead()) && b.consumed == old(b.consumed) + Join(full)
      invariant total == |Join(full)| && Without(Join(full), delim)
      decreases |b.Ahead()|
    {
      ghost var before, had := b.Ahead(), Join(full);
      frag, e, given := b.ReadSlice(delim);
      TookTook(old(b.Ahead()), had, before, frag, given, b.Ahead());
      if e != Some(ErrBufferFull) {
        JoinedEnd(had, frag, delim);
        Regroup(old(b.consumed), had, frag);
        total := total + |frag|;
        return;
      }
      TookLess(before, frag, given, b.Ahead());
      JoinMore(full, frag);
      Regroup(old(b.consumed), had, frag);
      full, total := full + [frag], total + |frag|;
      JoinedEnd(had, frag, delim);
    }
  }

  lemma NoParts()
    ensures Join([]) == [] && forall c: Byte :: Without([], c)
  {
  }

  lemma JoinMore(full: seq<Bytes>, frag: Bytes)
    ensures Join(full + [frag]) == Join(full) + frag
  {
    assert (full + [frag])[..|full|] == full;
  }

  lemma JoinedEnd(had: Bytes, frag: Bytes, delim: Byte)
    requires Without(had, delim)
    ensures EndsFirst(frag, delim) ==> EndsFirst(had + frag, delim)
    ensures Without(frag, delim) ==> Without(had + frag, delim)
  {
    if frag != [] {
      assert (had + frag)[..|had + frag| - 1] == had + frag[..|frag| - 1];
    }
  }

  lemma TookLess(a: seq<Item>, x: Bytes, given: seq<Item>, b: seq<Item>)
    requires Took(a, x, given, b)
    ensures |a| == |x| + |given| + |b|
  {
  }

  /** ReadBytes: err is nil exactly when the result ends in delim, and both are what the
      stream prescribes unless the source stalled. */
  method ReadBytes(b: Reader, delim: Byte) returns (out: Bytes, e: Option<Error>, ghost given: seq<Item>)
    requires b.Valid()
    modifies b, b.buf, b.rd
    ensures b.Valid() && (old(b.Intact()) ==> b.Intact())
    ensures Took(old(b.Ahead()), out, given, b.Ahead()) && b.consumed == old(b.consumed) + out
    ensures e.None? <==> Ends(out, delim)
    ensures e == Some(ErrNoProgress) ==> b.rd.stalled
    ensures e != Some(ErrNoProgress) ==>
              out == Until(old(b.Ahead()), delim) && e == Verdict(old(b.Ahead()), delim)
  {
    hide Datas, BytesOf, Proper, Told, Took, Until, Verdict;
    var full, frag, total, err, g := CollectFragments(b, delim);
    out, e, given := [], err, g;
    for i := 0 to |full|
      invariant out == Join(full[..i])
    {
      assert full[..i + 1][..i] == full[..i];
      out := out + full[i];
    }
    assert full[..|full|] == full;
    out := out + frag;
    TookUntil(old(b.Ahead()), out, given, b.Ahead(), e, delim);
  }

  /** The text of a line: its newline and one carriage return before it removed. */
  function LineText(raw: Bytes): Bytes {
    if Ends(raw, NEWLINE) then DropEol(raw) else raw
  }

  /** What LineText makes of the stream: a line loses its newline and one carriage return before it;
      what the end of the stream or an error breaks off loses nothing. */
  lemma LineMeans(body: Bytes, behind: seq<Item>)
    requires NEWLINE !in body
    ensures LineText(Until(Datas(body + [CR, NEWLINE]) + behind, NEWLINE)) == body
    ensures body == [] || body[|body| - 1] != CR ==>
              LineText(Until(Datas(body + [NEWLINE]) + behind, NEWLINE)) == body
    ensures behind == [] || behind[0].Fault? ==> LineText(Until(Datas(body) + behind, NEWLINE)) == body
  {
    EndedBy(body, [CR, NEWLINE]);
    EndedBy(body, [NEWLINE]);
    UntilFirst(body + [CR, NEWLINE], behind, NEWLINE);
    UntilFirst(body + [NEWLINE], behind, NEWLINE);
    if behind == [] || behind[0].Fault? {
      UntilStop(body, behind, NEWLINE);
      assert !Ends(body, NEWLINE);
    }
    hide Until, Datas;
    assert (body + [CR, NEWLINE])[..|body|] == body;
    assert (body + [NEWLINE])[..|body|] == body;
  }

  /** And Verdict: nil behind a delimiter, otherwise the error that broke the text off, or EOF. */
  lemma VerdictMeans(x: Bytes, behind: seq<Item>, delim: Byte)
    ensures EndsFirst(x, delim) ==> Verdict(Datas(x) + behind, delim) == None
    ensures Without(x, delim) && behind == [] ==> Verdict(Datas(x) + behind, delim) == Some(EOF)
    ensures Without(x, delim) && behind != [] && behind[0].Fault? ==>
              Verdict(Datas(x) + behind, delim) == Some(behind[0].e)
  {
    if EndsFirst(x, delim) {
      UntilFirst(x, behind, delim);
    }
    if Without(x, delim) && (behind == [] || behind[0].Fault?) {
      UntilStop(x, behind, delim);
      assert !Ends(x, delim);
      ItemBehind(x, [], behind);
      assert Datas(x) + [] + behind == Datas(x) + behind;
    }
    hide Until, Datas;
  }

  lemma EndedBy(body: Bytes, end: Bytes)
    requires NEWLINE !in body && (end == [NEWLINE] || end == [CR, NEWLINE])
    ensures EndsFirst(body + end, NEWLINE)
  {
    assert (body + end)[..|body + end| - 1] == body + end[..|end| - 1];
  }

  /** ReadLine until isPrefix is false: the fragments joined are the text of the line. */
  method JoinLine(b: Reader)
    returns (text: Bytes, e: Option<Error>, ghost last: Bytes, ghost cause: Option<Error>, ghost given: seq<Item>)
    requires b.Valid()
    modifies b, b.buf, b.rd
    ensures b.Valid() && (old(b.Intact()) ==> b.Intact())
    ensures |last| <= |text| && last == text[|text| - |last|..]
    ensures e == if last == [] then cause else None
    ensures cause == Some(ErrNoProgress) ==> b.rd.stalled
    ensures cause != Some(ErrNoProgress) ==>
              && text == LineText(Until(old(b.Ahead()), NEWLINE))
              && cause == Verdict(old(b.Ahead()), NEWLINE)
              && Took(old(b.Ahead()), Until(old(b.Ahead()), NEWLINE), given, b.Ahead())
  {
    hide Datas, BytesOf, Proper, Told, Took, Until, Verdict, Reader.Ahead;
    text := [];
    StartTook(b.Ahead());
    while true
      invariant b.Valid() && (old(b.Intact()) ==> b.Intact()) && b.buf == old(b.buf) && b.rd == old(b.rd)
      invariant Took(old(b.Ahead()), text, [], b.Ahead()) && NEWLINE !in text
      invariant text != [] && text[|text| - 1] == CR ==> b.Ahead() != [] && b.Ahead()[0] == Data(CR)
      decreases |b.Ahead()|
    {
      ghost var before, had := b.Ahead(), text;
      var line, isPrefix;
      ghost var raw;
      line, isPrefix, e, raw, cause, given := b.ReadLine();
      TookTook(old(b.Ahead()), had, before, raw, given, b.Ahead());
      text, last := text + line, line;
      assert text[|had|..] == line;
      if !isPrefix {
        JoinedEnd(had, raw, NEWLINE);
        if cause.None? {
          TookFirst(before, raw, b.Ahead());
          JoinedText(had, raw);
        } else {
          NoNewlineText(had + raw);
        }
        TookUntil(old(b.Ahead()), had + raw, given, b.Ahead(), cause, NEWLINE);
        return;
      }
      TookLess(before, raw, given, b.Ahead());
    }
  }

  lemma NoNewlineText(raw: Bytes)
    requires NEWLINE !in raw
    ensures LineText(raw) == raw
  {
  }

  lemma TookFirst(before: seq<Item>, raw: Bytes, after: seq<Item>)
    requires raw != [] && Took(before, raw, [], after)
    ensures before != [] && before[0] == Data(raw[0])
  {
  }

  /** A carriage return at the end of a fragment is never the one before the newline. */
  lemma JoinedText(had: Bytes, raw: Bytes)
    requires EndsFirst(raw, NEWLINE)
    requires had != [] && had[|had| - 1] == CR ==> raw[0] == CR
    ensures had + DropEol(raw) == LineText(had + raw)
  {
    var whole := had + raw;
    if |raw| == 1 {
      assert whole[..|whole| - 1] == had;
    } else if raw[|raw| - 2] == CR {
      assert whole[..|whole| - 2] == had + raw[..|raw| - 2];
    } else {
      assert whole[..|whole| - 1] == had + raw[..|raw| - 1];
    }
  }

  // ------------------------------------------------- the end of an unterminated line

  /** Sixteen bytes without a newline, and nothing behind them, in a buffer of sixteen bytes. If
      the source reported the end together with the last bytes, ReadLine returns them as a line;
      if not, it returns them as a fragment, and the next call reports an error. */
  method LastFragment(c: Byte)
    returns (filled: bool, together: bool, first: (Bytes, bool, Option<Error>), next: (Bytes, bool, Option<Error>))
    requires c != CR && c != NEWLINE
    ensures filled && together ==> first == (Text16(c), false, None)
    ensures filled && !together ==> first == (Text16(c), true, None) && next.0 == [] && !next.1 && next.2.Some?
  {
    hide Datas, BytesOf, Proper, Told, Took, Without;
    ghost var text := Text16(c);
    first, next := ([], false, None), ([], false, None);
    var b;
    filled, b := Fill16(c);
    together := b.err.Some?;
    if !filled {
      return;
    }
    NoNewline16(c);
    ghost var raw, cause, given;
    var line, isPrefix, e;
    line, isPrefix, e, raw, cause, given := b.ReadLine();
    PendFaults(b.err, b.pend, b.rd.rest);
    first := (line, isPrefix, e);
    if together {
      Drained(text, raw, cause, given, b.buf[b.r..b.w], b.pend, b.rd.rest);
      return;
    }
    WholeFragment(text, line, b.Ahead());
    line, isPrefix, e, raw, cause, given := b.ReadLine();
    NothingLeft(raw, given, b.Ahead());
    next := (line, isPrefix, e);
  }

  /** Peek at sixteen bytes, so that all of them are in the buffer. */
  method Fill16(c: Byte) returns (filled: bool, b: Reader)
    ensures b.Valid() && fresh(b) && fresh(b.buf) && fresh(b.rd) && b.buf.Length == 16
    ensures filled ==> b.buf[b.r..b.w] == Text16(c) && b.pend == [] && b.rd.rest == [] && b.Ahead() == Datas(Text16(c))
  {
    ghost var text := Text16(c);
    var src := new Source(seq(16, _ => Data(c)));
    b := new Reader(src, 16);
    assert b.Ahead() == Datas(text);
    hide Datas, BytesOf, Proper, Told, Took;
    var out, e, given := b.Peek(16);
    filled := e.None?;
    if filled {
      AllBuffered(b.buf[b.r..b.w], b.pend, b.rd.rest, text);
    }
  }

  function Text16(c: Byte): (s: Bytes)
    ensures |s| == 16 && forall i :: 0 <= i < 16 ==> s[i] == c
  {
    seq(16, _ => c)
  }

  lemma NoNewline16(c: Byte)
    requires c != NEWLINE
    ensures Without(Text16(c), NEWLINE)
  {
  }

  /** A buffer as long as all that is ahead holds all of it. */
  lemma AllBuffered(held: Bytes, pend: seq<Item>, rest: seq<Item>, text: Bytes)
    requires Datas(held) + pend + rest == Datas(text) && |held| >= |text|
    ensures held == text && pend == [] && rest == []
  {
    var all := Datas(held) + pend + rest;
    assert |all| == |held| + |pend| + |rest|;
    forall i | 0 <= i < |held|
      ensures held[i] == text[i]
    {
      assert all[i] == Data(held[i]);
    }
  }

  /** With the end known, everything is handed out at once. */
  lemma Drained(text: Bytes, raw: Bytes, cause: Option<Error>, given: seq<Item>, held: Bytes, pend: seq<Item>,
      rest: seq<Item>)
    requires Took(Datas(text), raw, given, Datas(held) + pend + rest) && Without(text, NEWLINE) && text != []
    requires cause.None? ==> EndsFirst(raw, NEWLINE)
    requires cause.Some? ==> held == [] && pend == [] && rest == [] && Told(cause, given, Datas(held) + pend + rest)
    ensures cause.Some? && raw == text
  {
    var after := Datas(held) + pend + rest;
    var all := Datas(raw) + given + after;
    assert all == Datas(text);
    forall i | 0 <= i < |raw|
      ensures raw[i] == text[i]
    {
      assert all[i] == Data(raw[i]);
    }
    ItemBehind(raw, given, after);
  }

  /** A fragment of text in which no carriage return was put back fills the buffer. */
  lemma WholeFragment(text: Bytes, line: Bytes, after: seq<Item>)
    requires Took(Datas(text), line, [], after) && |line| <= |text| && CR !in text
    requires |line| < |text| ==> after != [] && after[0] == Data(CR)
    ensures line == text && after == []
  {
    var all := Datas(line) + [] + after;
    assert all == Datas(text) && |all| == |line| + |after|;
    forall i | 0 <= i < |line|
      ensures line[i] == text[i]
    {
      assert all[i] == Data(line[i]);
    }
    ItemBehind(line, [], after);
  }

  lemma ItemBehind(x: Bytes, given: seq<Item>, after: seq<Item>)
    ensures |Datas(x) + given + after| == |x| + |given| + |after|
    ensures given != [] ==> (Datas(x) + given + after)[|x|] == given[0]
    ensures given == [] && after != [] ==> (Datas(x) + given + after)[|x|] == after[0]
  {
  }

  lemma NothingLeft(raw: Bytes, given: seq<Item>, after: seq<Item>)
    requires Took([], raw, given, after)
    ensures raw == [] && given == [] && after == []
  {
    assert |Datas(raw) + given + after| == |raw| + |given| + |after|;
  }
}
