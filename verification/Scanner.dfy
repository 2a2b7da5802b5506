/**
 * bufio.Scanner with its default split function, ScanLines.
 *
 * Pending is the text that is still to be scanned: what the buffer holds, followed by the
 * bytes the source has before its first error. One Scan takes exactly the first line off
 * Pending, however the buffer slides and grows and however the source cuts its data.
 */
module Scanner {
  import opened Prelude
  import opened IoSource

  const START_BUFFER: nat := 4096

  // --------------------------------------------------------------------- lines

  function DropCR(data: Bytes): Bytes {
    if |data| > 0 && data[|data| - 1] == CR then data[..|data| - 1] else data
  }

  /** Position of the first newline, or -1. */
  function FirstNewline(s: Bytes): (i: int)
    ensures -1 <= i < |s|
    ensures i >= 0 ==> s[i] == NEWLINE && NEWLINE !in s[..i]
    ensures i < 0 ==> NEWLINE !in s
  {
    if s == [] then -1
    else if s[0] == NEWLINE then 0
    else
      var i := FirstNewline(s[1..]);
      assert s == [s[0]] + s[1..];
      if i < 0 then -1 else (assert s[..i + 1] == [s[0]] + s[1..][..i]; i + 1)
  }

  /** ScanLines: how far to advance, and the token if there is one. */
  function ScanLines(data: Bytes, atEOF: bool): (r: (nat, Option<Bytes>))
    ensures r.0 <= |data| && (r.1.Some? ==> r.0 > 0)
  {
    var i := FirstNewline(data);
    if atEOF && data == [] then (0, None)
    else if i >= 0 then (i + 1, Some(DropCR(data[..i])))
    else if atEOF then (|data|, Some(DropCR(data)))
    else (0, None)
  }

  /** The length of the first line of a text, without its newline. */
  function FirstLength(s: Bytes): (n: nat)
    ensures n <= |s|
  {
    if FirstNewline(s) >= 0 then FirstNewline(s) else |s|
  }

  /** What follows the first line. */
  function Rest(s: Bytes): (t: Bytes)
    requires s != []
    ensures |t| < |s|
  {
    if FirstNewline(s) >= 0 then s[FirstNewline(s) + 1..] else []
  }

  /** The lines of a text; the last one need not be terminated. */
  function Lines(s: Bytes): seq<Bytes>
    decreases |s|
  {
    if s == [] then [] else [DropCR(s[..FirstLength(s)])] + Lines(Rest(s))
  }

  /** A first line: it is followed by a newline with at most one carriage return before it, or at
      the very end of the text by nothing or one carriage return; what counts as the line's end
      is as long as possible. */
  predicate FirstLine(text: Bytes, token: Bytes, end: Bytes, rest: Bytes) {
    && text == token + end + rest && text != [] && NEWLINE !in token
    && (end == [NEWLINE] || end == [CR, NEWLINE] || (rest == [] && (end == [] || end == [CR])))
    && (end == [NEWLINE] || end == [] ==> token == [] || token[|token| - 1] != CR)
  }

  /** The tokens are the lines of the text. */
  ghost predicate LineSplit(text: Bytes, tokens: seq<Bytes>)
    decreases |tokens|
  {
    if tokens == [] then text == []
    else exists end: Bytes, rest: Bytes :: FirstLine(text, tokens[0], end, rest) && LineSplit(rest, tokens[1..])
  }

  /** A first line with its end is split off by Lines. */
  lemma FirstSplit(text: Bytes, token: Bytes, end: Bytes, rest: Bytes)
    requires FirstLine(text, token, end, rest)
    ensures |rest| < |text| || (rest == [] && text != [])
    ensures Lines(text) == [token] + Lines(rest)
  {
    var line := if end == [CR, NEWLINE] || end == [CR] then token + [CR] else token;
    LineOf(text, token, end, rest, line);
    FirstLineLength(text, line, rest, end == [NEWLINE] || end == [CR, NEWLINE]);
    EndDropped(token, line);
    hide FirstLength, FirstNewline, DropCR, FirstLine;
  }

  lemma LineOf(text: Bytes, token: Bytes, end: Bytes, rest: Bytes, line: Bytes)
    requires FirstLine(text, token, end, rest)
    requires line == if end == [CR, NEWLINE] || end == [CR] then token + [CR] else token
    ensures NEWLINE !in line
    ensures if end == [NEWLINE] || end == [CR, NEWLINE] then text == line + [NEWLINE] + rest
            else text == line && rest == []
  {
  }

  lemma FirstLineLength(text: Bytes, line: Bytes, rest: Bytes, ended: bool)
    requires NEWLINE !in line && text != []
    requires if ended then text == line + [NEWLINE] + rest else text == line && rest == []
    ensures text[..FirstLength(text)] == line && Rest(text) == rest
  {
    if ended {
      assert text == line + ([NEWLINE] + rest);
      FirstNewlineAppend(line, [NEWLINE] + rest);
    }
  }

  lemma EndDropped(token: Bytes, line: Bytes)
    requires line == token + [CR] || (line == token && (token == [] || token[|token| - 1] != CR))
    ensures DropCR(line) == token
  {
    if line == token + [CR] {
      assert line[..|line| - 1] == token;
    }
  }

  /** Lines is a split into lines. */
  lemma {:induction false} LinesSplit(text: Bytes)
    ensures LineSplit(text, Lines(text))
    decreases |text|
  {
    if text != [] {
      LineFound(text);
      LinesSplit(Rest(text));
      hide FirstLine, FirstLength, FirstNewline, Rest, DropCR;
      var tokens := Lines(text);
      assert tokens[1..] == Lines(Rest(text));
      assert FirstLine(text, tokens[0], LineEnd(text), Rest(text));
    }
  }

  /** And it is the only one. */
  lemma {:induction false} OnlyLines(text: Bytes, tokens: seq<Bytes>)
    requires LineSplit(text, tokens)
    ensures tokens == Lines(text)
    decreases |tokens|
  {
    if tokens != [] {
      hide FirstLine, Lines;
      var end: Bytes, rest: Bytes :| FirstLine(text, tokens[0], end, rest) && LineSplit(rest, tokens[1..]);
      FirstSplit(text, tokens[0], end, rest);
      OnlyLines(rest, tokens[1..]);
      assert tokens == [tokens[0]] + tokens[1..];
    }
  }

  /** For example "a\r\n". */
  lemma OneLine()
    ensures Lines([97, 13, 10]) == [[97]]
  {
    NoLines();
    hide Lines;
    assert FirstLine([97, 13, 10], [97], [13, 10], []);
    FirstSplit([97, 13, 10], [97], [13, 10], []);
  }

  lemma NoLines()
    ensures Lines([]) == []
  {
  }

  /** What ends the first line. */
  function LineEnd(s: Bytes): Bytes
    requires s != []
  {
    var line := s[..FirstLength(s)];
    var newline := if FirstNewline(s) >= 0 then [NEWLINE] else [];
    if line != [] && line[|line| - 1] == CR then [CR] + newline else newline
  }

  lemma LineFound(s: Bytes)
    requires s != []
    ensures FirstLine(s, DropCR(s[..FirstLength(s)]), LineEnd(s), Rest(s))
  {
    LineCut(s);
    hide FirstNewline, FirstLength, Rest, FirstLine, DropCR;
    var newline := if FirstNewline(s) >= 0 then [NEWLINE] else [];
    EndFound(s, s[..FirstLength(s)], newline, Rest(s));
  }

  lemma EndFound(s: Bytes, line: Bytes, newline: Bytes, rest: Bytes)
    requires s != [] && s == line + newline + rest && NEWLINE !in line
    requires newline == [NEWLINE] || (newline == [] && rest == [])
    ensures FirstLine(s, DropCR(line), if line != [] && line[|line| - 1] == CR then [CR] + newline else newline, rest)
  {
    if line != [] && line[|line| - 1] == CR {
      var front := line[..|line| - 1];
      assert line == front + [CR];
      Regroup(front, [CR], newline);
      assert [CR] + [] == [CR] && [CR] + [NEWLINE] == [CR, NEWLINE];
    }
  }

  lemma LineCut(s: Bytes)
    requires s != []
    ensures NEWLINE !in s[..FirstLength(s)]
    ensures s == s[..FirstLength(s)] + (if FirstNewline(s) >= 0 then [NEWLINE] else []) + Rest(s)
    ensures FirstNewline(s) < 0 ==> Rest(s) == []
  {
    hide FirstNewline;
  }

  /** The short lines before a long one are the first lines. */
  lemma {:induction false} ShortPrefix(s: Bytes, max: nat)
    ensures ShortLines(s, max) <= Lines(s)
    decreases |s|
  {
    if s != [] && FirstLength(s) < max {
      ShortPrefix(Rest(s), max);
    }
  }

  /** Every line is shorter than max. */
  predicate Short(s: Bytes, max: nat)
    decreases |s|
  {
    s == [] || (FirstLength(s) < max && Short(Rest(s), max))
  }

  /** The lines before the first one that is not shorter than max. */
  function ShortLines(s: Bytes, max: nat): seq<Bytes>
    decreases |s|
  {
    if s == [] || FirstLength(s) >= max then []
    else [DropCR(s[..FirstLength(s)])] + ShortLines(Rest(s), max)
  }

  /** A line without a newline that is exactly max bytes long. */
  predicate Exact(s: Bytes, max: nat) { FirstNewline(s) < 0 && |s| == max }

  /** The first line that is not shorter than max is longer, or a newline ends it. */
  predicate Overlong(s: Bytes, max: nat)
    decreases |s|
  {
    s != [] && if FirstLength(s) >= max then !Exact(s, max) else Overlong(Rest(s), max)
  }

  /** Every line is shorter than max except the last one, which has no newline and is exactly
      max bytes long. */
  predicate ExactLast(s: Bytes, max: nat)
    decreases |s|
  {
    s != [] && if FirstLength(s) >= max then Exact(s, max) else ExactLast(Rest(s), max)
  }

  /** There is no fourth case. */
  lemma {:induction false} ThreeCases(s: Bytes, max: nat)
    requires max > 0
    ensures Short(s, max) <==> !Overlong(s, max) && !ExactLast(s, max)
    ensures !(Overlong(s, max) && ExactLast(s, max))
    ensures Short(s, max) ==> ShortLines(s, max) == Lines(s)
    decreases |s|
  {
    if s != [] {
      ThreeCases(Rest(s), max);
    }
  }

  lemma {:induction false} FirstNewlineAppend(a: Bytes, b: Bytes)
    ensures FirstNewline(a) >= 0 ==> FirstNewline(a + b) == FirstNewline(a)
    ensures FirstNewline(a) < 0 && FirstNewline(b) < 0 ==> FirstNewline(a + b) < 0
    ensures FirstNewline(a) < 0 && FirstNewline(b) >= 0 ==> FirstNewline(a + b) == |a| + FirstNewline(b)
  {
    if a == [] {
      assert a + b == b;
    } else {
      assert (a + b)[1..] == a[1..] + b;
      FirstNewlineAppend(a[1..], b);
    }
  }

  // --------------------------------------------------------------- the source

  /** The bytes before the first error. */
  function Prefix(items: seq<Item>): Bytes {
    if items == [] || items[0].Fault? then [] else [items[0].b] + Prefix(items[1..])
  }

  lemma {:induction false} PrefixDatas(d: Bytes, behind: seq<Item>)
    ensures Prefix(Datas(d) + behind) == d + Prefix(behind)
  {
    if d == [] {
      assert Datas(d) + behind == behind;
    } else {
      assert (Datas(d) + behind)[1..] == Datas(d[1..]) + behind;
      PrefixDatas(d[1..], behind);
      assert d == [d[0]] + d[1..];
    }
  }

  /** After a Read, the bytes before the first error are accounted for. */
  lemma PrefixRead(before: seq<Item>, d: Bytes, given: seq<Item>, after: seq<Item>, e: Option<Error>)
    requires before == Datas(d) + given + after && Reports(e, given, after)
    ensures Prefix(before) == if e.None? then d + Prefix(after) else d
  {
    assert before == Datas(d) + (given + after);
    PrefixDatas(d, given + after);
    if given != [] {
      assert (given + after)[0].Fault?;
    } else {
      assert given + after == after;
    }
  }

  // --------------------------------------------------------------- the scanner

  /** What a Read of the source returned. */
  datatype Got = Got(n: nat, err: Option<Error>)

  class LineScanner {
    const r: Source
    const maxTokenSize: nat
    var buf: array<Byte>
    var start: nat
    var end: nat
    var err: Option<Error>
    var token: Option<Bytes>
    var empties: nat
    /** The source returned nothing for more than a hundred reads in a row. */
    ghost var stalled: bool
    /** The answers of the source so far. */
    ghost var log: seq<Got>

    ghost predicate Valid()
      reads this, buf, r
    {
      && start <= end <= buf.Length <= maxTokenSize <= MAX_INT / 2
      && 1 <= maxTokenSize
      && Proper(r.rest)
      && (stalled ==> err == Some(ErrNoProgress) && r.stalled)
    }

    ghost function Pending(): Bytes
      requires start <= end <= buf.Length
      reads this, buf, r
    {
      buf[start..end] + (if err.None? then Prefix(r.rest) else [])
    }

    constructor (r: Source, maxTokenSize: nat)
      requires Proper(r.rest) && 1 <= maxTokenSize <= MAX_INT / 2
      ensures Valid() && fresh(buf) && err.None? && !stalled && start == end && log == []
      ensures this.r == r && this.maxTokenSize == maxTokenSize && Pending() == Prefix(r.rest)
    {
      this.r := r;
      this.maxTokenSize := maxTokenSize;
      this.buf := new Byte[0];
      start, end, err, token, empties, stalled, log := 0, 0, None, None, 0, false, [];
    }

    /** Whether the end of the source was known when the buffer became full: the Read that
        filled it said so, or it was known from before. */
    ghost predicate EndKnown(before: nat, was: Option<Error>)
      reads this
    {
      if |log| > before then log[|log| - 1].err.Some? else was.Some?
    }

    /** How a last line of exactly the maximum size ends: it is a token exactly when the end of
        the source was known by then. */
    ghost predicate Settled(ok: bool, before: nat, was: Option<Error>, size: int)
      reads this
    {
      && (ok <==> EndKnown(before, was)) && (ok ==> err.Some?)
      && (size < maxTokenSize ==> |log| > before && log[|log| - 1].n > 0)
    }

    /** The state since a call began: the last answer of the source is what is recorded, and
        it is the one that filled the buffer. */
    ghost predicate Lately(before: nat, was: Option<Error>, size: nat)
      reads this
    {
      && |log| >= before && start <= end
      && (|log| == before ==> err == was && end - start == size)
      && (|log| > before ==> log[|log| - 1].err == err && (end - start == maxTokenSize ==> log[|log| - 1].n > 0))
    }

    /** Slide the data down if that makes room, and grow a full buffer; false if it may not grow. */
    method MakeRoom() returns (ok: bool)
      requires Valid() && err.None?
      modifies this`start, this`end, this`buf, this`err, buf
      ensures Valid() && (buf == old(buf) || fresh(buf))
      ensures buf[start..end] == old(buf[start..end]) && end - start == old(end - start)
      ensures ok ==> Pending() == old(Pending())
      ensures ok ==> err.None? && end < buf.Length
      ensures !ok ==> err == Some(ErrTooLong) && end - start == buf.Length == maxTokenSize
    {
      if start > 0 && (end == buf.Length || start > buf.Length / 2) {
        forall i | 0 <= i < end - start {
          buf[i] := buf[start + i];
        }
        end, start := end - start, 0;
      }
      if end == buf.Length {
        if buf.Length >= maxTokenSize || buf.Length > MAX_INT / 2 {
          err := Some(ErrTooLong);
          return false;
        }
        var newSize := buf.Length * 2;
        if newSize == 0 {
          newSize := START_BUFFER;
        }
        if newSize > maxTokenSize {
          newSize := maxTokenSize;
        }
        var newBuf := new Byte[newSize];
        forall i | 0 <= i < end - start {
          newBuf[i] := buf[start + i];
        }
        buf, end, start := newBuf, end - start, 0;
      }
      ok := true;
    }

    /** Read until bytes or an error arrive. */
    method ReadMore()
      requires Valid() && err.None? && end < buf.Length
      modifies this`end, this`err, this`empties, this`stalled, this`log, buf, r
      ensures Valid() && start == old(start)
      ensures end >= old(end)
      ensures !stalled ==> |log| > |old(log)| && log[|log| - 1] == Got(end - old(end), err)
      ensures !stalled ==> Pending() == old(Pending())
      ensures |Pending()| <= |old(Pending())|
      ensures stalled == old(stalled) || (stalled && err == Some(ErrNoProgress))
      ensures err.Some? || |r.rest| < |old(r.rest)|
      ensures err != Some(ErrTooLong)
    {
      hide Proper, Prefix;
      var loop := 0;
      while true
        invariant Valid() && err.None? && start == old(start) && loop <= MAX_EMPTY_READS && end < buf.Length
        invariant r.idle >= loop
        invariant r.rest == old(r.rest) && Pending() == old(Pending()) && stalled == old(stalled)
        invariant end == old(end) && |log| >= |old(log)|
        decreases MAX_EMPTY_READS - loop
      {
        var n := ReadOnce();
        if err.Some? {
          return;
        }
        if n > 0 {
          empties := 0;
          return;
        }
        loop := loop + 1;
        if loop > MAX_EMPTY_READS {
          err, stalled := Some(ErrNoProgress), true;
          return;
        }
      }
    }

    /** One Read into the free part of the buffer. */
    method ReadOnce() returns (n: nat)
      requires Valid() && err.None?
      modifies this`end, this`err, this`log, buf, r
      ensures Valid() && Pending() == old(Pending()) && end == old(end) + n && err != Some(ErrTooLong)
      ensures log == old(log) + [Got(n, err)]
      ensures r.idle == (if n == 0 && err.None? then old(r.idle) + 1 else 0)
      ensures r.stalled == (old(r.stalled) || r.idle >= MAX_EMPTY_READS)
      ensures n == 0 && err.None? ==> r.rest == old(r.rest)
      ensures n > 0 ==> |r.rest| < |old(r.rest)|
    {
      hide Prefix, Proper, Datas;
      ghost var was, before := buf[..], r.rest;
      var e;
      ghost var given;
      n, e, given := r.Read(buf, end, buf.Length);
      OwnError(e);
      ghost var d := buf[end..end + n];
      SameFront(was, buf[..], start, end, end + n);
      ReadPending(was[start..end], before, d, given, r.rest, e);
      end, err := end + n, e;
      log := log + [Got(n, e)];
    }

    /** Ask the split function for a token in what is buffered. */
    method TryToken() returns (ok: bool)
      requires Valid()
      modifies this`start, this`token, this`empties
      ensures Valid() && (ok ==> token.Some? && |Pending()| < |old(Pending())|)
      ensures ok ==> TookLine(old(Pending()), token, Pending(), maxTokenSize)
      ensures !ok ==> Pending() == old(Pending()) && start == old(start) && FirstNewline(buf[start..end]) < 0
      ensures !ok && err.Some? ==> Pending() == []
      ensures ok ==> start > 0 && (err.Some? || FirstNewline(old(Pending())) >= 0)
      ensures ok ==> err.Some? || FirstNewline(old(buf[start..end])) >= 0
      ensures err.Some? ==> |old(Pending())| == old(end - start)
    {
      hide Proper, Prefix, FirstNewline, FirstLength, ScanLines, Rest, TookLine, Exact;
      var data := buf[start..end];
      ghost var more := if err.None? then Prefix(r.rest) else [];
      var split := ScanLines(data, err.Some?);
      TokenOfBuffer(data, more, err.Some?, maxTokenSize);
      DropSlice(buf[..], start, split.0, end);
      start, token := start + split.0, split.1;
      ok := token.Some?;
      if ok {
        empties := 0;
      }
    }

    /** Scan: take the first line off the pending text, or report the end or a line too long. */
    method Scan() returns (ok: bool)
      requires Valid()
      modifies this, buf, r
      ensures Valid() && (buf == old(buf) || fresh(buf)) && (old(stalled) ==> stalled)
      ensures ok ==> token.Some? && |Pending()| < |old(Pending())|
      ensures !stalled && ok ==> TookLine(old(Pending()), token, Pending(), maxTokenSize)
      ensures !stalled && ok ==> exists end :: FirstLine(old(Pending()), token.value, end, Pending())
      ensures !stalled && !ok ==>
                old(Pending()) == [] || (err == Some(ErrTooLong) && FirstLength(old(Pending())) >= maxTokenSize)
      ensures err == Some(ErrTooLong) ==>
                old(err) == Some(ErrTooLong) || (!stalled && !ok && FirstLength(old(Pending())) >= maxTokenSize)
      ensures ok ==> end - start < maxTokenSize
      ensures old(err).Some? ==> err == old(err) && log == old(log)
      ensures Exact(old(buf[start..end]), maxTokenSize) ==>
                log == old(log) && stalled == old(stalled) && (ok <==> old(err).Some?)
      ensures !stalled && Exact(old(Pending()), maxTokenSize) ==> Settled(ok, old(|log|), old(err), old(end - start))
    {
      hide Proper, Prefix, FirstNewline, FirstLength, Rest, ScanLines, Pending, FirstLine;
      ghost var first := buf[start..end];
      ghost var full := Exact(first, maxTokenSize);
      while true
        invariant !stalled ==> Lately(old(|log|), old(err), old(end - start))
        invariant old(err).Some? ==> err == old(err) && log == old(log)
        invariant Valid() && (buf == old(buf) || fresh(buf)) && (old(stalled) ==> stalled)
        invariant !stalled ==> Pending() == old(Pending())
        invariant |Pending()| <= |old(Pending())|
        invariant err == Some(ErrTooLong) ==> old(err) == Some(ErrTooLong)
        invariant full ==> log == old(log) && stalled == old(stalled) && err == old(err) && buf[start..end] == first
        decreases err.None?, |r.rest|
      {
        ok := TryToken();
        if ok {
          if !stalled {
            TookFirst(old(Pending()), token, Pending(), maxTokenSize);
          }
          return;
        }
        if err.Some? {
          start, end := 0, 0;
          return;
        }
        var room := Extend();
        if !room {
          return;
        }
      }
    }

    /** No token yet and no error: make room and read on. */
    method Extend() returns (room: bool)
      requires Valid() && err.None? && FirstNewline(buf[start..end]) < 0
      modifies this`start, this`end, this`buf, this`err, this`empties, this`stalled, this`log, buf, r
      ensures Valid() && (buf == old(buf) || fresh(buf)) && (old(stalled) ==> stalled)
      ensures !room ==> err == Some(ErrTooLong) && FirstLength(old(Pending())) >= maxTokenSize == old(end - start)
      ensures !room ==> stalled == old(stalled) && log == old(log)
      ensures room && !stalled ==> Pending() == old(Pending())
      ensures room ==> |Pending()| <= |old(Pending())| && err != Some(ErrTooLong)
      ensures room ==> err.Some? || |r.rest| < |old(r.rest)|
      ensures room ==> old(end - start) < maxTokenSize
      ensures room && !stalled ==>
        |log| > |old(log)| && log[|log| - 1].err == err && (end - start == maxTokenSize ==> log[|log| - 1].n > 0)
    {
      hide FirstNewline, FirstLength, Prefix;
      NoLineYet(buf[start..end], Prefix(r.rest));
      assert Pending() == buf[start..end] + Prefix(r.rest) && FirstLength(Pending()) >= end - start;
      hide Proper, Prefix, FirstNewline, FirstLength, Pending;
      room := MakeRoom();
      if !room {
        return;
      }
      ReadMore();
    }
  }

  /** token is the first line of before, and after is what follows it; a line that is not
      shorter than max can only be the last one, without a newline and exactly that long. */
  ghost predicate TookLine(before: Bytes, token: Option<Bytes>, after: Bytes, max: nat) {
    && before != []
    && token == Some(DropCR(before[..FirstLength(before)]))
    && after == Rest(before)
    && (FirstLength(before) >= max ==> Exact(before, max))
  }

  lemma TookFirst(before: Bytes, token: Option<Bytes>, after: Bytes, max: nat)
    requires TookLine(before, token, after, max)
    ensures token.Some? && exists end :: FirstLine(before, token.value, end, after)
  {
    LineFound(before);
    hide FirstLine, FirstLength, Rest, DropCR;
  }

  /** Reading moves bytes from the source to the buffer and loses none. */
  lemma ReadPending(head: Bytes, before: seq<Item>, d: Bytes, given: seq<Item>, after: seq<Item>, e: Option<Error>)
    requires before == Datas(d) + given + after && Reports(e, given, after)
    ensures head + d + (if e.None? then Prefix(after) else []) == head + Prefix(before)
    ensures |before| == |d| + |given| + |after|
    ensures d == [] && e.None? ==> before == after
  {
    ReadLengths(before, d, given, after, e);
    PrefixRead(before, d, given, after, e);
    hide Prefix, Datas, Reports;
    Regroup(head, d, Prefix(after));
    assert head + d + [] == head + d;
  }

  lemma ReadLengths(before: seq<Item>, d: Bytes, given: seq<Item>, after: seq<Item>, e: Option<Error>)
    requires before == Datas(d) + given + after && Reports(e, given, after)
    ensures |before| == |d| + |given| + |after|
    ensures d == [] && e.None? ==> before == after
  {
  }

  /** A token found in the buffer is the first line of the pending text. */
  lemma TokenOfBuffer(held: Bytes, more: Bytes, atEOF: bool, max: nat)
    requires |held| <= max && (atEOF ==> more == [])
    ensures var split := ScanLines(held, atEOF);
            var all := held + more;
            && (split.1.Some? ==> TookLine(all, split.1, held[split.0..] + more, max) && split.0 > 0)
            && (split.1.Some? && !atEOF ==> FirstNewline(all) >= 0 && FirstNewline(held) >= 0)
            && (split.1.None? ==> split.0 == 0 && FirstNewline(held) < 0 && (atEOF ==> held == []))
  {
    if FirstNewline(held) >= 0 {
      TerminatedToken(held, more, max);
    } else if atEOF {
      assert held + more == held;
    }
    hide FirstNewline, DropCR, FirstLength;
  }

  lemma DropSlice(s: Bytes, start: nat, k: nat, end: nat)
    requires start + k <= end <= |s|
    ensures s[start..end][k..] == s[start + k..end]
  {
  }

  lemma OwnError(e: Option<Error>)
    ensures e.Some? && Own(e.value) ==> e != Some(ErrTooLong)
  {
  }

  /** New bytes behind old ones. */
  lemma SameFront(was: Bytes, now: Bytes, start: nat, end: nat, more: nat)
    requires start <= end <= more <= |now| && end <= |was| && now[..end] == was[..end]
    ensures now[start..more] == was[start..end] + now[end..more]
  {
    assert now[start..end] == now[..end][start..];
    assert was[start..end] == was[..end][start..];
    assert now[start..more] == now[start..end] + now[end..more];
  }

  lemma TerminatedToken(held: Bytes, more: Bytes, max: nat)
    requires |held| <= max && FirstNewline(held) >= 0
    ensures var i := FirstNewline(held);
            TookLine(held + more, Some(DropCR(held[..i])), held[i + 1..] + more, max) && FirstNewline(held + more) == i
  {
    FirstNewlineAppend(held, more);
    hide FirstNewline, DropCR;
    SliceAppend(held, more, FirstNewline(held));
  }

  lemma SliceAppend(held: Bytes, more: Bytes, i: nat)
    requires i < |held|
    ensures (held + more)[..i] == held[..i]
    ensures (held + more)[i + 1..] == held[i + 1..] + more
  {
  }

  /** Without a newline in the buffer, the first line reaches beyond it. */
  lemma NoLineYet(held: Bytes, more: Bytes)
    ensures FirstNewline(held) < 0 ==> FirstLength(held + more) >= |held|
    ensures held + more == [] ==> held == []
  {
    FirstNewlineAppend(held, more);
  }

  /** Scan until it returns false. */
  method ScanAll(s: LineScanner) returns (tokens: seq<Bytes>)
    requires s.Valid() && s.err.None? && !s.stalled
    modifies s, s.buf, s.r
    ensures s.Valid()
    ensures !s.stalled ==> tokens == (if s.err == Some(ErrTooLong) then ShortLines(old(s.Pending()), s.maxTokenSize)
                                      else Lines(old(s.Pending())))
    ensures !s.stalled && s.err != Some(ErrTooLong) ==> LineSplit(old(s.Pending()), tokens)
    ensures !s.stalled ==> exists more :: LineSplit(old(s.Pending()), tokens + more)
    ensures !s.stalled && Short(old(s.Pending()), s.maxTokenSize) ==> s.err != Some(ErrTooLong)
    ensures !s.stalled && Overlong(old(s.Pending()), s.maxTokenSize) ==> s.err == Some(ErrTooLong)
    ensures !s.stalled && ExactLast(old(s.Pending()), s.maxTokenSize) && old(s.end - s.start) < s.maxTokenSize ==>
              s.log != [] && (s.err == Some(ErrTooLong) <==> s.log[|s.log| - 1].err.None?)
  {
    hide Proper, Prefix, Lines, Short, ShortLines, Overlong, ExactLast, FirstLength, FirstNewline, Rest, LineSplit;
    tokens := [];
    TallyStart(s.Pending(), s.maxTokenSize);
    ghost var all, last, max := s.Pending(), false, s.maxTokenSize;
    while true
      invariant s.Valid() && (s.buf == old(s.buf) || fresh(s.buf)) && s.err != Some(ErrTooLong)
      invariant !s.stalled ==> Tally(all, tokens, s.Pending(), last, max)
      invariant !s.stalled && last ==> s.err.Some? && (old(s.end - s.start) < max ==>
              s.log != [] && s.log[|s.log| - 1].err.Some?)
      invariant s.end - s.start < max || s.end - s.start == old(s.end - s.start)
      decreases |s.Pending()|
    {
      ghost var before := s.Pending();
      LongFirst(before, max);
      var ok := s.Scan();
      if !ok {
        if !s.stalled {
          TallyEnd(all, tokens, before, last, max);
          TokensSplit(all, tokens, max);
        }
        return;
      }
      if !s.stalled {
        TallyNext(all, tokens, before, last, max);
      }
      last := last || FirstLength(before) >= max;
      tokens := tokens + [s.token.value];
    }
  }

  lemma TokensSplit(all: Bytes, tokens: seq<Bytes>, max: nat)
    requires tokens == Lines(all) || tokens == ShortLines(all, max)
    ensures tokens == Lines(all) ==> LineSplit(all, tokens)
    ensures exists more :: LineSplit(all, tokens + more)
  {
    ShortPrefix(all, max);
    var more := Lines(all)[|tokens|..];
    assert tokens + more == Lines(all);
    LinesSplit(all);
  }

  /** What the tokens so far and the pending text have to do with the whole text. */
  ghost predicate Tally(all: Bytes, tokens: seq<Bytes>, pending: Bytes, last: bool, max: nat) {
    && Lines(all) == tokens + Lines(pending)
    && (Short(all, max) ==> Short(pending, max))
    && (Overlong(all, max) ==> Overlong(pending, max))
    && (ExactLast(all, max) && !last ==> ExactLast(pending, max))
    && (if last then pending == [] else ShortLines(all, max) == tokens + ShortLines(pending, max))
  }

  lemma TallyStart(all: Bytes, max: nat)
    ensures Tally(all, [], all, false, max)
  {
  }

  lemma TallyNext(all: Bytes, tokens: seq<Bytes>, pending: Bytes, last: bool, max: nat)
    requires Tally(all, tokens, pending, last, max) && pending != []
    requires FirstLength(pending) >= max ==> Exact(pending, max)
    ensures Tally(all, tokens + [DropCR(pending[..FirstLength(pending)])], Rest(pending),
                  last || FirstLength(pending) >= max, max)
  {
    Unfolded(pending, max);
    hide Lines, Short, ShortLines, Overlong, ExactLast, FirstNewline, FirstLength, Rest, DropCR;
    var t := DropCR(pending[..FirstLength(pending)]);
    Prepend(tokens, t, Lines(Rest(pending)));
    Prepend(tokens, t, ShortLines(Rest(pending), max));
  }

  /** A first line that is not short decides the case. */
  lemma LongFirst(s: Bytes, max: nat)
    requires max > 0
    ensures FirstLength(s) >= max ==> (ExactLast(s, max) <==> Exact(s, max)) && (Overlong(s, max) <==> !Exact(s, max))
    ensures FirstLength([]) < max
  {
  }

  lemma Unfolded(s: Bytes, max: nat)
    requires s != []
    ensures Lines(s) == [DropCR(s[..FirstLength(s)])] + Lines(Rest(s))
    ensures Short(s, max) == (FirstLength(s) < max && Short(Rest(s), max))
    ensures FirstLength(s) < max ==>
              && ShortLines(s, max) == [DropCR(s[..FirstLength(s)])] + ShortLines(Rest(s), max)
              && Overlong(s, max) == Overlong(Rest(s), max) && ExactLast(s, max) == ExactLast(Rest(s), max)
    ensures FirstLength(s) >= max && Exact(s, max) ==> Rest(s) == [] && !Overlong(s, max)
  {
  }

  lemma Prepend(tokens: seq<Bytes>, t: Bytes, more: seq<Bytes>)
    ensures tokens + ([t] + more) == tokens + [t] + more
  {
  }

  lemma TallyEnd(all: Bytes, tokens: seq<Bytes>, pending: Bytes, last: bool, max: nat)
    requires Tally(all, tokens, pending, last, max) && max >= 1
    ensures pending == [] ==> tokens == Lines(all) && !Overlong(all, max) && (ExactLast(all, max) ==> last)
    ensures FirstLength(pending) >= max ==> tokens == ShortLines(all, max) && !Short(all, max)
  {
  }

  /** A text of one byte, with one byte as the maximum: it is a token if the Read that brought
      it also reported the end, and too long otherwise. */
  method ExactLine(c: Byte) returns (ok: bool, s: LineScanner)
    requires c != NEWLINE && c != CR
    ensures s.Valid() && s.maxTokenSize == 1
    ensures !s.stalled ==> s.log != [] && (ok <==> s.log[|s.log| - 1].err.Some?)
    ensures !s.stalled && ok ==> s.token == Some([c])
    ensures !s.stalled && !ok ==> s.err == Some(ErrTooLong)
  {
    var src := new Source([Data(c)]);
    s := new LineScanner(src, 1);
    OneByte(c);
    assert s.Pending() == [c];
    hide Prefix, FirstNewline, FirstLength, DropCR, Exact, Rest;
    ok := s.Scan();
  }

  lemma OneByte(c: Byte)
    requires c != NEWLINE && c != CR
    ensures Exact([c], 1) && DropCR([c][..FirstLength([c])]) == [c] && Prefix([Data(c)]) == [c]
  {
    assert FirstNewline([c]) < 0;
    assert [Data(c)][1..] == [];
    assert [c] + [] == [c];
  }
}
