/**
 * bufio.Reader over any source.
 *
 * Ahead is everything still to come: the buffered bytes, the error waiting behind them
 * and the rest of the source. Every operation is specified by what it takes off the front
 * of Ahead. How much a Read takes, and where the fragments of ReadLine end, depends on the
 * buffer and on how the source cuts the stream into reads; what is taken does not.
 */
module BufioReader {
  import opened Prelude
  import opened IoSource

  const MIN_BUFFER: nat := 16

  /** How an error given to the caller relates to the items taken: a source error is the item
      next in line, EOF may also mean that nothing is left, and ErrNoProgress is made up. */
  ghost predicate Told(err: Option<Error>, given: seq<Item>, ahead: seq<Item>) {
    match err
    case None => given == []
    case Some(e) => given == [Fault(e)] || (given == [] && (e.ErrNoProgress? || (e.EOF? && ahead == [])))
  }

  /** An operation took the bytes x and then the error items given off the front. */
  ghost predicate Took(before: seq<Item>, x: Bytes, given: seq<Item>, after: seq<Item>) {
    before == Datas(x) + given + after
  }

  lemma TookBytes(before: seq<Item>, x: Bytes, given: seq<Item>, after: seq<Item>)
    requires Took(before, x, given, after) && (forall i :: 0 <= i < |given| ==> given[i].Fault?)
    ensures BytesOf(before) == x + BytesOf(after)
  {
    hide Datas, BytesOf;
    BytesOfConcat(Datas(x) + given, after);
    BytesOfConcat(Datas(x), given);
    BytesOfDatas(x);
    NoBytes(given);
    assert x + [] == x;
  }

  lemma {:induction false} NoBytes(given: seq<Item>)
    requires forall i :: 0 <= i < |given| ==> given[i].Fault?
    ensures BytesOf(given) == []
  {
    if given != [] {
      NoBytes(given[1..]);
    }
  }

  class Reader {
    var buf: array<Byte>
    var rd: Source
    var r: nat
    var w: nat
    var err: Option<Error>
    var lastByte: int
    /** The source item behind err, if it came from the source. */
    ghost var pend: seq<Item>
    /** All bytes of the source, and those consumed so far. */
    ghost var origin: Bytes
    ghost var consumed: Bytes
    /** ReadLine has put a carriage return back since the last byte was consumed. */
    ghost var rewound: bool

    ghost predicate Valid()
      reads this, buf, rd
    {
      && r <= w <= buf.Length && MIN_BUFFER <= buf.Length
      && Proper(rd.rest) && Proper(pend)
      && Told(err, pend, rd.rest)
      && (err == Some(ErrNoProgress) ==> rd.stalled)
      && -1 <= lastByte < 256
      && (lastByte >= 0 && !rewound ==> consumed != [] && consumed[|consumed| - 1] == lastByte)
    }

    ghost function Ahead(): seq<Item>
      requires r <= w <= buf.Length
      reads this, buf, rd
    {
      Datas(buf[r..w]) + pend + rd.rest
    }

    /** Consumed bytes, then the bytes still to come, are the bytes of the source. */
    ghost predicate Intact()
      requires r <= w <= buf.Length
      reads this, buf, rd
    {
      origin == consumed + BytesOf(Ahead())
    }

    constructor (rd: Source, size: int)
      requires Proper(rd.rest)
      ensures Valid() && Intact() && fresh(buf) && this.rd == rd
      ensures buf.Length == if size > MIN_BUFFER then size else MIN_BUFFER
      ensures Ahead() == rd.rest && consumed == [] && lastByte == -1 && !rewound && origin == BytesOf(rd.rest)
    {
      this.rd := rd;
      this.buf := new Byte[if size > MIN_BUFFER then size else MIN_BUFFER];
      r, w, err, lastByte, pend, rewound := 0, 0, None, -1, [], false;
      consumed, origin := [], BytesOf(rd.rest);
      new;
      assert Ahead() == rd.rest;
    }

    /** copy(b.buf, b.buf[b.r:b.w]) */
    method Slide()
      requires r <= w <= buf.Length
      modifies this`r, this`w, buf
      ensures r == 0 && w == old(w - r) && buf[..w] == old(buf[r..w])
    {
      forall i | 0 <= i < w - r {
        buf[i] := buf[r + i];
      }
      r, w := 0, w - r;
    }

    /** One Read into the free part of the buffer. */
    method ReadMore() returns (n: nat, e: Option<Error>, ghost d: Bytes, ghost given: seq<Item>)
      requires w <= buf.Length && Proper(rd.rest)
      modifies this`w, buf, rd
      ensures old(rd.stalled) ==> rd.stalled
      ensures w == old(w) + n <= buf.Length && |d| == n
      ensures buf[..w] == old(buf[..w]) + d
      ensures Proper(rd.rest) && Proper(given) && Reports(e, given, rd.rest) && (e.Some? ==> Own(e.value))
      ensures old(rd.rest) == Datas(d) + given + rd.rest
      ensures rd.calls == old(rd.calls) + 1 && rd.idle == (if n == 0 && e.None? then old(rd.idle) + 1 else 0)
      ensures rd.stalled == (old(rd.stalled) || rd.idle >= MAX_EMPTY_READS)
    {
      ghost var held := buf[..w];
      n, e, given := rd.Read(buf, w, buf.Length);
      d := buf[w..w + n];
      assert buf[..w + n] == buf[..w] + d;
      w := w + n;
    }

    /** Make room and read until something arrives: bytes d, or an error standing for given. */
    method Fill() returns (ghost d: Bytes, ghost given: seq<Item>)
      requires Valid() && w - r < buf.Length
      modifies this`r, this`w, this`err, this`pend, buf, rd
      ensures old(rd.stalled) ==> rd.stalled
      ensures Valid() && r == 0 && buf[..w] == old(buf[r..w]) + d
      ensures old(rd.rest) == Datas(d) + given + rd.rest
      ensures (err == old(err) && pend == old(pend) && given == [] && d != []) || (err.Some? && pend == given)
    {
      hide Datas, BytesOf, Proper, Told, Reports;
      if r > 0 {
        Slide();
      } else {
        FrontSlice(buf[..], w);
      }
      ghost var held := buf[..w];
      var i := MAX_EMPTY_READS;
      while i > 0
        invariant Valid() && r == 0 && buf[..w] == held
        invariant rd.rest == old(rd.rest) && err == old(err) && pend == old(pend)
        invariant 0 <= i <= MAX_EMPTY_READS && rd.idle >= MAX_EMPTY_READS - i
        invariant (i == 0 || old(rd.stalled)) ==> rd.stalled
      {
        var n, e;
        n, e, d, given := ReadMore();
        ReadTold(e, old(rd.rest), d, given, rd.rest);
        if e.Some? {
          err, pend := e, given;
          return;
        }
        if n > 0 {
          StillTold(old(rd.rest), d, rd.rest, err, pend);
          return;
        }
        i := i - 1;
      }
      NoProgressTold(held, rd.rest);
      err, pend, d, given := Some(ErrNoProgress), [], [], [];
    }

    /** fill while no error is pending: what is ahead stays, and more of it is buffered. */
    method Refill()
      requires Valid() && w - r < buf.Length && err.None?
      modifies this`r, this`w, this`err, this`pend, buf, rd
      ensures old(rd.stalled) ==> rd.stalled
      ensures Valid() && r == 0 && Ahead() == old(Ahead())
      ensures old(buf[r..w]) <= buf[..w]
      ensures w > old(w - r) || err.Some?
      ensures |rd.rest| <= |old(rd.rest)|
    {
      ghost var held, before := buf[r..w], rd.rest;
      var d, given := Fill();
      FilledAhead(held, d, given, before, rd.rest);
      assert buf[r..w] == buf[..w];
    }

    /** readErr: hand out the pending error and forget it. */
    method ReadErr() returns (e: Option<Error>, ghost given: seq<Item>)
      requires Valid()
      modifies this`err, this`pend
      ensures Valid() && err.None? && pend == [] && e == old(err) && given == old(pend)
      ensures e == Some(ErrNoProgress) ==> rd.stalled
    {
      e, given := err, pend;
      err, pend := None, [];
    }

    /** b.r += k, remembering the last byte taken or forgetting it. */
    method Consume(k: nat, remember: bool) returns (x: Bytes)
      requires Valid() && k <= w - r && (remember ==> k > 0)
      modifies this`r, this`consumed, this`lastByte, this`rewound
      ensures Valid() && (old(Intact()) ==> Intact())
      ensures r == old(r) + k && x == buf[old(r)..r] && Took(old(Ahead()), x, [], Ahead())
      ensures consumed == old(consumed) + x
      ensures lastByte == if remember then x[k - 1] as int else -1
      ensures !rewound
    {
      hide Datas, BytesOf, Proper, Told, Took;
      TakeSlice(buf[..], r, k, w, pend, rd.rest);
      x := buf[r..r + k];
      LastTaken(consumed, x);
      ghost var before := Ahead();
      r := r + k;
      consumed := consumed + x;
      lastByte := if remember then buf[r - 1] as int else -1;
      rewound := false;
      TookIntact(origin, old(consumed), before, x, [], Ahead());
    }

    /** readErr with an empty buffer: the pending error is next in line. */
    method TakeErr() returns (e: Option<Error>, ghost given: seq<Item>)
      requires Valid() && r == w
      modifies this`err, this`pend
      ensures Valid() && (old(Intact()) ==> Intact())
      ensures err.None? && e == old(err) && Took(old(Ahead()), [], given, Ahead()) && Told(e, given, Ahead())
      ensures given == old(pend) && Ahead() == rd.rest
      ensures e == Some(ErrNoProgress) ==> rd.stalled
    {
      ghost var before := Ahead();
      e, given := ReadErr();
      assert Ahead() == rd.rest;
      assert before == given + rd.rest;
      TookNothing(before, given, Ahead());
    }

    method Peek(n: int) returns (out: Bytes, e: Option<Error>, ghost given: seq<Item>)
      requires Valid()
      modifies this`r, this`w, this`err, this`pend, this`lastByte, buf, rd
      ensures old(rd.stalled) ==> rd.stalled
      ensures Valid() && (old(Intact()) ==> Intact())
      ensures n < 0 ==> e == Some(ErrNegativeCount) && out == []
      ensures n > buf.Length ==> e == Some(ErrBufferFull)
      ensures n < 0 || n > buf.Length || e.None? ==> Ahead() == old(Ahead()) && given == []
      ensures e.None? ==> |out| == n
      ensures 0 <= n <= buf.Length && e.Some? ==> |out| < n && Told(e, given, rd.rest) && out == buf[r..w] && pend == []
      ensures 0 <= n <= buf.Length && e.Some? ==> old(Ahead()) == Datas(out) + given + rd.rest
      ensures |out| <= w - r && out == buf[r..r + |out|]
      ensures lastByte == if n < 0 then old(lastByte) else -1
      ensures e == Some(ErrNoProgress) ==> rd.stalled
    {
      hide Datas, BytesOf, Proper, Told;
      given := [];
      if n < 0 {
        return [], Some(ErrNegativeCount), [];
      }
      lastByte := -1;
      while w - r < n && w - r < buf.Length && err.None?
        invariant old(rd.stalled) ==> rd.stalled
        invariant Valid() && Ahead() == old(Ahead()) && lastByte == -1
        decreases err.None?, buf.Length - (w - r)
      {
        Refill();
      }
      if n > buf.Length {
        return buf[r..w], Some(ErrBufferFull), [];
      }
      if w - r < n {
        out := buf[r..w];
        PendFaults(err, pend, rd.rest);
        PeekedBytes(out, pend, rd.rest);
        e, given := ReadErr();
        return;
      }
      return buf[r..r + n], None, [];
    }

    method ReadByte() returns (c: Byte, e: Option<Error>, ghost given: seq<Item>)
      requires Valid()
      modifies this`r, this`w, this`err, this`pend, this`consumed, this`lastByte, this`rewound, buf, rd
      ensures old(rd.stalled) ==> rd.stalled
      ensures Valid() && (old(Intact()) ==> Intact())
      ensures e.None? ==> Took(old(Ahead()), [c], [], Ahead()) && consumed == old(consumed) + [c]
      ensures e.Some? ==> Took(old(Ahead()), [], given, Ahead()) && consumed == old(consumed) && Told(e, given, Ahead())
      ensures e.Some? ==> r == w && lastByte == old(lastByte) && rewound == old(rewound)
      ensures e.None? ==> lastByte == c && !rewound
      ensures e == Some(ErrNoProgress) ==> rd.stalled
    {
      hide Datas, BytesOf, Proper, Told, Took;
      given := [];
      while r == w
        invariant old(rd.stalled) ==> rd.stalled
        invariant Valid() && Ahead() == old(Ahead()) && consumed == old(consumed)
        invariant lastByte == old(lastByte) && rewound == old(rewound)
        decreases err.None?, r == w
      {
        if err.Some? {
          e, given := TakeErr();
          c := 0;
          return;
        }
        Refill();
      }
      c, e := buf[r], None;
      var x := Consume(1, true);
      assert x == [c];
    }

    /** fill, also when an error is already pending: the bytes ahead stay the same, but they
        overtake that error, or replace it. */
    method FillAny() returns (ghost given: seq<Item>)
      requires Valid() && r == w
      modifies this`r, this`w, this`err, this`pend, buf, rd
      ensures old(rd.stalled) ==> rd.stalled
      ensures Valid() && BytesOf(Ahead()) == old(BytesOf(Ahead()))
      ensures old(pend) == [] ==> Ahead() == old(Ahead())
      ensures r < w || err.Some?
      ensures old(rd.rest) == Datas(buf[r..w]) + given + rd.rest
      ensures (err == old(err) && pend == old(pend) && given == [] && r < w) || (err.Some? && pend == given)
    {
      hide Proper, Told;
      PendFaults(err, pend, rd.rest);
      ghost var before, waiting := rd.rest, pend;
      assert buf[r..w] == [];
      ghost var d;
      d, given := Fill();
      PendFaults(err, pend, rd.rest);
      FilledAhead([], d, given, before, rd.rest);
      assert [] + d == d && buf[r..w] == d;
      FilledBytes(d, waiting, given, pend, before, rd.rest);
    }

    method Discard(n: int) returns (k: nat, e: Option<Error>, ghost x: Bytes, ghost given: seq<Item>)
      requires Valid()
      modifies this`r, this`w, this`err, this`pend, this`consumed, this`lastByte, this`rewound, buf, rd
      ensures old(rd.stalled) ==> rd.stalled
      ensures Valid() && (old(Intact()) ==> Intact())
      ensures consumed == old(consumed) + x && |x| == k
      ensures n <= 0 ==> k == 0 && e == if n < 0 then Some(ErrNegativeCount) else None
      ensures n <= 0 ==> Ahead() == old(Ahead()) && lastByte == old(lastByte) && rewound == old(rewound)
      ensures n > 0 ==> lastByte == -1 && !rewound
      ensures n >= 0 && e.None? ==> k == n
      ensures n >= 0 && e.Some? ==> k < n && r == w
      ensures old(BytesOf(Ahead())) == x + BytesOf(Ahead())
      ensures n >= 0 ==> Told(e, given, Ahead())
      ensures e == Some(ErrNoProgress) ==> rd.stalled
      ensures n > 0 ==> (Took(old(Ahead()), x, given, Ahead()) <==> old(r) < old(w) || old(pend) == [])
      ensures n > 0 && old(r) == old(w) && old(pend) != [] ==>
                Overtaken(old(pend), old(rd.rest), x, given, Ahead())
    {
      hide Datas, BytesOf, Proper, Told, Took, Overtaken;
      x, given := [], [];
      StartTook(Ahead());
      if n < 0 {
        return 0, Some(ErrNegativeCount), x, given;
      }
      if n == 0 {
        ToldNone(Ahead());
        return 0, None, x, given;
      }
      ghost var clean := r < w || pend == [];
      ghost var y := [];
      k := 0;
      while true
        invariant old(rd.stalled) ==> rd.stalled
        invariant Valid() && (old(Intact()) ==> Intact())
        invariant k == |x| < n && consumed == old(consumed) + x
        invariant old(BytesOf(Ahead())) == x + BytesOf(Ahead())
        invariant clean ==> Took(old(Ahead()), x, [], Ahead()) && (r < w || pend == [])
        invariant !clean ==> x == [] && r == w && pend == old(pend) && rd.rest == old(rd.rest)
        invariant !clean ==> Ahead() == old(Ahead())
        decreases n - k
      {
        ghost var before := Ahead();
        var skip, done;
        skip, done, e, y, given := Round(n - k);
        Onward(old(Ahead()), x, before, y, given, Ahead());
        x, k := x + y, k + skip;
        if done {
          return;
        }
      }
    }

    /** The body of Discard's loop: skip, then stop if enough was skipped or an error waits. */
    method Round(left: nat) returns (skip: nat, done: bool, e: Option<Error>, ghost y: Bytes, ghost given: seq<Item>)
      requires Valid() && left > 0
      modifies this`r, this`w, this`err, this`pend, this`consumed, this`lastByte, this`rewound, buf, rd
      ensures old(rd.stalled) ==> rd.stalled
      ensures Valid() && (old(Intact()) ==> Intact())
      ensures skip == |y| <= left && consumed == old(consumed) + y && lastByte == -1 && !rewound
      ensures !done ==> 0 < skip < left && given == [] && pend == []
      ensures e == Some(ErrNoProgress) ==> rd.stalled
      ensures done ==> (if e.None? then skip == left else skip < left && r == w) && Told(e, given, Ahead())
      ensures old(BytesOf(Ahead())) == y + BytesOf(Ahead())
      ensures old(r) < old(w) || old(pend) == [] ==> Took(old(Ahead()), y, given, Ahead())
      ensures old(r) == old(w) && old(pend) != [] ==>
                done && !Took(old(Ahead()), y, given, Ahead()) && Overtaken(old(pend), old(rd.rest), y, given, Ahead())
    {
      hide Datas, BytesOf, Proper, Told, Took, Overtaken;
      ghost var past, behind := r == w && pend != [], [];
      PendFaults(err, pend, rd.rest);
      skip, y, behind := Skip(left);
      given := [];
      if skip == left {
        if past {
          PassedOn(old(pend), old(rd.rest), y, buf[r..w], behind, pend, rd.rest);
          NotTaken(old(Ahead()), old(pend), old(rd.rest), y, [], Ahead());
        }
        ToldNone(Ahead());
        return skip, true, None, y, given;
      }
      if err.Some? {
        ghost var mid, waiting := Ahead(), pend;
        e, given := TakeErr();
        TookOn(old(Ahead()), y, mid, e, given, Ahead());
        if past {
          PassedBy(old(pend), old(rd.rest), y, behind, waiting, rd.rest);
          NotTaken(old(Ahead()), old(pend), old(rd.rest), y, given, Ahead());
        }
        return skip, true, e, y, given;
      }
      PendFaults(err, pend, rd.rest);
      return skip, false, None, y, given;
    }

    /** One round of Discard: skip what is buffered, up to remain, filling an empty buffer. */
    method Skip(remain: nat) returns (skip: nat, ghost y: Bytes, ghost given: seq<Item>)
      requires Valid() && remain > 0
      modifies this`r, this`w, this`err, this`pend, this`consumed, this`lastByte, this`rewound, buf, rd
      ensures old(rd.stalled) ==> rd.stalled
      ensures Valid() && (old(Intact()) ==> Intact())
      ensures skip == |y| <= remain && consumed == old(consumed) + y && lastByte == -1 && !rewound
      ensures old(BytesOf(Ahead())) == y + BytesOf(Ahead())
      ensures old(r) < old(w) || old(pend) == [] ==> Took(old(Ahead()), y, [], Ahead())
      ensures skip < remain ==> r == w && (skip > 0 || err.Some?)
      ensures old(r) == old(w) ==> old(rd.rest) == Datas(y + buf[r..w]) + given + rd.rest
      ensures old(r) == old(w) ==> (pend == old(pend) && given == [] && y != []) || (err.Some? && pend == given)
      ensures old(r) == old(w) && old(err).Some? ==> err.Some?
    {
      hide Datas, BytesOf, Proper, Told, Took;
      given := [];
      if r == w {
        given := FillAny();
      }
      skip, y := SkipHeld(remain);
    }

    /** Skip what is buffered, up to remain. */
    method SkipHeld(remain: nat) returns (skip: nat, ghost y: Bytes)
      requires Valid() && remain > 0
      modifies this`r, this`consumed, this`lastByte, this`rewound
      ensures Valid() && (old(Intact()) ==> Intact())
      ensures skip == |y| <= remain && consumed == old(consumed) + y && lastByte == -1 && !rewound
      ensures Took(old(Ahead()), y, [], Ahead()) && old(BytesOf(Ahead())) == y + BytesOf(Ahead())
      ensures old(buf[r..w]) == y + buf[r..w]
      ensures skip < remain ==> r == w
      ensures skip == 0 <==> old(r) == old(w)
    {
      hide Datas, BytesOf, Proper, Told, Took;
      skip := if w - r > remain then remain else w - r;
      ghost var before := Ahead();
      SplitSlice(buf[..], r, skip, w);
      y := Consume(skip, false);
      TookBytes(before, y, [], Ahead());
    }

    /** Unread the last byte: put lastByte in front of what is ahead. */
    method UnreadByte() returns (e: Option<Error>)
      requires Valid()
      modifies this`r, this`w, this`consumed, this`lastByte, buf
      ensures Valid()
      ensures e.Some? <==> old(lastByte) < 0 || (old(r) == 0 && old(w) > 0)
      ensures e.Some? ==> e == Some(ErrInvalidUnreadByte) && Ahead() == old(Ahead()) && consumed == old(consumed)
      ensures e.Some? ==> lastByte == old(lastByte)
      ensures e.None? ==> Ahead() == Datas([old(lastByte) as Byte]) + old(Ahead()) && lastByte == -1
      ensures e.None? ==> consumed == DropLast(old(consumed))
      ensures e.None? && !old(rewound) ==> old(consumed) == consumed + [old(lastByte) as Byte]
      ensures old(Intact()) ==>
                (Intact() <==> (e.None? ==> old(consumed) != [] && old(consumed)[|old(consumed)| - 1] == old(lastByte)))
      ensures old(Intact()) && !old(rewound) ==> Intact()
    {
      hide Proper, Told, BytesOf;
      if lastByte < 0 || (r == 0 && w > 0) {
        return Some(ErrInvalidUnreadByte);
      }
      var c: Byte := lastByte;
      ghost var held, before := buf[r..w], Ahead();
      if r > 0 {
        r := r - 1;
      } else {
        w := 1;
      }
      buf[r] := c;
      lastByte, e := -1, None;
      assert buf[r..w] == [c] + held;
      DatasConcat([c], held);
      assert Ahead() == Datas([c]) + before;
      consumed := DropLast(consumed);
      Unread(origin, old(consumed), c, before);
    }

    method Read(p: array<Byte>) returns (n: nat, e: Option<Error>, ghost given: seq<Item>)
      requires Valid() && p != buf
      modifies this`r, this`w, this`err, this`pend, this`consumed, this`lastByte, this`rewound, buf, rd, p
      ensures old(rd.stalled) ==> rd.stalled
      ensures Valid() && (old(Intact()) ==> Intact())
      ensures n <= p.Length && Took(old(Ahead()), p[..n], given, Ahead()) && Told(e, given, Ahead())
      ensures consumed == old(consumed) + p[..n]
      ensures n > 0 ==> lastByte == p[n - 1] && !rewound
      ensures n == 0 ==> lastByte == old(lastByte) && rewound == old(rewound)
      ensures e.Some? ==> r == w
      ensures e == Some(ErrNoProgress) ==> rd.stalled
      ensures p.Length > 0 && n == 0 && e.None? ==> rd.calls == old(rd.calls) + 1 && rd.idle > 0
      ensures p.Length > 0 && old(r) < old(w) ==> e.None? && n == if p.Length < old(w - r) then p.Length else old(w - r)
      ensures old(r) == old(w) && old(err).Some? ==> n == 0 && e == old(err)
    {
      hide Datas, BytesOf, Proper, Told, Took;
      given := [];
      assert p[..0] == [];
      StartTook(Ahead());
      ToldNone(Ahead());
      if p.Length == 0 {
        n, e := 0, None;
        if r == w {
          e, given := TakeErr();
        }
        return;
      }
      if r == w {
        if err.Some? {
          n := 0;
          e, given := TakeErr();
          return;
        }
        if p.Length >= buf.Length {
          n, e, given := ReadDirect(p);
          return;
        }
        n := ReadOnce();
        if n == 0 {
          e, given := TakeErr();
          return;
        }
      }
      n := CopyOut(p);
      e := None;
      ToldNone(Ahead());
    }

    /** copy(p, b.buf[b.r:b.w]) and consume what was copied. */
    method CopyOut(p: array<Byte>) returns (n: nat)
      requires Valid() && p != buf && p.Length > 0 && r < w
      modifies this`r, this`consumed, this`lastByte, this`rewound, p
      ensures Valid() && (old(Intact()) ==> Intact())
      ensures 0 < n <= p.Length && Took(old(Ahead()), p[..n], [], Ahead())
      ensures n == if p.Length < w - old(r) then p.Length else w - old(r)
      ensures consumed == old(consumed) + p[..n] && lastByte == p[n - 1] && !rewound
    {
      hide Datas, BytesOf, Proper, Told, Took;
      n := if p.Length < w - r then p.Length else w - r;
      forall i | 0 <= i < n {
        p[i] := buf[r + i];
      }
      assert p[..n] == buf[r..r + n];
      var x := Consume(n, true);
    }

    /** A large read into an empty buffer goes straight to the caller. */
    method ReadDirect(p: array<Byte>) returns (n: nat, e: Option<Error>, ghost given: seq<Item>)
      requires Valid() && p != buf && r == w && err.None?
      modifies this`consumed, this`lastByte, this`rewound, rd, p
      ensures old(rd.stalled) ==> rd.stalled
      ensures Valid() && (old(Intact()) ==> Intact())
      ensures n <= p.Length && Took(old(Ahead()), p[..n], given, Ahead()) && Told(e, given, Ahead())
      ensures consumed == old(consumed) + p[..n]
      ensures n > 0 ==> lastByte == p[n - 1] && !rewound
      ensures n == 0 ==> lastByte == old(lastByte) && rewound == old(rewound)
      ensures e != Some(ErrNoProgress)
      ensures n == 0 && e.None? ==> rd.calls == old(rd.calls) + 1 && rd.idle > 0
    {
      hide Datas, BytesOf, Proper;
      ghost var before := Ahead();
      EmptyAhead(buf[r..w], pend, rd.rest);
      n, e, given := rd.Read(p, 0, p.Length);
      EmptyAhead(buf[r..w], pend, rd.rest);
      assert p[0..0 + n] == p[..n];
      if n > 0 {
        lastByte, rewound := p[n - 1], false;
      } else {
        assert p[..0] == [];
      }
      consumed := consumed + p[..n];
      GivenFaults(e, given, Ahead());
      TookIntact(origin, old(consumed), before, p[..n], given, Ahead());
    }

    /** One Read into an empty buffer, keeping the error for later. */
    method ReadOnce() returns (n: nat)
      requires Valid() && r == w && err.None?
      modifies this`r, this`w, this`err, this`pend, buf, rd
      ensures old(rd.stalled) ==> rd.stalled
      ensures Valid() && Ahead() == old(Ahead()) && r == 0 && n == w
      ensures n == 0 && err.None? ==> rd.calls == old(rd.calls) + 1 && rd.idle > 0
    {
      hide Datas, BytesOf;
      EmptyAhead(buf[r..w], pend, rd.rest);
      r, w := 0, 0;
      ghost var d;
      n, err, d, pend := ReadMore();
      assert buf[r..w] == d;
    }

    method ReadSlice(delim: Byte) returns (line: Bytes, e: Option<Error>, ghost given: seq<Item>)
      requires Valid()
      modifies this`r, this`w, this`err, this`pend, this`consumed, this`lastByte, this`rewound, buf, rd
      ensures old(rd.stalled) ==> rd.stalled
      ensures Valid() && (old(Intact()) ==> Intact())
      ensures Sliced(old(Ahead()), old(consumed), old(lastByte), old(rewound), delim, line, e, given)
      ensures old(err).Some? ==> rd.rest == old(rd.rest) && e != Some(ErrBufferFull)
      ensures old(w - r) == buf.Length && old(err).None? && Without(old(buf[r..w]), delim) ==> e == Some(ErrBufferFull)
    {
      hide Datas, BytesOf, Proper, Told, Took, EndsFirst, Without, Ahead, Sliced;
      var s := 0;
      given := [];
      NoneWithout(buf[..], r, delim);
      ghost var full := w - r == buf.Length && err.None? && Without(buf[r..w], delim);
      while true
        invariant old(rd.stalled) ==> rd.stalled
        invariant Valid() && Ahead() == old(Ahead()) && consumed == old(consumed)
        invariant lastByte == old(lastByte) && rewound == old(rewound)
        invariant 0 <= s <= w - r && Without(buf[r..r + s], delim)
        invariant full ==> w - r == buf.Length && err.None? && Without(buf[r..w], delim)
        invariant old(err).Some? ==> err.Some? && rd.rest == old(rd.rest)
        decreases err.None?, buf.Length - (w - r)
      {
        var i := Search(delim, s);
        if i >= 0 {
          line := TakeLine(i + 1, delim);
          return line, None, [];
        }
        s := w - r;
        var stop;
        stop, line, e, given := NotFound(delim);
        if stop {
          return;
        }
      }
    }

    /** What a slice taken off the front of before says: it ends in the first delimiter, or
        fills the buffer, or is everything before the error reported with it. */
    ghost predicate Sliced(before: seq<Item>, had: Bytes, last: int, again: bool, delim: Byte,
                           line: Bytes, e: Option<Error>, given: seq<Item>)
      requires r <= w <= buf.Length
      reads this, buf, rd
    {
      && Took(before, line, given, Ahead()) && consumed == had + line
      && (if line == [] then lastByte == last && rewound == again else lastByte == line[|line| - 1] && !rewound)
      && (e == Some(ErrNoProgress) ==> rd.stalled)
      && match e
         case None => given == [] && EndsFirst(line, delim)
         case Some(ErrBufferFull) =>
           given == [] && Without(line, delim) && line == buf[..] && r == w == buf.Length && err.None?
         case Some(_) => Without(line, delim) && Told(e, given, Ahead()) && r == w && err.None?
    }

    /** Hand out the bytes up to the delimiter. */
    method TakeLine(k: nat, delim: Byte) returns (line: Bytes)
      requires Valid() && 0 < k <= w - r && EndsFirst(buf[r..r + k], delim)
      modifies this`r, this`consumed, this`lastByte, this`rewound
      ensures Valid() && (old(Intact()) ==> Intact())
      ensures Sliced(old(Ahead()), old(consumed), old(lastByte), old(rewound), delim, line, None, [])
    {
      hide Datas, BytesOf, Proper, Told, Took, EndsFirst;
      line := Consume(k, true);
    }

    /** No delimiter in the buffer: hand out what there is, or read on. */
    method NotFound(delim: Byte) returns (stop: bool, line: Bytes, e: Option<Error>, ghost given: seq<Item>)
      requires Valid() && Without(buf[r..w], delim)
      modifies this`r, this`w, this`err, this`pend, this`consumed, this`lastByte, this`rewound, buf, rd
      ensures old(rd.stalled) ==> rd.stalled
      ensures Valid() && (old(Intact()) ==> Intact())
      ensures stop ==> Sliced(old(Ahead()), old(consumed), old(lastByte), old(rewound), delim, line, e, given)
      ensures stop ==> rd.rest == old(rd.rest) && e.Some? && (e == Some(ErrBufferFull) <==> old(err).None?)
      ensures !stop ==> lastByte == old(lastByte) && rewound == old(rewound) && old(w - r) < buf.Length
      ensures !stop ==> Ahead() == old(Ahead()) && consumed == old(consumed)
      ensures !stop ==> w - r >= old(w - r) && Without(buf[r..r + old(w - r)], delim)
      ensures !stop ==> old(err).None? && (w - r > old(w - r) || err.Some?)
    {
      hide Datas, BytesOf, Proper, Told, Took, Without, Ahead;
      stop, given := true, [];
      if err.Some? {
        line, e, given := DrainErr();
        return;
      }
      if w - r >= buf.Length {
        line := TakeFull();
        e := Some(ErrBufferFull);
        return;
      }
      MoreBehind(delim);
      stop, line, e := false, [], None;
    }

    /** A buffer full of bytes without the delimiter is handed out whole. */
    method TakeFull() returns (line: Bytes)
      requires Valid() && w - r == buf.Length
      modifies this`r, this`consumed, this`lastByte, this`rewound
      ensures Valid() && (old(Intact()) ==> Intact())
      ensures line == buf[..] == old(buf[r..w]) && r == w == buf.Length
      ensures Took(old(Ahead()), line, [], Ahead()) && consumed == old(consumed) + line
      ensures lastByte == line[|line| - 1] && !rewound
    {
      hide Datas, BytesOf, Proper, Told, Took;
      WholeSlice(buf[..]);
      line := Consume(w - r, true);
    }

    /** fill behind bytes that do not contain delim. */
    method MoreBehind(delim: Byte)
      requires Valid() && w - r < buf.Length && err.None? && Without(buf[r..w], delim)
      modifies this`r, this`w, this`err, this`pend, buf, rd
      ensures old(rd.stalled) ==> rd.stalled
      ensures Valid() && Ahead() == old(Ahead())
      ensures w - r >= old(w - r) && Without(buf[r..r + old(w - r)], delim)
      ensures w - r > old(w - r) || err.Some?
    {
      hide Datas, BytesOf, Proper, Told, Without;
      ghost var held := buf[r..w];
      Refill();
      StillFirst(buf[..], held, w);
    }

    /** Look for delim in the buffer, skipping s bytes already searched. */
    method Search(delim: Byte, s: nat) returns (i: int)
      requires r + s <= w <= buf.Length && Without(buf[r..r + s], delim)
      ensures -1 <= i < w - r
      ensures i < 0 <==> Without(buf[r..w], delim)
      ensures i >= 0 ==> EndsFirst(buf[r..r + i + 1], delim)
    {
      hide Without, EndsFirst;
      i := IndexByte(buf[r + s..w], delim);
      FoundFirst(buf[..], r, s, w, i, delim);
      if i >= 0 {
        i := i + s;
      }
    }

    /** Hand out everything buffered together with the pending error. */
    method DrainErr() returns (line: Bytes, e: Option<Error>, ghost given: seq<Item>)
      requires Valid() && err.Some?
      modifies this`r, this`err, this`pend, this`consumed, this`lastByte, this`rewound
      ensures Valid() && (old(Intact()) ==> Intact())
      ensures line == old(buf[r..w]) && consumed == old(consumed) + line
      ensures Took(old(Ahead()), line, given, Ahead()) && Told(e, given, Ahead())
      ensures e.Some? && !e.value.ErrBufferFull? && r == w && err.None?
      ensures e == Some(ErrNoProgress) ==> rd.stalled
      ensures line != [] ==> lastByte == line[|line| - 1] && !rewound
      ensures line == [] ==> lastByte == old(lastByte) && rewound == old(rewound)
    {
      hide Datas, BytesOf, Took;
      assert pend != [] ==> Own(pend[0].e);
      hide Told, Proper;
      line := buf[r..w];
      if r < w {
        var x := Consume(w - r, true);
      } else {
        StartTook(Ahead());
        assert consumed == consumed + line;
      }
      ghost var mid := Ahead();
      e, given := TakeErr();
      TookTook(old(Ahead()), line, mid, [], given, Ahead());
      assert line + [] == line;
    }

    method ReadLine() returns (line: Bytes, isPrefix: bool, e: Option<Error>,
                               ghost raw: Bytes, ghost cause: Option<Error>, ghost given: seq<Item>)
      requires Valid()
      modifies this`r, this`w, this`err, this`pend, this`consumed, this`lastByte, this`rewound, buf, rd
      ensures old(rd.stalled) ==> rd.stalled
      ensures Valid() && (old(Intact()) ==> Intact())
      ensures Took(old(Ahead()), raw, given, Ahead()) && consumed == old(consumed) + raw
      ensures isPrefix ==> e.None? && given == [] && raw == line && line != [] && NEWLINE !in line
      ensures isPrefix && line[|line| - 1] == CR ==> Ahead() != [] && Ahead()[0] == Data(CR)
      ensures isPrefix ==>
                |line| <= buf.Length && r > 0 && lastByte == if |line| == buf.Length then line[|line| - 1] else CR
      ensures !isPrefix && cause.None? ==> e.None? && given == [] && EndsFirst(raw, NEWLINE) && line == DropEol(raw)
      ensures isPrefix ==> old(err).None? && err.None?
      ensures isPrefix && |line| < buf.Length ==>
                |line| == buf.Length - 1 && Ahead() != [] && Ahead()[0] == Data(CR)
      ensures !isPrefix && cause.Some? ==> NEWLINE !in raw && line == raw && Told(cause, given, Ahead())
      ensures !isPrefix && cause.Some? ==> r == w && err.None?
      ensures !isPrefix && cause == Some(ErrNoProgress) ==> rd.stalled
      ensures old(w - r) == buf.Length && old(err).None? && Without(old(buf[r..w]), NEWLINE) ==> isPrefix
      ensures old(err).Some? ==> rd.rest == old(rd.rest)
      ensures !isPrefix && cause.Some? ==> e == if raw == [] then cause else None
    {
      hide Datas, BytesOf, Proper, Told, Took;
      line, e, given := ReadSlice(NEWLINE);
      raw, cause, isPrefix := line, e, false;
      if e == Some(ErrBufferFull) {
        e, isPrefix := None, true;
        if line[|line| - 1] == CR {
          Rewind(old(Ahead()), line, old(consumed));
          line := line[..|line| - 1];
          raw := line;
        }
        return;
      }
      if |line| == 0 {
        return;
      }
      e := None;
      if line[|line| - 1] == NEWLINE {
        var drop := 1;
        if |line| > 1 && line[|line| - 2] == CR {
          drop := 2;
        }
        line := line[..|line| - drop];
      }
    }

    /** Put a carriage return that filled the buffer back, for the next call to look at. */
    method Rewind(ghost before: seq<Item>, ghost line: Bytes, ghost had: Bytes)
      requires Valid() && r == w == buf.Length && line == buf[..] && line[|line| - 1] == CR
      requires Took(before, line, [], Ahead()) && consumed == had + line
      modifies this`r, this`consumed, this`rewound
      ensures Valid() && (old(Intact()) ==> Intact()) && consumed == had + line[..|line| - 1] && r == old(r) - 1
      ensures Took(before, line[..|line| - 1], [], Ahead()) && Ahead() != [] && Ahead()[0] == Data(CR)
    {
      hide BytesOf, Proper, Told;
      assert r > 0;  // otherwise the code would panic
      ghost var after := Ahead();
      assert buf[r..w] == [];
      r := r - 1;
      rewound := true;
      assert buf[r..w] == [CR];
      assert Ahead() == Datas([CR]) + after;
      assert line == line[..|line| - 1] + [CR];
      DatasConcat(line[..|line| - 1], [CR]);
      Unread(origin, consumed, CR, after);
      assert DropLast(consumed) == had + line[..|line| - 1];
      consumed := DropLast(consumed);
    }
  }

  predicate Without(s: Bytes, c: Byte) { c !in s }

  /** The bytes end in the first delim among them. */
  predicate EndsFirst(s: Bytes, delim: Byte) {
    s != [] && s[|s| - 1] == delim && Without(s[..|s| - 1], delim)
  }

  /** A line without its newline and without one carriage return before it. */
  function DropEol(raw: Bytes): Bytes
    requires raw != []
  {
    if |raw| > 1 && raw[|raw| - 2] == CR then raw[..|raw| - 2] else raw[..|raw| - 1]
  }

  /** bytes.IndexByte */
  method IndexByte(s: Bytes, c: Byte) returns (i: int)
    ensures -1 <= i < |s|
    ensures i >= 0 ==> s[i] == c && Without(s[..i], c)
    ensures i < 0 ==> Without(s, c)
  {
    for k := 0 to |s|
      invariant Without(s[..k], c)
    {
      if s[k] == c {
        return k;
      }
    }
    return -1;
  }

  /** What a search from s bytes on says about all of the slice. */
  lemma FoundFirst(a: Bytes, r: nat, s: nat, w: nat, i: int, delim: Byte)
    requires r + s <= w <= |a| && -1 <= i < w - r - s && Without(a[r..r + s], delim)
    requires i >= 0 ==> a[r + s..w][i] == delim && Without(a[r + s..w][..i], delim)
    requires i < 0 ==> Without(a[r + s..w], delim)
    ensures i < 0 <==> Without(a[r..w], delim)
    ensures i >= 0 ==> EndsFirst(a[r..r + (i + s) + 1], delim)
  {
    if i >= 0 {
      assert a[r..w][s + i] == a[r + s..w][i];
      assert delim in a[r..w];
    }
    hide Without, EndsFirst;
    if i < 0 {
      SplitSlice(a, r, s, w);
      WithoutBoth(a[r..r + s], a[r + s..w], delim);
    } else {
      var line := a[r..r + (i + s) + 1];
      SplitSlice(a, r, s, r + s + i);
      assert a[r + s..w][..i] == a[r + s..r + s + i];
      WithoutBoth(a[r..r + s], a[r + s..r + s + i], delim);
      assert line[..|line| - 1] == a[r..r + s + i];
      EndsFirstIntro(line, delim);
    }
  }

  lemma WithoutBoth(a: Bytes, b: Bytes, c: Byte)
    requires Without(a, c) && Without(b, c)
    ensures Without(a + b, c)
  {
  }

  lemma EndsFirstIntro(s: Bytes, delim: Byte)
    requires s != [] && s[|s| - 1] == delim && Without(s[..|s| - 1], delim)
    ensures EndsFirst(s, delim)
  {
  }

  lemma NoneWithout(a: Bytes, r: nat, c: Byte)
    requires r <= |a|
    ensures Without(a[r..r + 0], c)
  {
  }

  lemma WholeSlice(a: Bytes)
    ensures a[0..|a|] == a
  {
  }

  /** Bytes kept at the front of the buffer. */
  lemma StillFirst(a: Bytes, held: Bytes, w: nat)
    requires w <= |a| && held <= a[..w]
    ensures |held| <= w && a[0..0 + |held|] == held
  {
  }

  function DropLast(s: Bytes): Bytes { if s == [] then [] else s[..|s| - 1] }

  lemma Unread(origin: Bytes, consumed: Bytes, c: Byte, before: seq<Item>)
    ensures origin == consumed + BytesOf(before) ==>
              (origin == DropLast(consumed) + BytesOf(Datas([c]) + before) <==>
               consumed != [] && consumed[|consumed| - 1] == c)
  {
    BytesOfConcat(Datas([c]), before);
    BytesOfDatas([c]);
    hide BytesOf, Datas;
    var b := BytesOf(before);
    if consumed != [] {
      var k := |consumed| - 1;
      assert (consumed + b)[k] == consumed[k];
      assert (DropLast(consumed) + ([c] + b))[k] == c;
      assert consumed == DropLast(consumed) + [consumed[k]];
      if consumed[k] == c {
        assert DropLast(consumed) + ([c] + b) == consumed + b;
      }
    } else {
      assert |DropLast(consumed) + ([c] + b)| == |b| + 1;
    }
  }

  /** What becomes of an error that was next in line when the code reads on regardless: with
      the bytes x taken from behind it, it is lost, or, if there are such bytes, it is handed
      out after them or still lies ahead with more bytes from behind it in front. */
  ghost predicate Overtaken(error: seq<Item>, behind: seq<Item>, x: Bytes, given: seq<Item>, after: seq<Item>) {
    || behind == Datas(x) + given + after
    || (x != [] && given == error && behind == Datas(x) + after)
    || (x != [] && given == [] && exists y: Bytes, rest: seq<Item> {:trigger Datas(y) + error + rest} ::
          after == Datas(y) + error + rest && behind == Datas(x + y) + rest)
  }

  /** The error lies ahead still, or has been replaced. */
  lemma PassedOn(error: seq<Item>, behind: seq<Item>, x: Bytes, held: Bytes, given: seq<Item>, pend: seq<Item>,
      rest: seq<Item>)
    requires behind == Datas(x + held) + given + rest && ((pend == error && given == [] && x != []) || pend == given)
    ensures Overtaken(error, behind, x, [], Datas(held) + pend + rest)
  {
    DatasConcat(x, held);
    hide Datas;
    if pend == given {
      assert behind == Datas(x) + [] + (Datas(held) + pend + rest);
    } else {
      assert Datas(held) + pend + rest == Datas(held) + error + rest;
      assert behind == Datas(x + held) + rest;
    }
  }

  /** The error has been handed out late, or another one in its place. */
  lemma PassedBy(error: seq<Item>, behind: seq<Item>, x: Bytes, given: seq<Item>, pend: seq<Item>, rest: seq<Item>)
    requires behind == Datas(x + []) + given + rest && ((pend == error && given == [] && x != []) || pend == given)
    ensures Overtaken(error, behind, x, pend, rest)
  {
    assert x + [] == x;
    hide Datas;
    if pend != given {
      assert behind == Datas(x) + rest;
    }
  }

  /** Then the items have not been taken in their order. */
  lemma NotTaken(ahead: seq<Item>, error: seq<Item>, behind: seq<Item>, x: Bytes, given: seq<Item>, after: seq<Item>)
    requires |error| == 1 && error[0].Fault? && ahead == Datas([]) + error + behind
    requires x == [] ==> behind == Datas(x) + given + after
    ensures !Took(ahead, x, given, after)
  {
    assert ahead[0] == error[0] && |ahead| == 1 + |behind|;
    if x == [] {
      assert |Datas(x) + given + after| == |behind|;
    } else {
      assert (Datas(x) + given + after)[0] == Data(x[0]);
    }
  }

  /** With a single byte behind the error, that byte was taken or the error was lost. */
  lemma OneBehind(error: Error, c: Byte, e: Option<Error>, x: Bytes, given: seq<Item>, after: seq<Item>)
    requires Overtaken([Fault(error)], [Data(c)], x, given, after) && Told(e, given, after)
    ensures |x| == 1 ==> x == [c]
    ensures x == [] && e.Some? ==> e == Some(ErrNoProgress) && after == [Data(c)]
  {
    if x == [] {
      assert Datas(x) + given + after == given + after;
      HeadGiven(given, after);
    } else if [Data(c)] == Datas(x) + given + after {
      assert (Datas(x) + given + after)[0] == Data(x[0]);
    } else if [Data(c)] == Datas(x) + after {
      assert (Datas(x) + after)[0] == Data(x[0]);
    } else {
      var y: Bytes, rest: seq<Item> :| after == Datas(y) + [Fault(error)] + rest && [Data(c)] == Datas(x + y) + rest;
      assert (Datas(x + y) + rest)[0] == Data(x[0]);
    }
  }

  lemma HeadGiven(given: seq<Item>, after: seq<Item>)
    ensures if given == [] then given + after == after else given + after != [] && (given + after)[0] == given[0]
  {
  }

  lemma EmptyAhead(held: Bytes, pend: seq<Item>, rest: seq<Item>)
    requires held == [] && pend == []
    ensures Datas(held) + pend + rest == rest
  {
  }

  lemma StartTook(ahead: seq<Item>)
    ensures Took(ahead, [], [], ahead) && BytesOf(ahead) == [] + BytesOf(ahead)
  {
  }

  lemma ToldNone(ahead: seq<Item>)
    ensures Told(None, [], ahead)
  {
  }

  lemma ToldNothing(e: Option<Error>, given: seq<Item>, ahead: seq<Item>)
    requires Told(e, given, ahead)
    ensures e.None? ==> given == []
  {
  }

  lemma GivenFaults(e: Option<Error>, given: seq<Item>, ahead: seq<Item>)
    requires Told(e, given, ahead)
    ensures forall i :: 0 <= i < |given| ==> given[i].Fault?
  {
  }

  lemma Onward(a: seq<Item>, x: Bytes, b: seq<Item>, y: Bytes, given: seq<Item>, c: seq<Item>)
    requires BytesOf(a) == x + BytesOf(b) && BytesOf(b) == y + BytesOf(c)
    ensures BytesOf(a) == x + y + BytesOf(c)
    ensures Took(a, x, [], b) && Took(b, y, given, c) ==> Took(a, x + y, given, c)
    ensures x == [] ==> x + y == y
  {
    if Took(b, y, given, c) {
      TookTook(a, x, b, y, given, c);
    }
    hide BytesOf, Took;
    assert x + (y + BytesOf(c)) == x + y + BytesOf(c);
  }

  lemma TookOn(a: seq<Item>, x: Bytes, b: seq<Item>, e: Option<Error>, given: seq<Item>, c: seq<Item>)
    requires BytesOf(a) == x + BytesOf(b) && Took(b, [], given, c) && Told(e, given, c)
    ensures BytesOf(a) == x + BytesOf(c)
    ensures Took(a, x, [], b) ==> Took(a, x, given, c)
  {
    GivenFaults(e, given, c);
    TookBytes(b, [], given, c);
    TookTook(a, x, b, [], given, c);
    hide BytesOf, Took;
    assert x + [] == x && [] + BytesOf(c) == BytesOf(c);
  }

  lemma TookTook(a: seq<Item>, x: Bytes, b: seq<Item>, y: Bytes, given: seq<Item>, c: seq<Item>)
    requires Took(b, y, given, c)
    ensures Took(a, x, [], b) ==> Took(a, x + y, given, c)
  {
    DatasConcat(x, y);
  }

  lemma FilledBytes(d: Bytes, waiting: seq<Item>, given: seq<Item>, pend: seq<Item>, before: seq<Item>,
      after: seq<Item>)
    requires before == Datas(d) + given + after
    requires (pend == waiting && given == []) || pend == given
    requires (forall i :: 0 <= i < |pend| ==> pend[i].Fault?) && (forall i :: 0 <= i < |waiting| ==> waiting[i].Fault?)
    ensures BytesOf(Datas([]) + waiting + before) == BytesOf(Datas(d) + pend + after)
  {
    PeekedBytes([], waiting, before);
    PeekedBytes(d, pend, after);
    PeekedBytes(d, given, after);
    assert Datas([]) + [] + before == before;
  }

  lemma TakeSlice(s: Bytes, r: nat, k: nat, w: nat, pend: seq<Item>, rest: seq<Item>)
    requires r + k <= w <= |s|
    ensures Took(Datas(s[r..w]) + pend + rest, s[r..r + k], [], Datas(s[r + k..w]) + pend + rest)
    ensures k > 0 ==> s[r..r + k][k - 1] == s[r + k - 1]
  {
    assert s[r..w] == s[r..r + k] + s[r + k..w];
    DatasConcat(s[r..r + k], s[r + k..w]);
    hide Datas;
    var a, b := Datas(s[r..r + k]), Datas(s[r + k..w]);
    assert a + b + pend + rest == a + [] + (b + pend + rest);
  }

  lemma SplitSlice(s: Bytes, r: nat, k: nat, w: nat)
    requires r + k <= w <= |s|
    ensures s[r..r + k] + s[r + k..w] == s[r..w]
  {
  }

  lemma TookFront(before: seq<Item>, x: Bytes, given: seq<Item>, after: seq<Item>)
    requires Took(before, x, given, after)
    ensures Datas(x) <= before
    ensures given == [] && after != [] ==> |x| < |before| && before[|x|] == after[0]
  {
  }

  lemma LastTaken(consumed: Bytes, x: Bytes)
    ensures x != [] ==> (consumed + x)[|consumed + x| - 1] == x[|x| - 1]
  {
  }

  lemma FilledAhead(held: Bytes, d: Bytes, given: seq<Item>, before: seq<Item>, after: seq<Item>)
    requires before == Datas(d) + given + after
    ensures Datas(held) + [] + before == Datas(held + d) + given + after
  {
    DatasConcat(held, d);
  }

  lemma PendFaults(err: Option<Error>, pend: seq<Item>, rest: seq<Item>)
    requires Told(err, pend, rest)
    ensures |pend| <= 1 && forall i :: 0 <= i < |pend| ==> pend[i].Fault?
    ensures err.None? ==> pend == []
  {
  }

  lemma PeekedBytes(out: Bytes, given: seq<Item>, rest: seq<Item>)
    requires forall i :: 0 <= i < |given| ==> given[i].Fault?
    ensures BytesOf(Datas(out) + given + rest) == BytesOf(Datas(out) + [] + rest)
  {
    hide Datas, BytesOf;
    assert Datas(out) + [] + rest == Datas(out) + rest;
    BytesOfConcat(Datas(out) + given, rest);
    BytesOfConcat(Datas(out), given);
    BytesOfConcat(Datas(out), rest);
    NoBytes(given);
    assert BytesOf(Datas(out)) + [] == BytesOf(Datas(out));
  }

  /** Taking an error from an empty buffer. */
  lemma TookNothing(before: seq<Item>, given: seq<Item>, after: seq<Item>)
    requires before == given + after && (forall i :: 0 <= i < |given| ==> given[i].Fault?)
    ensures Took(before, [], given, after) && BytesOf(before) == BytesOf(after)
  {
    assert Datas([]) + given + after == given + after;
    TookBytes(before, [], given, after);
    assert [] + BytesOf(after) == BytesOf(after);
  }

  lemma TookIntact(origin: Bytes, consumed: Bytes, before: seq<Item>, x: Bytes, given: seq<Item>, after: seq<Item>)
    requires Took(before, x, given, after) && (forall i :: 0 <= i < |given| ==> given[i].Fault?)
    ensures origin == consumed + BytesOf(before) ==> origin == consumed + x + BytesOf(after)
  {
    TookBytes(before, x, given, after);
  }

  /** What the answer of a Read means for the items. */
  lemma ReadTold(e: Option<Error>, before: seq<Item>, d: Bytes, given: seq<Item>, after: seq<Item>)
    requires before == Datas(d) + given + after && Reports(e, given, after)
    ensures e.Some? ==> Told(e, given, after)
    ensures e.None? ==> given == [] && before == Datas(d) + after
    ensures e.None? && d == [] ==> before == after
  {
  }

  lemma NoProgressTold(held: Bytes, rest: seq<Item>)
    ensures Told(Some(ErrNoProgress), [], rest) && Proper([])
    ensures held + [] == held && rest == Datas([]) + [] + rest
  {
  }

  lemma FrontSlice(a: Bytes, w: nat)
    requires w <= |a|
    ensures a[0..w] == a[..w]
  {
  }

  /** An error already waiting is not disturbed by reading on. */
  lemma StillTold(before: seq<Item>, d: Bytes, after: seq<Item>, err: Option<Error>, pend: seq<Item>)
    requires before == Datas(d) + after && Told(err, pend, before)
    ensures Told(err, pend, after)
  {
    assert |before| == |d| + |after|;
  }

  // -------------------------------------------------- where the order or a byte is lost

  /** A byte, an error and another byte. When a Read of the first byte got the error reported
      along with it, Discard(1) takes the byte behind the error without a word, or gives up on
      a stalling source and forgets the error. */
  method DiscardPastError(a: Byte, failure: int, c: Byte)
    returns (met: bool, k: nat, e: Option<Error>, b: Reader, ghost x: Bytes, ghost given: seq<Item>)
    ensures b.Valid()
    ensures met ==> b.consumed == [a] + x && !Took([Fault(Other(failure)), Data(c)], x, given, b.Ahead())
    ensures met && k == 1 ==> e.None? && x == [c] && given == []
    ensures met && k == 0 ==> e == Some(ErrNoProgress) && b.Ahead() == [Data(c)]
  {
    hide Datas, BytesOf, Proper, Took, Told, Overtaken;
    x, given := [], [];
    met, b := ReadWithError(a, failure, c);
    if met {
      k, e, x, given := b.Discard(1);
      ToldNothing(e, given, b.Ahead());
      OneBehind(Other(failure), c, e, x, given, b.Ahead());
    } else {
      k, e := 0, None;
    }
  }

  /** Read one byte, and see whether the error behind it was reported with it. */
  method ReadWithError(a: Byte, failure: int, c: Byte) returns (met: bool, b: Reader)
    ensures b.Valid() && fresh(b) && fresh(b.buf) && fresh(b.rd)
    ensures met ==> b.r == b.w && b.pend == [Fault(Other(failure))] && b.rd.rest == [Data(c)] && b.consumed == [a]
    ensures met ==> b.Ahead() == [Fault(Other(failure)), Data(c)]
  {
    ghost var items := [Data(a), Fault(Other(failure)), Data(c)];
    var src := new Source([Data(a), Fault(Other(failure)), Data(c)]);
    b := new Reader(src, 0);
    assert b.Ahead() == items;
    hide Datas, BytesOf, Proper, Took, Told;
    var p := new Byte[1];
    var k, e, given := b.Read(p);
    ToldNothing(e, given, b.Ahead());
    met := k == 1 && e.None? && b.err == Some(Other(failure));
    if met {
      ErrorNext(a, Other(failure), c, p[..1], b.buf[b.r..b.w], b.pend, b.rd.rest);
      assert [] + [a] == [a];
    }
  }

  lemma HeadHeld(held: Bytes, pend: seq<Item>, rest: seq<Item>)
    ensures if held == [] then Datas(held) + pend + rest == pend + rest
            else |Datas(held) + pend + rest| > 0 && (Datas(held) + pend + rest)[0] == Data(held[0])
  {
  }

  /** Behind the first of the three items, the error is recorded and nothing is buffered. */
  lemma ErrorNext(a: Byte, error: Error, c: Byte, x: Bytes, held: Bytes, pend: seq<Item>, rest: seq<Item>)
    requires |x| == 1 && Took([Data(a), Fault(error), Data(c)], x, [], Datas(held) + pend + rest)
    requires Told(Some(error), pend, rest) && error.Other?
    ensures x == [a] && held == [] && pend == [Fault(error)] && rest == [Data(c)]
    ensures Datas(held) + pend + rest == [Fault(error), Data(c)]
  {
    var after := Datas(held) + pend + rest;
    var all := Datas(x) + [] + after;
    assert all[0] == Data(x[0]);
    assert all[1..] == after;
    assert after == [Fault(error), Data(c)];
    HeadHeld(held, pend, rest);
    assert after == [Fault(error)] + rest;
    assert after[1..] == rest;
  }

  /** UnreadByte after a fragment of ReadLine: the stream stays what it was exactly when the
      fragment fills the buffer, or else ends in a carriage return itself. */
  method UnreadAfterReadLine(b: Reader) returns (line: Bytes, isPrefix: bool, e: Option<Error>)
    requires b.Valid() && b.Intact()
    modifies b, b.buf, b.rd
    ensures b.Valid()
    ensures isPrefix ==> e.None? && line != [] && b.buf == old(b.buf)
    ensures isPrefix ==> (b.Intact() <==> |line| == b.buf.Length || line[|line| - 1] == CR)
    ensures isPrefix ==> |line| <= b.buf.Length && Datas(line) <= old(b.Ahead())
    ensures isPrefix && line[|line| - 1] == CR && |line| < |old(b.Ahead())| ==> old(b.Ahead())[|line|] == Data(CR)
  {
    hide Datas, BytesOf, Proper, Told, Took, Without;
    var ignored;
    ghost var raw, cause, given;
    line, isPrefix, ignored, raw, cause, given := b.ReadLine();
    LastTaken(old(b.consumed), raw);
    TookFront(old(b.Ahead()), raw, given, b.Ahead());
    e := b.UnreadByte();
  }

  /** For example fifteen letters, a carriage return and another letter, in a buffer of
      sixteen bytes. */
  method UnreadRepeats(c: Byte) returns (b: Reader, isPrefix: bool)
    requires c != CR && c != NEWLINE
    ensures b.Valid() && (isPrefix ==> !b.Intact())
  {
    var items := seq(17, i => if i == 15 then Data(CR) else Data(c));
    var src := new Source(items);
    b := new Reader(src, 16);
    var line, e;
    line, isPrefix, e := UnreadAfterReadLine(b);
    if isPrefix {
      NoSuchLine(items, c, line);
    }
  }

  lemma NoSuchLine(items: seq<Item>, c: Byte, line: Bytes)
    requires |items| == 17 && forall i :: 0 <= i < 17 ==> items[i] == Data(if i == 15 then CR else c)
    requires c != CR && line != [] && |line| <= 16 && Datas(line) <= items
    requires line[|line| - 1] == CR ==> items[|line|] == Data(CR)
    ensures |line| != 16 && line[|line| - 1] != CR
  {
    assert Datas(line)[|line| - 1] == items[|line| - 1];
  }
}
