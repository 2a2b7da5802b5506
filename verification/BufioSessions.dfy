/**
 * Sequences of calls on a bufio.Reader.
 *
 * A session is any sequence of Peek, Discard, Read, ReadByte, ReadSlice and UnreadByte. Each
 * call is recorded by what it took, what it put back and what it reported; the theorem is the
 * contract of Session.
 */
module BufioSessions {
  import opened Prelude
  import opened IoSource
  import opened BufioReader

  datatype Op =
    | PeekOp(n: int) | DiscardOp(n: int) | ReadOp(size: nat) | ReadByteOp | ReadSliceOp(delim: Byte) | UnreadByteOp

  /** What a call did: bytes taken, a byte put back, the error reported, and how many bytes the
      source had delivered that were not consumed when the call returned. */
  datatype Record = Record(op: Op, took: Bytes, back: Option<Byte>, err: Option<Error>, held: nat)

  /** The bytes consumed after the records, starting from those in from. */
  function Consumed(from: Bytes, log: seq<Record>): Bytes {
    if log == [] then from
    else
      var before := Consumed(from, log[..|log| - 1]);
      var last := log[|log| - 1];
      (if last.back.Some? then DropLast(before) else before) + last.took
  }

  /** Each call did what it was asked: it took so many bytes or reported why not, only
      UnreadByte put a byte back and only by failing did not, and Peek took nothing. */
  predicate Answers(rec: Record) {
    match rec.op
    case PeekOp(n) => rec.took == [] && rec.back.None?
    case DiscardOp(n) => rec.back.None? && |rec.took| <= (if n < 0 then 0 else n) && (rec.err.None? ==> |rec.took| == n)
    case ReadOp(size) => rec.back.None? && |rec.took| <= size
    case ReadByteOp => rec.back.None? && |rec.took| == if rec.err.None? then 1 else 0
    case ReadSliceOp(delim) => rec.back.None? && (rec.err.None? <==> EndsFirst(rec.took, delim))
    case UnreadByteOp => rec.took == [] && (rec.err.None? <==> rec.back.Some?)
  }

  /** A source error, or one in its place, as opposed to a complaint about the arguments or the
      size of the buffer. */
  predicate FromSource(e: Error) { Own(e) || e.ErrNoProgress? }

  /** A byte put back is the last one consumed, and an error from the source is reported, except
      by Peek, only when all the bytes the source has delivered are consumed. */
  ghost predicate Sound(from: Bytes, log: seq<Record>) {
    log == [] ||
    (var before, last := log[..|log| - 1], log[|log| - 1];
     var had := Consumed(from, before);
     && Sound(from, before) && Answers(last)
     && (last.back.Some? ==> had != [] && had[|had| - 1] == last.back.value)
     && (last.err.Some? && FromSource(last.err.value) && !last.op.PeekOp? ==> last.held == 0))
  }

  /** What the next record has to say about the bytes consumed. */
  predicate Continues(had: Bytes, rec: Record, now: Bytes) {
    && Answers(rec)
    && (rec.back.Some? ==> had != [] && had[|had| - 1] == rec.back.value)
    && (rec.err.Some? && FromSource(rec.err.value) && !rec.op.PeekOp? ==> rec.held == 0)
    && now == (if rec.back.Some? then DropLast(had) else had) + rec.took
  }

  lemma Extended(from: Bytes, log: seq<Record>, rec: Record, now: Bytes)
    requires Sound(from, log) && Continues(Consumed(from, log), rec, now)
    ensures Sound(from, log + [rec]) && Consumed(from, log + [rec]) == now
  {
    assert (log + [rec])[..|log|] == log;
  }

  /** The reader's last byte is known to be the last one consumed. */
  ghost predicate Ready(b: Reader)
    reads b, b.buf, b.rd
  {
    b.Valid() && b.Intact() && !b.rewound
  }

  method Call(b: Reader, op: Op) returns (ghost rec: Record)
    requires Ready(b)
    modifies b, b.buf, b.rd
    ensures Ready(b) && b.buf == old(b.buf) && b.rd == old(b.rd) && b.origin == old(b.origin)
    ensures rec.op == op && rec.held == b.w - b.r && Continues(old(b.consumed), rec, b.consumed)
    ensures (rec.err == Some(ErrNoProgress) || old(b.rd.stalled)) ==> b.rd.stalled
  {
    match op
    case PeekOp(n) => rec := CallPeek(b, n);
    case DiscardOp(n) => rec := CallDiscard(b, n);
    case ReadOp(size) => rec := CallRead(b, size);
    case ReadByteOp => rec := CallReadByte(b);
    case ReadSliceOp(delim) => rec := CallReadSlice(b, delim);
    case UnreadByteOp => rec := CallUnreadByte(b);
  }

  method CallPeek(b: Reader, n: int) returns (ghost rec: Record)
    requires Ready(b)
    modifies b, b.buf, b.rd
    ensures Ready(b) && b.buf == old(b.buf) && b.rd == old(b.rd) && b.origin == old(b.origin)
    ensures rec.op == PeekOp(n) && rec.held == b.w - b.r && Continues(old(b.consumed), rec, b.consumed)
    ensures (rec.err == Some(ErrNoProgress) || old(b.rd.stalled)) ==> b.rd.stalled
  {
    hide Datas, BytesOf, Proper, Told;
    var out, e, given := b.Peek(n);
    rec := Record(PeekOp(n), [], None, e, b.w - b.r);
  }

  method CallDiscard(b: Reader, n: int) returns (ghost rec: Record)
    requires Ready(b)
    modifies b, b.buf, b.rd
    ensures Ready(b) && b.buf == old(b.buf) && b.rd == old(b.rd) && b.origin == old(b.origin)
    ensures rec.op == DiscardOp(n) && rec.held == b.w - b.r && Continues(old(b.consumed), rec, b.consumed)
    ensures (rec.err == Some(ErrNoProgress) || old(b.rd.stalled)) ==> b.rd.stalled
  {
    hide Datas, BytesOf, Proper, Told, Took, Overtaken;
    var k, e, x, given := b.Discard(n);
    rec := Record(DiscardOp(n), x, None, e, b.w - b.r);
  }

  method CallRead(b: Reader, size: nat) returns (ghost rec: Record)
    requires Ready(b)
    modifies b, b.buf, b.rd
    ensures Ready(b) && b.buf == old(b.buf) && b.rd == old(b.rd) && b.origin == old(b.origin)
    ensures rec.op == ReadOp(size) && rec.held == b.w - b.r && Continues(old(b.consumed), rec, b.consumed)
    ensures (rec.err == Some(ErrNoProgress) || old(b.rd.stalled)) ==> b.rd.stalled
  {
    hide Datas, BytesOf, Proper, Told, Took;
    var p := new Byte[size];
    var n, e, given := b.Read(p);
    rec := Record(ReadOp(size), p[..n], None, e, b.w - b.r);
  }

  method CallReadByte(b: Reader) returns (ghost rec: Record)
    requires Ready(b)
    modifies b, b.buf, b.rd
    ensures Ready(b) && b.buf == old(b.buf) && b.rd == old(b.rd) && b.origin == old(b.origin)
    ensures rec.op == ReadByteOp && rec.held == b.w - b.r && Continues(old(b.consumed), rec, b.consumed)
    ensures (rec.err == Some(ErrNoProgress) || old(b.rd.stalled)) ==> b.rd.stalled
  {
    hide Datas, BytesOf, Proper, Told, Took;
    var c, e, given := b.ReadByte();
    rec := Record(ReadByteOp, if e.None? then [c] else [], None, e, b.w - b.r);
  }

  method CallReadSlice(b: Reader, delim: Byte) returns (ghost rec: Record)
    requires Ready(b)
    modifies b, b.buf, b.rd
    ensures Ready(b) && b.buf == old(b.buf) && b.rd == old(b.rd) && b.origin == old(b.origin)
    ensures rec.op == ReadSliceOp(delim) && rec.held == b.w - b.r && Continues(old(b.consumed), rec, b.consumed)
    ensures (rec.err == Some(ErrNoProgress) || old(b.rd.stalled)) ==> b.rd.stalled
  {
    hide Datas, BytesOf, Proper, Told, Took;
    var line, e, given := b.ReadSlice(delim);
    rec := Record(ReadSliceOp(delim), line, None, e, b.w - b.r);
  }

  method CallUnreadByte(b: Reader) returns (ghost rec: Record)
    requires Ready(b)
    modifies b, b.buf, b.rd
    ensures Ready(b) && b.buf == old(b.buf) && b.rd == old(b.rd) && b.origin == old(b.origin)
    ensures rec.op == UnreadByteOp && rec.held == b.w - b.r && Continues(old(b.consumed), rec, b.consumed)
    ensures (rec.err == Some(ErrNoProgress) || old(b.rd.stalled)) ==> b.rd.stalled
  {
    hide Datas, BytesOf, Proper, Told, Took;
    ghost var last := b.lastByte;
    var e := b.UnreadByte();
    rec := Record(UnreadByteOp, [], if e.None? then Some(last as Byte) else None, e, b.w - b.r);
  }

  /** For any source, buffer size and sequence of calls: consumed bytes, then the buffered ones,
      then those still in the source are the original stream; every byte put back is the last one
      consumed; and except by Peek no error of the source is reported while a byte it has
      delivered is not consumed. */
  method Session(b: Reader, ops: seq<Op>) returns (ghost log: seq<Record>)
    requires Ready(b)
    modifies b, b.buf, b.rd
    ensures Ready(b) && b.buf == old(b.buf) && b.rd == old(b.rd) && b.origin == old(b.origin)
    ensures b.origin == b.consumed + b.buf[b.r..b.w] + BytesOf(b.rd.rest)
    ensures |log| == |ops| && forall i :: 0 <= i < |ops| ==> log[i].op == ops[i]
    ensures !b.rd.stalled ==> forall i :: 0 <= i < |ops| ==> log[i].err != Some(ErrNoProgress)
    ensures Sound(old(b.consumed), log) && b.consumed == Consumed(old(b.consumed), log)
  {
    hide Continues, Ready, Sound, Consumed;
    log := [];
    NoRecords(b.consumed);
    for i := 0 to |ops|
      invariant Ready(b) && b.buf == old(b.buf) && b.rd == old(b.rd) && b.origin == old(b.origin)
      invariant |log| == i && forall j :: 0 <= j < i ==> log[j].op == ops[j]
      invariant !b.rd.stalled ==> forall j :: 0 <= j < i ==> log[j].err != Some(ErrNoProgress)
      invariant Sound(old(b.consumed), log) && b.consumed == Consumed(old(b.consumed), log)
    {
      var rec := Call(b, ops[i]);
      Extended(old(b.consumed), log, rec, b.consumed);
      log := log + [rec];
    }
    ReadyStream(b);
  }

  lemma NoRecords(from: Bytes)
    ensures Sound(from, []) && Consumed(from, []) == from
  {
  }

  lemma ReadyStream(b: Reader)
    requires Ready(b)
    ensures b.origin == b.consumed + b.buf[b.r..b.w] + BytesOf(b.rd.rest)
  {
    PendFaults(b.err, b.pend, b.rd.rest);
    TookBytes(b.Ahead(), b.buf[b.r..b.w], b.pend, b.rd.rest);
    hide BytesOf, Datas;
    Regroup(b.consumed, b.buf[b.r..b.w], BytesOf(b.rd.rest));
  }

  /** A session on a new reader of any size over any source: consumed bytes, then the buffered
      ones, then those still in the source are the bytes the source had, and what was consumed is
      what the calls took and did not put back. */
  method NewSession(src: Source, size: int, ops: seq<Op>) returns (b: Reader, ghost log: seq<Record>)
    requires Proper(src.rest)
    modifies src
    ensures Ready(b) && b.rd == src && b.buf.Length == if size > MIN_BUFFER then size else MIN_BUFFER
    ensures old(BytesOf(src.rest)) == b.consumed + b.buf[b.r..b.w] + BytesOf(src.rest)
    ensures |log| == |ops| && forall i :: 0 <= i < |ops| ==> log[i].op == ops[i]
    ensures !src.stalled ==> forall i :: 0 <= i < |ops| ==> log[i].err != Some(ErrNoProgress)
    ensures Sound([], log) && b.consumed == Consumed([], log)
  {
    b := new Reader(src, size);
    log := Session(b, ops);
  }
}
