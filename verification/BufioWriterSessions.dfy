/**
 * Sequences of calls on a bufio.Writer: any sequence of Flush, Write, WriteByte, WriteString
 * and ReadFrom, over any sink and any sources.
 */
module BufioWriterSessions {
  import opened Prelude
  import opened IoSource
  import opened BufioWriter

  datatype Op =
    | FlushOp | WriteOp(p: Bytes) | WriteByteOp(c: Byte) | WriteStringOp(s: Bytes) | ReadFromOp(src: Source)

  /** What the sink has taken, what is buffered, what was accepted and the error recorded. */
  datatype Snapshot = Snapshot(sent: Bytes, held: Bytes, accepted: Bytes, err: Option<Error>)

  ghost function Now(w: Writer): Snapshot
    requires w.n <= w.buf.Length
    reads w, w.buf, w.wr
  {
    Snapshot(w.wr.sent, w.buf[..w.n], w.accepted, w.err)
  }

  /** No byte is lost or made up. */
  predicate Balanced(base: Bytes, s: Snapshot) { s.sent + s.held == base + s.accepted }

  /** What a call did: the bytes it accepted, the count and the error it returned, and for
      ReadFrom what the source still had before and after. */
  datatype Record =
    Record(op: Op, took: Bytes, count: nat, err: Option<Error>, before: seq<Item>, after: seq<Item>)

  /** The bytes a call accepted are those it was asked to write, or drew from its source: all of
      them if it returned no error, and the first count of them otherwise. */
  ghost predicate Answers(rec: Record) {
    && rec.count == |rec.took|
    && match rec.op
       case FlushOp => rec.took == []
       case WriteOp(p) => rec.took <= p && (rec.err.None? ==> rec.took == p)
       case WriteByteOp(c) => rec.took == if rec.err.None? then [c] else []
       case WriteStringOp(p) => rec.took <= p && (rec.err.None? ==> rec.took == p)
       case ReadFromOp(_) => Drew(rec.err, rec.before, rec.took, rec.after)
  }

  /** From one call to the next: exactly the bytes of the record are accepted and the sink only
      gets more; a recorded error is the one returned, and only ReadFrom returns others; once an
      error is recorded nothing changes any more, not even the source. */
  ghost predicate Follows(rec: Record, s: Snapshot, t: Snapshot) {
    && Answers(rec)
    && t.accepted == s.accepted + rec.took && s.sent <= t.sent
    && (t.err.Some? ==> rec.err == t.err) && (rec.err.Some? ==> rec.err == t.err || rec.op.ReadFromOp?)
    && (rec.op.FlushOp? && rec.err.None? ==> t.held == [])
    && (s.err.Some? ==> t == s && rec.took == [] && rec.err == s.err && rec.after == rec.before)
  }

  /** The same bytes sent and accepted leave the same bytes in the buffer. */
  lemma SameHeld(base: Bytes, s: Snapshot, t: Snapshot)
    requires Balanced(base, s) && Balanced(base, t) && s.sent == t.sent && s.accepted == t.accepted
    ensures s.held == t.held
  {
    assert s.held == (s.sent + s.held)[|s.sent|..];
    assert t.held == (t.sent + t.held)[|t.sent|..];
  }

  function SourceOf(op: Op): set<Source> {
    if op.ReadFromOp? then {op.src} else {}
  }

  function Sources(ops: seq<Op>): set<Source> {
    set i | 0 <= i < |ops| && ops[i].ReadFromOp? :: ops[i].src
  }

  method Call(w: Writer, op: Op) returns (ghost rec: Record)
    requires w.Valid() && (op.ReadFromOp? ==> Proper(op.src.rest))
    modifies w, w.buf, w.wr, SourceOf(op)
    ensures w.Valid() && Balanced(w.base, Now(w)) && rec.op == op && Follows(rec, old(Now(w)), Now(w))
    ensures op.ReadFromOp? ==> Proper(op.src.rest) && rec.before == old(op.src.rest) && rec.after == op.src.rest
    ensures op.ReadFromOp? ==> old(BytesOf(op.src.rest)) == rec.took + BytesOf(op.src.rest)
  {
    hide Drew, Proper, BytesOf;
    ghost var was := Now(w);
    match op {
      case FlushOp =>
        var e := w.Flush();
        rec := Record(op, [], 0, e, [], []);
      case WriteOp(p) =>
        var n, e := w.Write(p);
        rec := Record(op, p[..n], n, e, [], []);
      case WriteByteOp(c) =>
        var e := w.WriteByte(c);
        rec := Record(op, if e.None? then [c] else [], if e.None? then 1 else 0, e, [], []);
      case WriteStringOp(s) =>
        var n, e := w.WriteString(s);
        rec := Record(op, s[..n], n, e, [], []);
      case ReadFromOp(src) =>
        ghost var items := src.rest;
        var n, e, d := w.ReadFrom(src);
        rec := Record(op, d, n, e, items, src.rest);
    }
    if was.err.Some? {
      SameHeld(w.base, was, Now(w));
    }
  }

  // ------------------------------------------------------------------------ whole sessions

  /** The states before the first call and after each one, and what each call did. */
  ghost predicate Chronicle(base: Bytes, log: seq<Record>, states: seq<Snapshot>) {
    && |states| == |log| + 1
    && (forall i :: 0 <= i < |states| ==> Balanced(base, states[i]))
    && (forall i :: 0 <= i < |log| ==> Follows(log[i], states[i], states[i + 1]))
  }

  lemma Continued(base: Bytes, log: seq<Record>, states: seq<Snapshot>, rec: Record, next: Snapshot)
    requires Chronicle(base, log, states) && Balanced(base, next) && Follows(rec, states[|log|], next)
    ensures Chronicle(base, log + [rec], states + [next])
  {
    hide Balanced, Follows;
  }

  /** Everything the calls accepted, in order. */
  function Accepted(log: seq<Record>): Bytes {
    if log == [] then [] else Accepted(log[..|log| - 1]) + log[|log| - 1].took
  }

  /** What the calls drew from one of the sources. */
  function Drawn(log: seq<Record>, src: Source): Bytes {
    if log == [] then [] else Drawn(log[..|log| - 1], src) + From(log[|log| - 1], src)
  }

  function From(rec: Record, src: Source): Bytes {
    if rec.op == ReadFromOp(src) then rec.took else []
  }

  /** After call k the sink and the buffer hold exactly what was there before the session and
      what the first k calls accepted. */
  lemma {:induction false} Conserved(base: Bytes, log: seq<Record>, states: seq<Snapshot>, k: nat)
    requires Chronicle(base, log, states) && k <= |log|
    ensures states[k].sent + states[k].held == states[0].sent + states[0].held + Accepted(log[..k])
  {
    AcceptedSoFar(base, log, states, k);
    assert Balanced(base, states[0]) && Balanced(base, states[k]);
    hide Chronicle, Follows, Accepted;
    Regroup(base, states[0].accepted, Accepted(log[..k]));
  }

  lemma {:induction false} AcceptedSoFar(base: Bytes, log: seq<Record>, states: seq<Snapshot>, k: nat)
    requires Chronicle(base, log, states) && k <= |log|
    ensures states[k].accepted == states[0].accepted + Accepted(log[..k])
  {
    if k > 0 {
      AcceptedSoFar(base, log, states, k - 1);
      assert Follows(log[k - 1], states[k - 1], states[k]);
      assert log[..k][..k - 1] == log[..k - 1];
      Regroup(states[0].accepted, Accepted(log[..k - 1]), log[k - 1].took);
    }
  }

  /** After the first error the sink, the buffer and the error stay as they are for ever, and no
      call accepts anything. */
  lemma {:induction false} Frozen(base: Bytes, log: seq<Record>, states: seq<Snapshot>, i: nat, j: nat)
    requires Chronicle(base, log, states) && i <= j < |states| && states[i].err.Some?
    ensures states[j] == states[i]
    ensures j < |log| ==> log[j].took == [] && log[j].err == states[i].err && log[j].after == log[j].before
    decreases j
  {
    if i < j {
      Frozen(base, log, states, i, j - 1);
      assert Follows(log[j - 1], states[j - 1], states[j]);
    }
    if j < |log| {
      assert Follows(log[j], states[j], states[j + 1]);
    }
  }

  /** For any sink, sources and sequence of calls: after every call, failed or not, the sink
      contents and the buffered bytes are what was there before and what the calls accepted; no
      byte is lost between a source and the writer; and once an error is recorded nothing
      changes any more. */
  method Session(w: Writer, ops: seq<Op>) returns (ghost log: seq<Record>, ghost states: seq<Snapshot>)
    requires w.Valid() && forall src :: src in Sources(ops) ==> Proper(src.rest)
    modifies w, w.buf, w.wr, Sources(ops)
    ensures w.Valid() && Chronicle(w.base, log, states)
    ensures |log| == |ops| && forall i :: 0 <= i < |ops| ==> log[i].op == ops[i]
    ensures states[0] == old(Now(w)) && states[|ops|] == Now(w)
    ensures forall k :: 0 <= k <= |ops| ==>
              states[k].sent + states[k].held == old(w.wr.sent + w.buf[..w.n]) + Accepted(log[..k])
    ensures forall src :: src in Sources(ops) ==> old(BytesOf(src.rest)) == Drawn(log, src) + BytesOf(src.rest)
    ensures forall i, j :: 0 <= i <= j <= |ops| && states[i].err.Some? ==> states[j] == states[i]
  {
    hide Follows, Balanced, Accepted, Drawn, BytesOf, Proper, Chronicle;
    log, states := [], [Now(w)];
    Begun(w.base, Now(w));
    for i := 0 to |ops|
      invariant w.Valid() && forall src :: src in Sources(ops) ==> Proper(src.rest)
      invariant Chronicle(w.base, log, states)
      invariant |log| == i && |states| == i + 1 && forall j :: 0 <= j < i ==> log[j].op == ops[j]
      invariant states[0] == old(Now(w)) && states[i] == Now(w)
      invariant forall src :: src in Sources(ops) ==> old(BytesOf(src.rest)) == Drawn(log, src) + BytesOf(src.rest)
    {
      ghost var rests := map src | src in Sources(ops) :: BytesOf(src.rest);
      assert ops[i].ReadFromOp? ==> ops[i].src in Sources(ops);
      var rec := CallAmong(w, ops[i], Sources(ops));
      Continued(w.base, log, states, rec, Now(w));
      forall src | src in Sources(ops)
        ensures old(BytesOf(src.rest)) == Drawn(log + [rec], src) + BytesOf(src.rest)
      {
        MoreDrawn(log, rec, src, rests[src], BytesOf(src.rest));
      }
      log, states := log + [rec], states + [Now(w)];
    }
    Summary(w.base, log, states);
  }

  lemma Summary(base: Bytes, log: seq<Record>, states: seq<Snapshot>)
    requires Chronicle(base, log, states)
    ensures forall k :: 0 <= k <= |log| ==>
              states[k].sent + states[k].held == states[0].sent + states[0].held + Accepted(log[..k])
    ensures forall i, j :: 0 <= i <= j <= |log| && states[i].err.Some? ==> states[j] == states[i]
  {
    hide Follows, Balanced, Accepted;
    forall k | 0 <= k <= |log|
      ensures states[k].sent + states[k].held == states[0].sent + states[0].held + Accepted(log[..k])
    {
      Conserved(base, log, states, k);
    }
    forall i, j | 0 <= i <= j <= |log| && states[i].err.Some?
      ensures states[j] == states[i]
    {
      Frozen(base, log, states, i, j);
    }
  }

  lemma Begun(base: Bytes, s: Snapshot)
    requires Balanced(base, s)
    ensures Chronicle(base, [], [s]) && forall src: Source :: Drawn([], src) == []
  {
  }

  /** One call takes from its own source and leaves the others alone. */
  method CallAmong(w: Writer, op: Op, sources: set<Source>) returns (ghost rec: Record)
    requires w.Valid() && (op.ReadFromOp? ==> op.src in sources) && forall src :: src in sources ==> Proper(src.rest)
    modifies w, w.buf, w.wr, sources
    ensures w.Valid() && Balanced(w.base, Now(w)) && rec.op == op && Follows(rec, old(Now(w)), Now(w))
    ensures forall src :: src in sources ==> Proper(src.rest)
    ensures forall src :: src in sources ==> old(BytesOf(src.rest)) == From(rec, src) + BytesOf(src.rest)
  {
    hide Follows, Balanced, BytesOf, Proper;
    rec := Call(w, op);
    forall src | src in sources
      ensures Proper(src.rest) && old(BytesOf(src.rest)) == From(rec, src) + BytesOf(src.rest)
    {
      if op != ReadFromOp(src) {
        assert src.rest == old(src.rest);
      }
    }
  }

  lemma MoreDrawn(log: seq<Record>, rec: Record, src: Source, before: Bytes, after: Bytes)
    requires before == From(rec, src) + after
    ensures Drawn(log, src) + before == Drawn(log + [rec], src) + after
  {
    assert (log + [rec])[..|log|] == log;
    Regroup(Drawn(log, src), From(rec, src), after);
  }
}
