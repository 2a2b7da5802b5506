/**
 * bufio.Writer over any sink that keeps the contract of io.Writer.
 *
 * Accepted is what the writer has taken responsibility for: every byte a call counted in
 * its result. The bytes the sink has taken, followed by the bytes still buffered, are
 * exactly the accepted ones, also after a flush that failed half way; and once an error is
 * recorded the sink is never touched again.
 */
module BufioWriter {
  import opened Prelude
  import opened IoSource

  class Sink {
    var sent: Bytes
    /** It has returned an error. */
    ghost var failed: bool
    /** Whether the sink also implements io.StringWriter and io.ReaderFrom. */
    const stringWriter: bool
    const readerFrom: bool

    constructor (stringWriter: bool, readerFrom: bool)
      ensures sent == [] && !failed
    {
      this.stringWriter, this.readerFrom := stringWriter, readerFrom;
      sent, failed := [], false;
    }

    /** Write, or WriteString: a short count comes with an error. */
    method Write(p: Bytes) returns (n: nat, err: Option<Error>)
      modifies this
      ensures n <= |p| && sent == old(sent) + p[..n]
      ensures n < |p| ==> err.Some?
      ensures failed == (old(failed) || err.Some?)
    {
      n :| n <= |p|;
      sent := sent + p[..n];
      if n < |p| {
        err := Some(Other(0));
      } else {
        err := None;
        if * {
          err := Some(Other(1));
        }
      }
      failed := failed || err.Some?;
    }

    /** ReadFrom: take bytes from a source directly, up to its end or an error of either side. */
    method ReadFrom(src: Source) returns (n: nat, err: Option<Error>, ghost d: Bytes)
      requires Proper(src.rest)
      modifies this, src
      ensures Proper(src.rest) && n == |d| && sent == old(sent) + d
      ensures Drew(err, old(src.rest), d, src.rest)
      ensures failed == (old(failed) || err.Some?) && (old(src.stalled) ==> src.stalled)
    {
      hide Datas;
      n, err, d := 0, None, [];
      NothingYet(src.rest);
      var more := *;
      while more && src.rest != [] && src.rest[0].Data?
        invariant Proper(src.rest) && n == |d| && sent == old(sent) + d && failed == old(failed)
        invariant old(src.stalled) ==> src.stalled
        invariant old(src.rest) == Datas(d) + src.rest
        decreases |src.rest|
      {
        NextByte(d, src.rest);
        sent, d, n := sent + [src.rest[0].b], d + [src.rest[0].b], n + 1;
        src.rest := src.rest[1..];
        more := *;
      }
      if src.rest == [] {
        return;
      }
      if src.rest[0].Data? {
        failed := true;
        return n, Some(Other(2)), d;
      }
      assert src.rest == [src.rest[0]] + src.rest[1..];
      err := if src.rest[0].e.EOF? then None else Some(src.rest[0].e);
      failed := failed || err.Some?;
      src.rest := src.rest[1..];
    }
  }

  /** The bytes d came off the front of the items, then perhaps one error; without an error
      reported, the source had come to its end. */
  ghost predicate Drew(err: Option<Error>, before: seq<Item>, d: Bytes, after: seq<Item>) {
    if err.Some? then before == Datas(d) + after || exists e :: before == Datas(d) + [Fault(e)] + after
    else before == Datas(d) + [Fault(EOF)] + after || (before == Datas(d) && after == [])
  }

  lemma NothingYet(items: seq<Item>)
    ensures Datas([]) == [] && items == Datas([]) + items
  {
  }

  lemma NextByte(d: Bytes, rest: seq<Item>)
    requires rest != [] && rest[0].Data?
    ensures Datas(d) + rest == Datas(d + [rest[0].b]) + rest[1..]
  {
  }

  /** No byte is lost or made up. */
  lemma DrewBytes(err: Option<Error>, before: seq<Item>, d: Bytes, after: seq<Item>)
    requires Drew(err, before, d, after)
    ensures BytesOf(before) == d + BytesOf(after)
  {
    hide Datas, BytesOf;
    var e :| before == Datas(d) + after || before == Datas(d) + [Fault(e)] + after || (before == Datas(d) &&
        after == []);
    if before == Datas(d) + [Fault(e)] + after {
      FaultOnly(d, e, after);
    } else {
      BytesOfConcat(Datas(d), after);
      BytesOfDatas(d);
      assert before == Datas(d) + after;
    }
  }

  lemma FaultOnly(d: Bytes, e: Error, after: seq<Item>)
    ensures BytesOf(Datas(d) + [Fault(e)] + after) == d + BytesOf(after)
  {
    BytesOfConcat(Datas(d) + [Fault(e)], after);
    BytesOfConcat(Datas(d), [Fault(e)]);
    BytesOfDatas(d);
    assert BytesOf([Fault(e)]) == [];
    assert d + [] == d;
  }

  class Writer {
    var err: Option<Error>
    const buf: array<Byte>
    var n: nat
    const wr: Sink
    /** Sink contents before this writer, and all bytes accepted since. */
    ghost const base: Bytes
    ghost var accepted: Bytes

    ghost predicate Valid()
      reads this, buf, wr
    {
      && n <= buf.Length && buf.Length > 0
      && wr.sent + buf[..n] == base + accepted
      && (err.Some? ==> wr.failed)
    }

    constructor (w: Sink, size: int)
      ensures Valid() && wr == w && fresh(buf) && accepted == [] && err.None? && base == old(w.sent)
      ensures buf.Length == if size <= 0 then 4096 else size
    {
      wr := w;
      buf := new Byte[if size <= 0 then 4096 else size];
      err, n := None, 0;
      base, accepted := w.sent, [];
      new;
      assert wr.sent + buf[..0] == base + accepted;
    }

    /** Flush: on a partial write the rest slides down and stays buffered. */
    method Flush() returns (e: Option<Error>)
      requires Valid()
      modifies this`err, this`n, buf, wr
      ensures Valid() && e == err
      ensures old(err).Some? ==> err == old(err) && wr.sent == old(wr.sent) && n == old(n) && buf[..] == old(buf[..])
      ensures err.None? ==> n == 0
      ensures n <= old(n) && Grown(old(wr.sent), wr.sent)
    {
      if err.Some? {
        return err;
      }
      if n == 0 {
        return None;
      }
      ghost var held := buf[..n];
      var k, we := wr.Write(buf[..n]);
      Flushed(old(wr.sent), held, k);
      if k < n && we.None? {
        we := Some(ErrShortWrite);
      }
      if we.Some? {
        if 0 < k < n {
          forall i | 0 <= i < n - k {
            buf[i] := buf[k + i];
          }
        }
        n, err := n - k, we;
        assert buf[..n] == held[k..];
        return we;
      }
      n := 0;
      return None;
    }

    /** Copy as much of p as fits behind the buffered bytes. */
    method Put(p: Bytes) returns (k: nat)
      requires Valid()
      modifies this`n, this`accepted, buf
      ensures Valid() && k == (if |p| < buf.Length - old(n) then |p| else buf.Length - old(n))
      ensures n == old(n) + k && accepted == old(accepted) + p[..k]
    {
      k := if |p| < buf.Length - n then |p| else buf.Length - n;
      ghost var held := buf[..n];
      forall i | 0 <= i < k {
        buf[n + i] := p[i];
      }
      assert buf[..n + k] == held + p[..k];
      Appended(wr.sent, held, base, accepted, p[..k]);
      n, accepted := n + k, accepted + p[..k];
    }

    /** Hand p to the sink directly, past an empty buffer. */
    method PassThrough(p: Bytes) returns (k: nat)
      requires Valid() && err.None? && n == 0
      modifies this`err, this`accepted, wr
      ensures Valid() && k <= |p| && accepted == old(accepted) + p[..k] && (k < |p| ==> err.Some?)
      ensures Grown(old(wr.sent), wr.sent)
    {
      k, err := wr.Write(p);
      Appended(old(wr.sent), [], base, accepted, p[..k]);
      assert buf[..0] == [];
      accepted := accepted + p[..k];
    }

    /** One turn of a write that does not fit: straight to the sink, or through the buffer. */
    method Pour(q: Bytes, direct: bool) returns (k: nat)
      requires Valid() && err.None? && |q| > buf.Length - n && (direct ==> n == 0)
      modifies this`err, this`n, this`accepted, buf, wr
      ensures Valid() && k <= |q| && accepted == old(accepted) + q[..k] && Grown(old(wr.sent), wr.sent)
      ensures err.None? ==> k > 0 || n < old(n)
    {
      if direct {
        k := PassThrough(q);
      } else {
        k := Put(q);
        var _ := Flush();
      }
    }

    method Write(p: Bytes) returns (nn: nat, e: Option<Error>)
      requires Valid()
      modifies this`err, this`n, this`accepted, buf, wr
      ensures Valid() && e == err && nn <= |p| && accepted == old(accepted) + p[..nn]
      ensures (nn < |p| ==> e.Some?) && Grown(old(wr.sent), wr.sent)
      ensures old(err).Some? ==> e == old(err) && nn == 0 && wr.sent == old(wr.sent) && n == old(n)
    {
      hide Grown;
      GrownSame(wr.sent);
      nn := 0;
      var q := p;
      assert p[0..] == p && p[..0] == [];
      while |q| > buf.Length - n && err.None?
        invariant Valid() && nn <= |p| && q == p[nn..] && accepted == old(accepted) + p[..nn]
        invariant old(err).Some? ==> nn == 0 && err == old(err) && wr.sent == old(wr.sent) && n == old(n)
        invariant Grown(old(wr.sent), wr.sent)
        decreases err.None?, |q|, n
      {
        ghost var before := wr.sent;
        var k := Pour(q, n == 0);
        Further(old(accepted), p, nn, k);
        GrownOn(old(wr.sent), before, wr.sent);
        nn, q := nn + k, q[k..];
      }
      if err.Some? {
        return nn, err;
      }
      var k := Put(q);
      Further(old(accepted), p, nn, k);
      return nn + k, None;
    }

    method WriteString(s: Bytes) returns (nn: nat, e: Option<Error>)
      requires Valid()
      modifies this`err, this`n, this`accepted, buf, wr
      ensures Valid() && e == err && nn <= |s| && accepted == old(accepted) + s[..nn]
      ensures (nn < |s| ==> e.Some?) && Grown(old(wr.sent), wr.sent)
      ensures old(err).Some? ==> e == old(err) && nn == 0 && wr.sent == old(wr.sent) && n == old(n)
    {
      hide Grown;
      GrownSame(wr.sent);
      nn := 0;
      var q := s;
      assert s[0..] == s && s[..0] == [];
      while |q| > buf.Length - n && err.None?
        invariant Valid() && nn <= |s| && q == s[nn..] && accepted == old(accepted) + s[..nn]
        invariant old(err).Some? ==> nn == 0 && err == old(err) && wr.sent == old(wr.sent) && n == old(n)
        invariant Grown(old(wr.sent), wr.sent)
        decreases err.None?, |q|, n
      {
        ghost var before := wr.sent;
        var k := Pour(q, n == 0 && wr.stringWriter);
        Further(old(accepted), s, nn, k);
        GrownOn(old(wr.sent), before, wr.sent);
        nn, q := nn + k, q[k..];
      }
      if err.Some? {
        return nn, err;
      }
      var k := Put(q);
      Further(old(accepted), s, nn, k);
      return nn + k, None;
    }

    method WriteByte(c: Byte) returns (e: Option<Error>)
      requires Valid()
      modifies this`err, this`n, this`accepted, buf, wr
      ensures Valid() && e == err
      ensures accepted == if e.None? then old(accepted) + [c] else old(accepted)
      ensures Grown(old(wr.sent), wr.sent)
      ensures old(err).Some? ==> e == old(err) && wr.sent == old(wr.sent) && n == old(n)
    {
      if err.Some? {
        return err;
      }
      if buf.Length - n <= 0 {
        e := Flush();
        if e.Some? {
          return err;
        }
      }
      var k := Put([c]);
      assert [c][..1] == [c];
      return None;
    }

    /** ReadFrom: everything taken from the source is accepted, and only the end of the source
        or an error ends it. */
    method ReadFrom(src: Source) returns (total: nat, e: Option<Error>, ghost d: Bytes)
      requires Valid() && Proper(src.rest)
      modifies this`err, this`n, this`accepted, buf, wr, src
      ensures Valid() && Proper(src.rest) && total == |d| && accepted == old(accepted) + d
      ensures Drew(e, old(src.rest), d, src.rest) && old(BytesOf(src.rest)) == d + BytesOf(src.rest)
      ensures Grown(old(wr.sent), wr.sent)
      ensures old(err).Some? ==> e == old(err) == err && d == [] && wr.sent == old(wr.sent) && n == old(n)
      ensures old(err).Some? ==> src.rest == old(src.rest)
      ensures err.Some? ==> e == err
      ensures e.Some? && err.None? ==>
        if e == Some(ErrNoProgress) then src.stalled else old(src.rest) == Datas(d) + [Fault(e.value)] + src.rest
    {
      hide BytesOf, Proper, Datas;
      total, d := 0, [];
      NothingYet(src.rest);
      if err.Some? {
        DrewBytes(err, old(src.rest), d, src.rest);
        return total, err, d;
      }
      while true
        invariant Valid() && Proper(src.rest) && err.None? && total == |d| && accepted == old(accepted) + d
        invariant old(src.rest) == Datas(d) + src.rest && Grown(old(wr.sent), wr.sent)
        decreases |src.rest|
      {
        if buf.Length - n == 0 {
          ghost var sent := wr.sent;
          e := Flush();
          GrownOn(old(wr.sent), sent, wr.sent);
          if e.Some? {
            DrewBytes(e, old(src.rest), d, src.rest);
            return;
          }
        }
        ghost var before, sent := src.rest, wr.sent;
        if wr.readerFrom && n == 0 {
          var k, x := Delegate(src);
          GrownOn(old(wr.sent), sent, wr.sent);
          Regroup(old(accepted), d, x);
          DrewMore(err, old(src.rest), d, before, x, src.rest);
          DrewBytes(err, old(src.rest), d + x, src.rest);
          return total + k, err, d + x;
        }
        var m;
        ghost var x, given;
        m, e, x, given := Take(src);
        TookMore(e, old(src.rest), d, before, x, given, src.rest);
        Regroup(old(accepted), d, x);
        total, d := total + m, d + x;
        if e.Some? {
          break;
        }
      }
      if e == Some(EOF) {
        DrewEnd(old(src.rest), d, src.rest);
        if buf.Length - n == 0 {
          ghost var sent := wr.sent;
          e := Flush();
          GrownOn(old(wr.sent), sent, wr.sent);
        } else {
          e := None;
        }
      }
      DrewBytes(e, old(src.rest), d, src.rest);
    }

    method Delegate(src: Source) returns (k: nat, ghost x: Bytes)
      requires Valid() && err.None? && n == 0 && Proper(src.rest)
      modifies this`err, this`accepted, wr, src
      ensures Valid() && Proper(src.rest) && k == |x| && accepted == old(accepted) + x
      ensures Drew(err, old(src.rest), x, src.rest) && Grown(old(wr.sent), wr.sent)
    {
      hide Drew;
      k, err, x := wr.ReadFrom(src);
      Appended(old(wr.sent), [], base, accepted, x);
      assert buf[..0] == [];
      accepted := accepted + x;
    }

    /** Read into the free part of the buffer, putting up with a limited number of empty reads. */
    method Take(src: Source) returns (m: nat, e: Option<Error>, ghost x: Bytes, ghost given: seq<Item>)
      requires Valid() && err.None? && n < buf.Length && Proper(src.rest)
      modifies this`n, this`accepted, buf, src
      ensures Valid() && Proper(src.rest) && m == |x| && accepted == old(accepted) + x
      ensures old(src.rest) == Datas(x) + given + src.rest
      ensures Reports(e, given, src.rest) || (e == Some(ErrNoProgress) && given == [])
      ensures e.Some? || |src.rest| < |old(src.rest)|
      ensures e == Some(ErrNoProgress) ==> src.stalled
      ensures e.Some? && e != Some(ErrNoProgress) ==> given == [Fault(e.value)] || (given == [] && e == Some(EOF))
    {
      var nr := 0;
      while nr < MAX_EMPTY_READS
        invariant Valid() && Proper(src.rest) && n == old(n) && accepted == old(accepted) && src.rest == old(src.rest)
        invariant nr <= MAX_EMPTY_READS && src.idle >= nr && (nr == MAX_EMPTY_READS ==> src.stalled)
      {
        ghost var before, held := src.rest, buf[..n];
        m, e, given := src.Read(buf, n, buf.Length);
        x := buf[n..n + m];
        TakenLengths(before, x, given, src.rest, e);
        if m != 0 || e.Some? {
          assert buf[..n + m] == held + x;
          Appended(wr.sent, held, base, accepted, x);
          n, accepted := n + m, accepted + x;
          return;
        }
        nr := nr + 1;
      }
      m, e, x, given := 0, Some(ErrNoProgress), [], [];
      assert accepted + x == accepted;
      NothingYet(src.rest);
    }
  }

  predicate Grown(before: Bytes, after: Bytes) { before <= after }

  lemma GrownSame(a: Bytes)
    ensures Grown(a, a)
  {
  }

  lemma GrownOn(a: Bytes, b: Bytes, c: Bytes)
    requires Grown(a, b) && Grown(b, c)
    ensures Grown(a, c)
  {
  }

  /** Bytes appended to what is buffered or sent are bytes appended to the account. */
  lemma Appended(sent: Bytes, held: Bytes, base: Bytes, accepted: Bytes, x: Bytes)
    requires sent + held == base + accepted
    ensures sent + (held + x) == base + (accepted + x)
    ensures held == [] ==> sent + x + held == base + (accepted + x)
  {
    assert sent + (held + x) == sent + held + x;
    assert base + (accepted + x) == base + accepted + x;
  }

  /** What was drawn before, and one more draw. */
  lemma DrewMore(err: Option<Error>, all: seq<Item>, d: Bytes, before: seq<Item>, x: Bytes, after: seq<Item>)
    requires all == Datas(d) + before && Drew(err, before, x, after)
    ensures Drew(err, all, d + x, after)
  {
    DatasConcat(d, x);
    hide Datas;
    if before == Datas(x) + after {
      assert all == Datas(d + x) + after;
    } else if before == Datas(x) && after == [] {
      assert all == Datas(d + x);
    } else {
      var e :| before == Datas(x) + [Fault(e)] + after && (err.None? ==> e == EOF);
      assert all == Datas(d + x) + [Fault(e)] + after;
    }
  }

  lemma TookMore(e: Option<Error>, all: seq<Item>, d: Bytes, before: seq<Item>, x: Bytes, given: seq<Item>,
      after: seq<Item>)
    requires all == Datas(d) + before && before == Datas(x) + given + after
    requires Reports(e, given, after) || (e == Some(ErrNoProgress) && given == [])
    ensures e.None? ==> all == Datas(d + x) + after
    ensures e.Some? ==> Drew(e, all, d + x, after)
    ensures e == Some(EOF) ==> Drew(None, all, d + x, after)
  {
    DatasConcat(d, x);
    hide Datas;
    assert all == Datas(d + x) + given + after;
    if given == [] {
      assert all == Datas(d + x) + after;
      assert after == [] ==> all == Datas(d + x);
    }
  }

  /** The end of the source may be reported as success or with another error. */
  lemma DrewEnd(all: seq<Item>, d: Bytes, after: seq<Item>)
    requires Drew(None, all, d, after)
    ensures forall e :: Drew(e, all, d, after)
  {
    hide Datas;
    if all == Datas(d) && after == [] {
      assert all == Datas(d) + after;
    }
  }

  lemma TakenLengths(before: seq<Item>, x: Bytes, given: seq<Item>, after: seq<Item>, e: Option<Error>)
    requires before == Datas(x) + given + after && Reports(e, given, after)
    ensures x == [] && e.None? ==> before == after
    ensures |before| == |x| + |given| + |after|
  {
  }

  lemma Flushed(sent: Bytes, held: Bytes, k: nat)
    requires k <= |held|
    ensures sent + held == sent + held[..k] + held[k..]
    ensures k == |held| ==> sent + held == sent + held[..k] + []
  {
    assert held == held[..k] + held[k..];
  }

  /** One more piece of p, after the first nn bytes. */
  lemma Further(acc: Bytes, p: Bytes, nn: nat, k: nat)
    requires nn + k <= |p|
    ensures p[nn..][k..] == p[nn + k..]
    ensures acc + p[..nn] + p[nn..][..k] == acc + p[..nn + k]
  {
    assert p[..nn + k] == p[..nn] + p[nn..][..k];
  }
}
