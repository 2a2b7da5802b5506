/**
 * The contract of io.Reader, as the code that reads from one may rely on it.
 *
 * A source still has a sequence of items to deliver: bytes, and errors in between. Each
 * Read hands over some of the bytes next in line, and possibly the error that directly
 * follows them; it may deliver less than asked for, nothing at all, and may use the whole
 * slice as scratch space. After the last item the answer is EOF or nothing.
 */
module IoSource {
  import opened Prelude

  const CR: Byte := 13
  const NEWLINE: Byte := 10

  /** How many empty reads in a row the buffering code puts up with. */
  const MAX_EMPTY_READS: nat := 100

  datatype Error =
    | EOF | Other(code: int)
    | ErrNoProgress | ErrBufferFull | ErrNegativeCount | ErrInvalidUnreadByte | ErrTooLong | ErrShortWrite

  /** Errors a source may report: not the ones the buffering code makes up itself. */
  predicate Own(e: Error) { e.EOF? || e.Other? }

  datatype Item = Data(b: Byte) | Fault(e: Error)

  predicate Proper(items: seq<Item>) {
    forall i :: 0 <= i < |items| && items[i].Fault? ==> Own(items[i].e)
  }

  function Datas(s: Bytes): (items: seq<Item>)
    ensures |items| == |s|
    ensures forall i :: 0 <= i < |s| ==> items[i] == Data(s[i])
  {
    seq(|s|, i requires 0 <= i < |s| => Data(s[i]))
  }

  /** The bytes among the items. */
  function BytesOf(items: seq<Item>): Bytes {
    if items == [] then []
    else (if items[0].Data? then [items[0].b] else []) + BytesOf(items[1..])
  }

  lemma {:induction false} BytesOfConcat(a: seq<Item>, b: seq<Item>)
    ensures BytesOf(a + b) == BytesOf(a) + BytesOf(b)
  {
    if a == [] {
      assert a + b == b;
    } else {
      assert (a + b)[1..] == a[1..] + b;
      BytesOfConcat(a[1..], b);
      var head := if a[0].Data? then [a[0].b] else [];
      assert head + (BytesOf(a[1..]) + BytesOf(b)) == head + BytesOf(a[1..]) + BytesOf(b);
    }
  }

  lemma {:induction false} BytesOfDatas(s: Bytes)
    ensures BytesOf(Datas(s)) == s
  {
    if s != [] {
      assert Datas(s)[1..] == Datas(s[1..]);
      BytesOfDatas(s[1..]);
    }
  }

  lemma DatasConcat(a: Bytes, b: Bytes)
    ensures Datas(a + b) == Datas(a) + Datas(b)
  {
  }

  /** What an error returned together with some bytes says about the items. */
  ghost predicate Reports(err: Option<Error>, given: seq<Item>, rest: seq<Item>) {
    match err
    case None => given == []
    case Some(e) => given == [Fault(e)] || (given == [] && e.EOF? && rest == [])
  }

  class Source {
    var rest: seq<Item>
    /** How often it has been read, how many of the last reads in a row gave nothing, and whether it
        ever gave nothing for MAX_EMPTY_READS times in a row. */
    ghost var calls: nat
    ghost var idle: nat
    ghost var stalled: bool

    constructor (items: seq<Item>)
      requires Proper(items)
      ensures rest == items && calls == 0 && idle == 0 && !stalled
    {
      rest := items;
      calls, idle, stalled := 0, 0, false;
    }

    /** Read(p[lo:hi]) */
    method Read(p: array<Byte>, lo: nat, hi: nat) returns (n: nat, err: Option<Error>, ghost given: seq<Item>)
      requires lo <= hi <= p.Length && Proper(rest)
      modifies this, p
      ensures n <= hi - lo && Proper(rest) && Proper(given)
      ensures p[..lo] == old(p[..lo]) && p[hi..] == old(p[hi..])
      ensures old(rest) == Datas(p[lo..lo + n]) + given + rest
      ensures Reports(err, given, rest) && (err.Some? ==> Own(err.value))
      ensures calls == old(calls) + 1 && idle == (if n == 0 && err.None? then old(idle) + 1 else 0)
      ensures stalled == (old(stalled) || idle >= MAX_EMPTY_READS)
    {
      hide Datas, Proper;
      n := Deliver(p, lo, hi);
      Delivered(old(rest), p[lo..lo + n], rest);
      err, given := None, [];
      if * {
        if rest == [] {
          err := Some(EOF);
        } else if rest[0].Fault? {
          err, given := Some(rest[0].e), [rest[0]];
          rest := rest[1..];
        }
      }
      calls, idle := calls + 1, if n == 0 && err.None? then idle + 1 else 0;
      stalled := stalled || idle >= MAX_EMPTY_READS;
    }

    /** Some of the bytes next in line, as many as fit at most. */
    method Deliver(p: array<Byte>, lo: nat, hi: nat) returns (n: nat)
      requires lo <= hi <= p.Length && Proper(rest)
      modifies this`rest, p
      ensures n <= hi - lo && Proper(rest)
      ensures p[..lo] == old(p[..lo]) && p[hi..] == old(p[hi..])
      ensures old(rest) == Datas(p[lo..lo + n]) + rest
    {
      n :| n <= hi - lo && n <= |rest| && forall i :: 0 <= i < n ==> rest[i].Data?;
      forall i | lo <= i < lo + n {
        p[i] := rest[i - lo].b;
      }
      assert p[..lo] == old(p[..lo]) && p[hi..] == old(p[hi..]);
      FrontItems(rest, n, p[lo..lo + n]);
      rest := rest[n..];
    }
  }

  lemma FrontItems(items: seq<Item>, n: nat, d: Bytes)
    requires n == |d| <= |items| && forall i :: 0 <= i < n ==> items[i] == Data(d[i])
    ensures items == Datas(d) + items[n..]
    ensures Proper(items) ==> Proper(items[n..])
  {
    assert items[..n] == Datas(d);
  }

  /** The bytes delivered, alone or with the error behind them. */
  lemma Delivered(before: seq<Item>, d: Bytes, rest: seq<Item>)
    requires before == Datas(d) + rest && Proper(rest)
    ensures before == Datas(d) + [] + rest && Proper([])
    ensures rest != [] ==> before == Datas(d) + [rest[0]] + rest[1..]
    ensures rest != [] ==> Proper(rest[1..]) && Proper([rest[0]]) && (rest[0].Fault? ==> Own(rest[0].e))
  {
    if rest != [] {
      assert rest == [rest[0]] + rest[1..];
    }
  }
}
