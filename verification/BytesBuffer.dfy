/**
 * bytes.Buffer: a byte queue kept in one growing slice.
 *
 * Sizes are Go's int: every sum and difference below is checked to stay in range. written
 * and consumed are all the bytes put in and taken out so far; the invariant says that
 * written is consumed followed by the unread part, through reslicing, sliding and
 * reallocation, and that the bytes before off are the ones consumed last.
 */
module BytesBuffer {
  import opened Prelude
  import opened IoSource

  newtype Int = x: int | -0x8000_0000_0000_0000 <= x < 0x8000_0000_0000_0000

  const SMALL_BUFFER_SIZE: Int := 64
  const MIN_READ: Int := 512

  datatype Panic = TooLarge | OutOfRange | NegativeCount

  /** make and append: no memory, or at least the size asked for. */
  method Allocate(c: Int) returns (fail: bool, a: array<Byte>)
    requires 0 <= c
    ensures fresh(a) && (!fail ==> c as int <= a.Length <= MAX_INT)
  {
    if * {
      a := new Byte[0];
      return true, a;
    }
    var size: int :| c as int <= size <= MAX_INT;
    a := new Byte[size](_ => 0);
    return false, a;
  }

  /** Extensionality, once for all slices of arrays. */
  lemma Sliced(s: Bytes, i: nat, j: nat, k: nat)
    requires i <= j <= k <= |s|
    ensures s[i..j] + s[j..k] == s[i..k]
  {
  }

  /** t ends in s. */
  predicate EndsIn(t: Bytes, s: Bytes) {
    |s| <= |t| && t[|t| - |s|..] == s
  }

  lemma EndsInMore(t: Bytes, s: Bytes, u: Bytes)
    requires EndsIn(t, s)
    ensures EndsIn(t + u, s + u)
  {
    assert (t + u)[|t + u| - |s + u|..] == t[|t| - |s|..] + u;
  }

  lemma EndsInLess(t: Bytes, s: Bytes)
    requires EndsIn(t, s) && s != []
    ensures t != [] && t[|t| - 1] == s[|s| - 1] && EndsIn(t[..|t| - 1], s[..|s| - 1])
  {
    assert t[|t| - |s|..][|s| - 1] == s[|s| - 1];
    assert t[..|t| - 1][|t| - |s|..] == t[|t| - |s|..][..|s| - 1];
  }

  lemma Cut(s: Bytes, off: nat, end: nat, length: nat)
    requires off <= end <= length <= |s|
    ensures s[off..length][..end - off] == s[off..end] && s[off..length][end - off..] == s[end..length]
    ensures s[off..length] == s[off..end] + s[end..length]
  {
  }

  /** What the first delimiter at i, or none, says about the line cut off there. */
  lemma LineCut(s: Bytes, off: nat, i: int, end: nat, length: nat, delim: Byte)
    requires off <= length <= |s| && -1 <= i < length - off && end == if i < 0 then length else off + i + 1
    requires i < 0 ==> forall k :: 0 <= k < length - off ==> s[off..length][k] != delim
    requires i >= 0 ==> s[off..length][i] == delim && forall k :: 0 <= k < i ==> s[off..length][k] != delim
    ensures s[off..length][..end - off] == s[off..end] && s[off..length][end - off..] == s[end..length]
    ensures s[off..length] == s[off..end] + s[end..length]
    ensures forall k :: 0 <= k < end - off - 1 ==> s[off..end][k] != delim
    ensures i >= 0 <==> end > off && s[off..end][end - off - 1] == delim
    ensures i < 0 ==> s[end..length] == []
  {
    Cut(s, off, end, length);
    forall k | 0 <= k < end - off
      ensures s[off..end][k] == s[off..length][k]
    {
    }
  }

  /** n more bytes consumed. */
  lemma Advanced(s: Bytes, off: nat, n: nat, length: nat, consumed: Bytes)
    requires off + n <= length <= |s| && EndsIn(consumed, s[..off])
    ensures s[off..length][..n] == s[off..off + n] && s[off..length][n..] == s[off + n..length]
    ensures consumed + s[off..length] == consumed + s[off..off + n] + s[off + n..length]
    ensures EndsIn(consumed + s[off..off + n], s[..off + n])
  {
    EndsInMore(consumed, s[..off], s[off..off + n]);
    hide EndsIn;
    Cut(s, off, off + n, length);
    assert s[..off] + s[off..off + n] == s[..off + n];
    Regroup(consumed, s[off..off + n], s[off + n..length]);
  }

  /** The last byte consumed unread again. */
  lemma PutBack(s: Bytes, off: nat, length: nat, consumed: Bytes)
    requires 0 < off <= length <= |s| && EndsIn(consumed, s[..off])
    ensures consumed != [] && s[off - 1..length] == [consumed[|consumed| - 1]] + s[off..length]
    ensures consumed + s[off..length] == consumed[..|consumed| - 1] + s[off - 1..length]
    ensures EndsIn(consumed[..|consumed| - 1], s[..off - 1])
  {
    EndsInLess(consumed, s[..off]);
    hide EndsIn;
    assert s[..off][..off - 1] == s[..off - 1] && s[..off][off - 1] == s[off - 1];
    var front, last := consumed[..|consumed| - 1], consumed[|consumed| - 1];
    assert consumed == front + [last];
    assert s[off - 1..length] == [last] + s[off..length];
    Regroup(front, [last], s[off..length]);
  }

  class Buffer {
    var buf: array<Byte>
    var isNil: bool
    var length: Int
    var off: Int
    var lastRead: bool
    ghost var written: Bytes
    ghost var consumed: Bytes
    /** An allocation has failed. */
    ghost var refused: bool

    /** Indices in range. */
    ghost predicate Shaped()
      reads this
    {
      && 0 <= off <= length && length as int <= buf.Length <= MAX_INT
      && (isNil ==> buf.Length == 0)
    }

    ghost function Unread(): Bytes
      requires Shaped()
      reads this, buf
    {
      buf[off..length]
    }

    ghost predicate Valid()
      reads this, buf
    {
      && Shaped()
      && written == consumed + Unread()
      && EndsIn(consumed, buf[..off])
    }

    /** UnreadByte will put a byte back. */
    ghost predicate CanUnread()
      reads this
    {
      lastRead && off > 0
    }

    constructor ()
      ensures Valid() && fresh(buf) && Unread() == [] && consumed == [] && !lastRead && off == 0 && !refused
    {
      buf := new Byte[0];
      isNil, length, off, lastRead := true, 0, 0, false;
      written, consumed, refused := [], [], false;
    }

    /** Drop the unread bytes; they count as never written. */
    method Reset()
      requires Valid()
      modifies this
      ensures Valid() && Unread() == [] && consumed == old(consumed) && buf == old(buf) && isNil == old(isNil)
      ensures !lastRead && off == 0 && length == 0 && refused == old(refused)
    {
      length, off, lastRead := 0, 0, false;
      written := consumed;
      assert buf[..0] == [] && EndsIn(consumed, []);
    }

    /** Keep the first n unread bytes. */
    method Truncate(n: Int) returns (panic: Option<Panic>)
      requires Valid()
      modifies this
      ensures Valid() && buf == old(buf) && consumed == old(consumed) && !lastRead
      ensures panic.Some? <==> n < 0 || n as int > |old(Unread())|
      ensures panic.Some? ==> panic == Some(OutOfRange) && Unread() == old(Unread()) && written == old(written)
      ensures panic.None? ==> Unread() == old(Unread())[..n]
    {
      if n == 0 {
        Reset();
        return None;
      }
      lastRead := false;
      if n < 0 || n > length - off {
        return Some(OutOfRange);
      }
      Cut(buf[..], off as int, off as int + n as int, length as int);
      hide EndsIn;
      length := off + n;
      written := consumed + buf[off..length];
      return None;
    }

    /** Fast path of growing: lengthen the slice within its capacity. */
    method TryGrowByReslice(n: Int) returns (i: Int, ok: bool)
      requires Shaped() && 0 <= n
      modifies this`length
      ensures Shaped() && (ok <==> n as int <= buf.Length - old(length) as int)
      ensures ok ==> i == old(length) && length as int == i as int + n as int
      ensures !ok ==> length == old(length)
    {
      if n <= buf.Length as Int - length {
        i := length;
        length := length + n;
        return i, true;
      }
      return 0, false;
    }

    /** grow: room for n more bytes after the unread ones, which stay as they are. The caller
        fills [i, i + n). */
    method Reserve(n: Int) returns (i: Int, panic: Option<Panic>)
      requires Valid() && 0 <= n
      modifies this, buf
      ensures written == old(written) && consumed == old(consumed) && (buf == old(buf) || fresh(buf))
      ensures panic.Some? ==> panic == Some(TooLarge) && Valid() && Unread() == old(Unread())
      ensures panic.Some? ==> refused || 2 * old(buf.Length) + n as int > MAX_INT
      ensures (old(refused) ==> refused) && (panic.Some? ==> buf == old(buf))
      ensures panic.None? ==>
        && Shaped() && off <= i && length as int == i as int + n as int
        && buf[off..i] == old(Unread()) && EndsIn(consumed, buf[..off])
      ensures n as int <= old(buf.Length) - old(length) as int ==> panic.None? && buf == old(buf)
      ensures panic.None? ==>
        (CanUnread() <==> old(CanUnread()) && old(off < length) && n as int <= old(buf.Length) - old(length) as int)
      ensures old(off < length) ==> lastRead == old(lastRead)
      ensures lastRead ==> old(lastRead)
    {
      var m := length - off;
      if m == 0 && off != 0 {
        Reset();
      }
      assert Unread() == old(Unread());
      var ok;
      i, ok := TryGrowByReslice(n);
      if ok {
        return i, None;
      }
      i, panic := Relocate(n, m);
    }

    /** The slow path: the unread bytes move to the front of a slice with room for n more. */
    method Relocate(n: Int, m: Int) returns (i: Int, panic: Option<Panic>)
      requires Valid() && 0 <= n && m == length - off && n as int > buf.Length - length as int
      modifies this`buf, this`isNil, this`length, this`off, this`refused, buf
      ensures buf == old(buf) || fresh(buf)
      ensures panic.Some? ==> panic == Some(TooLarge) && Valid() && Unread() == old(Unread())
      ensures panic.Some? ==> refused || 2 * old(buf.Length) + n as int > MAX_INT
      ensures (old(refused) ==> refused) && (panic.Some? ==> buf == old(buf))
      ensures panic.None? ==>
        && Shaped() && off == 0 && i == m && length as int == i as int + n as int
        && buf[0..i] == old(Unread())
    {
      if isNil && n <= SMALL_BUFFER_SIZE {
        buf := new Byte[SMALL_BUFFER_SIZE](_ => 0);
        isNil, length := false, n;
        return 0, None;
      }
      panic := MakeRoom(n, m);
      if panic.Some? {
        return 0, panic;
      }
      off := 0;
      length := m + n;
      return m, None;
    }

    /** The unread bytes go to the front of the slice, or of a larger one. */
    method MakeRoom(n: Int, m: Int) returns (panic: Option<Panic>)
      requires Valid() && 0 <= n && m == length - off && n as int > buf.Length - length as int
      modifies this`buf, this`isNil, this`refused, buf
      ensures buf == old(buf) || fresh(buf)
      ensures panic.Some? ==> panic == Some(TooLarge)
      ensures panic.Some? ==> refused || 2 * old(buf.Length) + n as int > MAX_INT
      ensures old(refused) ==> refused
      ensures panic.Some? ==> buf == old(buf) && isNil == old(isNil) && buf[..] == old(buf[..])
      ensures panic.None? ==>
        && m as int + n as int <= buf.Length <= MAX_INT && !isNil
        && buf[..m] == old(Unread())
    {
      var c := buf.Length as Int;
      if n <= c / 2 - m {
        SlideDown(m);
      } else if c > MAX_INT as Int - c - n {
        return Some(TooLarge);
      } else {
        panic := GrowSlice(m, off + n);
        if panic.Some? {
          return panic;
        }
      }
      isNil := false;
      return None;
    }

    /** copy(b.buf, b.buf[b.off:]) */
    method SlideDown(m: Int)
      requires Shaped() && m == length - off
      modifies buf
      ensures buf[..m] == old(buf[off..length])
    {
      ghost var was := buf[..];
      forall k | 0 <= k < m as int {
        buf[k] := buf[off as int + k];
      }
      assert buf[..m] == was[off..length];
    }

    /** growSlice on buf[off:] */
    method GrowSlice(m: Int, n: Int) returns (panic: Option<Panic>)
      requires Shaped() && m == length - off && 0 <= n
      requires n as int + m as int <= MAX_INT && 2 * (buf.Length - off as int) <= MAX_INT
      modifies this`buf, this`refused
      ensures buf == old(buf) || fresh(buf)
      ensures panic.Some? ==> panic == Some(TooLarge) && buf == old(buf) && refused
      ensures old(refused) ==> refused
      ensures panic.None? ==> m as int + n as int <= buf.Length <= MAX_INT && buf[..m] == old(buf[off..length])
    {
      var c := m + n;
      if c < 2 * (buf.Length as Int - off) {
        c := 2 * (buf.Length as Int - off);
      }
      var fail, larger := Allocate(c);
      if fail {
        refused := true;
        return Some(TooLarge);
      }
      forall k | 0 <= k < m as int {
        larger[k] := buf[off as int + k];
      }
      assert larger[..m] == buf[off..length];
      buf := larger;
      return None;
    }

    /** Grow: after it n bytes can be written without another allocation. */
    method Grow(n: Int) returns (panic: Option<Panic>)
      requires Valid()
      modifies this, buf
      ensures Valid() && Unread() == old(Unread()) && written == old(written) && consumed == old(consumed)
      ensures buf == old(buf) || fresh(buf)
      ensures panic == Some(NegativeCount) <==> n < 0
      ensures panic.Some? && n >= 0 ==> refused || 2 * old(buf.Length) + n as int > MAX_INT
      ensures panic.None? ==> n as int <= buf.Length - length as int
      ensures panic.None? ==>
        (CanUnread() <==> old(CanUnread()) && old(off < length) && n as int <= old(buf.Length) - old(length) as int)
      ensures old(off < length) ==> lastRead == old(lastRead)
    {
      hide EndsIn;
      if n < 0 {
        return Some(NegativeCount);
      }
      var m;
      m, panic := Reserve(n);
      if panic.Some? {
        return panic;
      }
      length := m;
    }

    method Write(p: Bytes) returns (n: Int, panic: Option<Panic>)
      requires Valid() && |p| <= MAX_INT
      modifies this, buf
      ensures Valid() && consumed == old(consumed) && !lastRead && (buf == old(buf) || fresh(buf))
      ensures panic.None? ==> n as int == |p| && Unread() == old(Unread()) + p && written == old(written) + p
      ensures panic.Some? ==> panic == Some(TooLarge) && Unread() == old(Unread()) && written == old(written)
      ensures panic.Some? ==> refused || 2 * old(buf.Length) + |p| > MAX_INT
      ensures |p| <= old(buf.Length) - old(length) as int ==> panic.None? && buf == old(buf)
    {
      lastRead := false;
      var m, ok := TryGrowByReslice(|p| as Int);
      if !ok {
        m, panic := Reserve(|p| as Int);
        if panic.Some? {
          return 0, panic;
        }
      }
      Place(m, p);
      return |p| as Int, None;
    }

    /** copy(b.buf[m:], p) into the room made for it. */
    method Place(m: Int, p: Bytes)
      requires Shaped() && off <= m && length as int == m as int + |p|
      requires written == consumed + buf[off..m] && EndsIn(consumed, buf[..off])
      modifies this`written, buf
      ensures Valid() && Unread() == old(buf[off..m]) + p && written == old(written) + p
    {
      forall k | 0 <= k < |p| {
        buf[m as int + k] := p[k];
      }
      assert buf[..off] == old(buf[..off]);
      assert buf[off..m] == old(buf[off..m]) && buf[m..length] == p;
      Sliced(buf[..length], off as int, m as int, length as int);
      assert Unread() == old(buf[off..m]) + p;
      Regroup(consumed, old(buf[off..m]), p);
      written := written + p;
    }

    method WriteByte(c: Byte) returns (panic: Option<Panic>)
      requires Valid()
      modifies this, buf
      ensures Valid() && consumed == old(consumed) && !lastRead && (buf == old(buf) || fresh(buf))
      ensures panic.None? ==> Unread() == old(Unread()) + [c] && written == old(written) + [c]
      ensures panic.Some? ==> panic == Some(TooLarge) && Unread() == old(Unread()) && written == old(written)
      ensures panic.Some? ==> refused || 2 * old(buf.Length) + 1 > MAX_INT
    {
      lastRead := false;
      var m, ok := TryGrowByReslice(1);
      if !ok {
        m, panic := Reserve(1);
        if panic.Some? {
          return panic;
        }
      }
      Place(m, [c]);
      return None;
    }

    /** Move n unread bytes over to the consumed ones. */
    method Advance(n: Int)
      requires Valid() && 0 <= n <= length - off
      modifies this`off, this`consumed
      ensures Valid() && off == old(off) + n
      ensures consumed == old(consumed) + old(Unread())[..n] && Unread() == old(Unread())[n..]
    {
      Advanced(buf[..], off as int, n as int, length as int, consumed);
      hide EndsIn;
      ghost var moved := buf[off..off + n];
      off := off + n;
      consumed := consumed + moved;
    }

    /** copy(p, b.buf[b.off:]) */
    method CopyOut(p: array<Byte>) returns (n: Int)
      requires Valid() && p != buf && p.Length <= MAX_INT
      modifies p
      ensures 0 <= n && n as int == if p.Length < |Unread()| then p.Length else |Unread()|
      ensures p[..n] == Unread()[..n] && p[n..] == old(p[n..])
    {
      hide EndsIn;
      n := if p.Length as Int < length - off then p.Length as Int else length - off;
      forall k | 0 <= k < n as int {
        p[k] := buf[off as int + k];
      }
      assert p[..n] == Unread()[..n];
    }

    method Read(p: array<Byte>) returns (n: Int, err: Option<Error>)
      requires Valid() && p != buf && p.Length <= MAX_INT
      modifies this, p
      ensures Valid() && buf == old(buf) && written == old(written)
      ensures 0 <= n && n as int == if p.Length < |old(Unread())| then p.Length else |old(Unread())|
      ensures p[..n] == old(Unread())[..n] && p[n..] == old(p[n..])
      ensures consumed == old(consumed) + p[..n] && Unread() == old(Unread())[n..]
      ensures err == if old(Unread()) == [] && p.Length > 0 then Some(EOF) else None
      ensures CanUnread() <==> n > 0
    {
      hide EndsIn;
      lastRead := false;
      if length <= off {
        Reset();
        return 0, if p.Length == 0 then None else Some(EOF);
      }
      n := CopyOut(p);
      Advance(n);
      if n > 0 {
        lastRead := true;
      }
      return n, None;
    }

    method Next(n: Int) returns (data: Bytes, panic: Option<Panic>)
      requires Valid()
      modifies this
      ensures Valid() && buf == old(buf) && written == old(written)
      ensures panic.Some? <==> n < 0
      ensures n < 0 ==> data == []
      ensures n >= 0 ==> data == if n as int < |old(Unread())| then old(Unread())[..n] else old(Unread())
      ensures consumed == old(consumed) + data && Unread() == old(Unread())[|data|..]
      ensures CanUnread() <==> data != []
    {
      lastRead := false;
      var m := length - off;
      var k := if n > m then m else n;
      if k < 0 {
        return [], Some(OutOfRange);
      }
      data := buf[off..off + k];
      Advance(k);
      if k > 0 {
        lastRead := true;
      }
      return data, None;
    }

    method ReadByte() returns (c: Byte, err: Option<Error>)
      requires Valid()
      modifies this
      ensures Valid() && buf == old(buf) && written == old(written)
      ensures old(Unread()) == [] ==> err == Some(EOF) && consumed == old(consumed) && Unread() == []
      ensures old(Unread()) != [] ==>
        err.None? && old(Unread()) == [c] + Unread() && consumed == old(consumed) + [c] && length == old(length)
      ensures CanUnread() <==> err.None?
    {
      if length <= off {
        Reset();
        return 0, Some(EOF);
      }
      c := buf[off];
      assert buf[off..length][..1] == [c];
      Advance(1);
      lastRead := true;
      return c, None;
    }

    /** readSlice: lastRead is set even if nothing was read. */
    method ReadBytes(delim: Byte) returns (line: Bytes, err: Option<Error>)
      requires Valid()
      modifies this
      ensures Valid() && buf == old(buf) && written == old(written)
      ensures old(Unread()) == line + Unread() && consumed == old(consumed) + line
      ensures forall k :: 0 <= k < |line| - 1 ==> line[k] != delim
      ensures err == if line != [] && line[|line| - 1] == delim then None else Some(EOF)
      ensures err.Some? ==> Unread() == []
      ensures lastRead && (CanUnread() <==> old(off) > 0 || line != [])
    {
      hide EndsIn;
      var i := IndexByte(delim);
      var end := if i < 0 then length else off + i + 1;
      err := if i < 0 then Some(EOF) else None;
      line := buf[off..end];
      assert Unread() == buf[..][off..length];
      LineCut(buf[..], off as int, i as int, end as int, length as int, delim);
      Advance(end - off);
      lastRead := true;
    }

    /** The first delimiter among the unread bytes, or -1. */
    method IndexByte(delim: Byte) returns (i: Int)
      requires Valid()
      ensures i < 0 ==> i == -1 && forall k :: 0 <= k < |Unread()| ==> Unread()[k] != delim
      ensures i >= 0 ==> i as int < |Unread()| && Unread()[i] == delim
      ensures forall k :: 0 <= k < i as int ==> Unread()[k] != delim
    {
      hide EndsIn;
      i := 0;
      while i < length - off
        invariant 0 <= i <= length - off
        invariant forall k :: 0 <= k < i as int ==> Unread()[k] != delim
      {
        if buf[off + i] == delim {
          return i;
        }
        i := i + 1;
      }
      return -1;
    }

    /** Puts back exactly the last byte consumed, if any byte before off is left. */
    method UnreadByte() returns (err: Option<Error>)
      requires Valid()
      modifies this
      ensures Valid() && buf == old(buf) && written == old(written) && !lastRead
      ensures err.Some? <==> !old(lastRead)
      ensures old(CanUnread()) ==>
        && old(consumed) != [] && consumed == old(consumed)[..|old(consumed)| - 1]
        && Unread() == [old(consumed)[|old(consumed)| - 1]] + old(Unread())
      ensures !old(CanUnread()) ==> consumed == old(consumed) && Unread() == old(Unread())
    {
      if !lastRead {
        return Some(ErrInvalidUnreadByte);
      }
      lastRead := false;
      if off > 0 {
        PutBack(buf[..], off as int, length as int, consumed);
        hide EndsIn;
        off := off - 1;
        consumed := consumed[..|consumed| - 1];
      }
      return None;
    }

    /** One turn of ReadFrom: room for at least MIN_READ bytes, then one Read into all of it. */
    method ReadOnce(src: Source) returns (m: Int, e: Option<Error>, panic: Option<Panic>, ghost d: Bytes,
        ghost given: seq<Item>)
      requires Valid() && Proper(src.rest) && !lastRead
      modifies this, buf, src
      ensures Valid() && Proper(src.rest) && !lastRead && consumed == old(consumed) && (buf == old(buf) || fresh(buf))
      ensures 0 <= m && m as int == |d| && Unread() == old(Unread()) + d && written == old(written) + d
      ensures old(src.rest) == Datas(d) + given + src.rest
      ensures Reports(e, given, src.rest)
      ensures panic.Some? ==> panic == Some(TooLarge) && d == [] && e.None?
      ensures panic.Some? ==> refused || 2 * old(buf.Length) + MIN_READ as int > MAX_INT
      ensures (old(refused) ==> refused) && (panic.Some? ==> buf == old(buf))
      ensures panic.None? ==> src.calls == old(src.calls) + 1
    {
      hide EndsIn;
      d, given, m, e := [], [], 0, None;
      var i;
      i, panic := Reserve(MIN_READ);
      if panic.Some? {
        return;
      }
      length := i;
      m, e, d, given := Receive(src);
    }

    /** One Read into the free part of the slice. */
    method Receive(src: Source) returns (m: Int, e: Option<Error>, ghost d: Bytes, ghost given: seq<Item>)
      requires Valid() && Proper(src.rest)
      modifies this`length, this`written, buf, src
      ensures Valid() && Proper(src.rest)
      ensures 0 <= m && m as int == |d| && Unread() == old(Unread()) + d && written == old(written) + d
      ensures old(src.rest) == Datas(d) + given + src.rest
      ensures Reports(e, given, src.rest) && src.calls == old(src.calls) + 1
    {
      hide EndsIn, Datas, Reports;
      ghost var was := buf[..];
      var k;
      k, e, given := src.Read(buf, length as int, buf.Length);
      m := k as Int;
      length := length + m;
      d := buf[old(length)..length];
      Received(was, buf[..], off as int, old(length) as int, length as int);
      Regroup(consumed, old(Unread()), d);
      written := written + d;
    }

    /** ReadFrom: everything the source delivers up to its EOF or first error. The source may
        also stall for ever: done tells whether the loop ended within the given turns. */
    method ReadFrom(src: Source, turns: nat)
      returns (n: Int, err: Option<Error>, panic: Option<Panic>, done: bool, ghost d: Bytes)
      requires Valid() && Proper(src.rest)
      modifies this, buf, src
      ensures Valid() && !lastRead && consumed == old(consumed) && (buf == old(buf) || fresh(buf))
      ensures 0 <= n && n as int == |d| && Unread() == old(Unread()) + d && written == old(written) + d
      ensures !done || panic.Some? ==> old(src.rest) == Datas(d) + src.rest
      ensures !done ==> src.calls == old(src.calls) + turns
      ensures panic.Some? ==> panic == Some(TooLarge)
      ensures panic.Some? ==> refused || 2 * buf.Length + MIN_READ as int > MAX_INT
      ensures done && panic.None? && err.Some? ==>
              old(src.rest) == Datas(d) + [Fault(err.value)] + src.rest && !err.value.EOF?
      ensures done && panic.None? && err.None? ==>
        old(src.rest) == Datas(d) + [Fault(EOF)] + src.rest || (old(src.rest) == Datas(d) && src.rest == [])
    {
      hide EndsIn, Datas;
      lastRead := false;
      n, err, panic, d := 0, None, None, [];
      var t := 0;
      assert Datas([]) == [];
      assert Unread() == old(Unread()) + d;
      while t < turns
        invariant Valid() && Proper(src.rest) && !lastRead && consumed == old(consumed) &&
                (buf == old(buf) || fresh(buf))
        invariant 0 <= n && n as int == |d| && Unread() == old(Unread()) + d && written == old(written) + d
        invariant old(src.rest) == Datas(d) + src.rest && err.None? && panic.None?
        invariant t <= turns && src.calls == old(src.calls) + t
      {
        ghost var rest, unread := src.rest, Unread();
        var m, e;
        ghost var more, given;
        m, e, panic, more, given := ReadOnce(src);
        Streamed(old(src.rest), d, rest, more, given, src.rest);
        Regroup(old(Unread()), d, more);
        Regroup(old(written), d, more);
        d := d + more;
        assert |d| <= |Unread()| <= MAX_INT;
        if panic.Some? {
          return n, None, panic, true, d;
        }
        n := n + m;
        if e == Some(EOF) {
          return n, None, None, true, d;
        }
        if e.Some? {
          return n, e, None, true, d;
        }
        t := t + 1;
      }
      return n, None, None, false, d;
    }
  }

  lemma Received(was: Bytes, now: Bytes, off: nat, i: nat, length: nat)
    requires off <= i <= length <= |now| && i <= |was| && now[..i] == was[..i]
    ensures now[..off] == was[..off] && now[off..length] == was[off..i] + now[i..length]
  {
    assert now[..off] == now[..i][..off] && was[..off] == was[..i][..off];
    assert now[off..i] == now[..i][off..] && was[off..i] == was[..i][off..];
    assert now[off..length] == now[off..i] + now[i..length];
  }

  /** What has been read so far, and one more read. */
  lemma Streamed(all: seq<Item>, d: Bytes, rest: seq<Item>, more: Bytes, given: seq<Item>, rest2: seq<Item>)
    requires all == Datas(d) + rest && rest == Datas(more) + given + rest2
    ensures all == Datas(d + more) + given + rest2
    ensures given == [] ==> all == Datas(d + more) + rest2
    ensures given == [] && rest2 == [] ==> all == Datas(d + more)
  {
    DatasConcat(d, more);
    hide Datas;
    assert Datas(d) + (Datas(more) + given + rest2) == Datas(d) + Datas(more) + given + rest2;
  }

  // ------------------------------------------- where UnreadByte is not what it promises

  /** After a read of zero bytes UnreadByte should fail: after a ReadBytes that met the end it
      succeeds, and puts back a byte of the read before. */
  method UnreadAfterEmptyRead(b: Buffer, x: Byte, y: Byte) returns (ran: bool)
    requires b.Valid() && b.Unread() == []
    modifies b, b.buf
    ensures ran ==> b.Valid() && b.Unread() == [y]
  {
    var n, panic := b.Write([x, y]);
    if panic.Some? {
      return false;
    }
    var data;
    data, panic := b.Next(2);
    var line, err := b.ReadBytes(NEWLINE);
    assert line == [] && err == Some(EOF);
    err := b.UnreadByte();
    assert err.None?;
    return true;
  }

  /** Grow writes nothing, but when it has to move the unread bytes UnreadByte afterwards
      reports success and does nothing. */
  method UnreadAfterGrow(b: Buffer, n: Int) returns (c: Byte, err: Option<Error>, grown: bool)
    requires b.Valid() && |b.Unread()| >= 2 && n >= 0
    modifies b, b.buf
    ensures b.Valid()
    ensures grown ==>
      && err.None? && c == old(b.Unread())[0]
      && b.Unread() == if n as int <= old(b.buf.Length - b.length as int) then old(b.Unread()) else old(b.Unread())[1..]
  {
    hide EndsIn;
    c, err := b.ReadByte();
    ghost var rest := b.Unread();
    assert old(b.Unread())[1..] == rest && b.consumed[|b.consumed| - 1] == c;
    var panic := b.Grow(n);
    if panic.Some? {
      return c, err, false;
    }
    err := b.UnreadByte();
    return c, err, true;
  }
}
