/**
 * The exit-code filter of go_android_exec: output passes through, except for a suffix
 * that could still become the trailer "exitcode=" followed by digits.
 *
 * Held says what is kept back as a function of everything written so far, so the filter
 * cannot depend on how the output was cut into writes. Bytes are modelled as characters.
 */
module ExitCodeFilter {
  import opened Prelude

  const EXIT: string := "exitcode="

  predicate Digits(s: string) {
    forall i :: 0 <= i < |s| ==> '0' <= s[i] <= '9'
  }

  /** A match of the expression built by newExitCodeFilter, anchored at both ends. */
  predicate Trailer(s: string) {
    s != "" && (s <= EXIT || (EXIT < s && Digits(s[|EXIT|..])))
  }

  /** The alternative with the group: a complete trailer. */
  predicate Complete(s: string) {
    EXIT < s && Digits(s[|EXIT|..])
  }

  /** The longest suffix that is a trailer so far. */
  function Held(t: string): (h: string)
    ensures |h| <= |t| && h == t[|t| - |h|..]
    ensures h == "" || Trailer(h)
  {
    if t == "" then ""
    else if Trailer(t) then t
    else (assert forall k :: 0 <= k <= |t| - 1 ==> t[1..][k..] == t[k + 1..]; Held(t[1..]))
  }

  lemma {:induction false} HeldLongest(t: string, i: nat)
    requires i <= |t| && Trailer(t[i..])
    ensures |t| - i <= |Held(t)|
  {
    if !Trailer(t) {
      assert t[0..] == t;
      assert t[1..][i - 1..] == t[i..];
      HeldLongest(t[1..], i - 1);
    }
  }

  /** Every non-empty prefix of a trailer is one. */
  lemma TrailerPrefix(s: string, n: nat)
    requires Trailer(s) && 0 < n <= |s|
    ensures Trailer(s[..n])
  {
    if n > |EXIT| {
      assert s[..n][|EXIT|..] == s[|EXIT|..n];
    }
  }

  lemma {:induction false} HeldIsLongest(t: string, h: string)
    requires |h| <= |t| && h == t[|t| - |h|..] && (h == "" || Trailer(h))
    requires forall i: nat :: i < |t| - |h| ==> !Trailer(t[i..])
    ensures Held(t) == h
  {
    hide Held, Trailer;
    assert Held(t) != "" ==> Trailer(t[|t| - |Held(t)|..]);
    if h != "" {
      HeldLongest(t, |t| - |h|);
    }
  }

  /** What is held back after more output depends on the earlier output only through what
      was held back before: the filter may forget everything it has forwarded. */
  lemma HeldCompose(t: string, data: string)
    ensures Held(t + data) == Held(Held(t) + data)
  {
    hide Held, Trailer;
    var b, all := Held(t) + data, t + data;
    var cut := |t| - |Held(t)|;
    assert b == all[cut..];
    var h := Held(b);
    assert h == all[|all| - |h|..];
    forall i: nat | i < |all| - |h|
      ensures !Trailer(all[i..])
    {
      NoEarlierTrailer(t, data, i);
    }
    HeldIsLongest(all, h);
  }

  /** No trailer starts before the part that is held back. */
  lemma NoEarlierTrailer(t: string, data: string, i: nat)
    requires i < |t + data| - |Held(Held(t) + data)|
    ensures !Trailer((t + data)[i..])
  {
    hide Held, Trailer;
    var b, all := Held(t) + data, t + data;
    var cut := |t| - |Held(t)|;
    if Trailer(all[i..]) {
      if i >= cut {
        assert b[i - cut..] == all[i..];
        HeldLongest(b, i - cut);
      } else {
        assert all[i..][..|t| - i] == t[i..];
        TrailerPrefix(all[i..], |t| - i);
        HeldLongest(t, i);
      }
    }
  }

  /** Output ending in a complete trailer holds back exactly that trailer. */
  lemma CompleteHeld(before: string, digits: string)
    requires digits != "" && Digits(digits)
    ensures Held(before + (EXIT + digits)) == EXIT + digits
  {
    hide Held;
    var h := EXIT + digits;
    var t := before + h;
    assert h[|EXIT|..] == digits;
    assert t[|t| - |h|..] == h;
    forall i: nat | i < |before|
      ensures !Trailer(t[i..])
    {
      var s, k := t[i..], |before| - i;
      assert s[k..k + |EXIT|] == EXIT;
      if Complete(s) {
        OneStart(s, k);
      }
    }
    HeldIsLongest(t, h);
  }

  /** A complete trailer has no second start inside it. */
  lemma OneStart(s: string, k: nat)
    requires Complete(s) && 0 < k && k + |EXIT| <= |s|
    ensures s[k..k + |EXIT|] != EXIT
  {
    var sub := s[k..k + |EXIT|];
    assert sub[0] == s[k] && sub[1] == s[k + 1];
    assert k >= |EXIT| ==> s[|EXIT|..][k - |EXIT|] == s[k];
  }

  /** The value of a string of digits. */
  function Value(s: string): nat
    requires Digits(s)
  {
    if s == "" then 0 else 10 * Value(s[..|s| - 1]) + (s[|s| - 1] - '0') as nat
  }

  /** A complete trailer whose number fits an int. */
  predicate HasCode(s: string) {
    Complete(s) && Value(s[|EXIT|..]) <= MAX_INT
  }

  /** The writer behind the filter: what it was given, in order, and what it took of that. A
      Write that does not take everything returns an error. */
  class Sink {
    var given: string
    var passed: string
    /** It has returned an error. */
    ghost var failed: bool

    constructor ()
      ensures given == "" && passed == "" && !failed
    {
      given, passed, failed := "", "", false;
    }

    method Write(p: string) returns (ok: bool)
      modifies this
      ensures given == old(given) + p && failed == (old(failed) || !ok)
      ensures old(passed) <= passed <= old(passed) + p && (ok ==> passed == old(passed) + p)
    {
      var n: nat :| n <= |p|;
      given, passed := given + p, passed + p[..n];
      ok := *;
      ok := ok && n == |p|;
      failed := failed || !ok;
    }
  }

  class Filter {
    const w: Sink
    var buf: string
    /** Everything written so far. */
    ghost var total: string

    ghost predicate Valid()
      reads this, w
    {
      buf == Held(total) && total == w.given + buf
    }

    constructor (w: Sink)
      requires w.given == ""
      ensures Valid() && total == "" && this.w == w
    {
      this.w := w;
      buf, total := "", "";
    }

    /** exitRe.FindIndex: the leftmost match, which is the longest suffix that matches. */
    method FindIndex(b: string) returns (i: int)
      ensures i < 0 ==> Held(b) == ""
      ensures i >= 0 ==> i < |b| && Held(b) == b[i..] && Trailer(b[i..])
    {
      for k := 0 to |b|
        invariant Held(b) == Held(b[k..])
      {
        if Trailer(b[k..]) {
          return k;
        }
        assert b[k..][1..] == b[k + 1..];
      }
      return -1;
    }

    /** Write: forward everything in front of a possible trailer. */
    method Write(data: string) returns (n: nat, ok: bool)
      requires Valid()
      modifies this, w
      ensures Valid() && total == old(total) + data && n == |data|
      ensures ok && old(w.passed == w.given) ==> w.passed == w.given
      ensures w.failed == (old(w.failed) || !ok)
      ensures exists p :: w.given == old(w.given) + p && old(w.passed) <= w.passed <= old(w.passed) + p
    {
      hide Held, Trailer;
      n := |data|;
      HeldCompose(total, data);
      Regroup(w.given, buf, data);
      total := total + data;
      var b := buf + data;
      var i := FindIndex(b);
      if i < 0 {
        ok := w.Write(b);
        buf := "";
      } else {
        SplitBack(w.given, b, i);
        ok := w.Write(b[..i]);
        buf := b[i..];
      }
    }

    /** Finish: the exit code, if the output ended in one; what the sink does makes no
        difference to that. */
    method Finish() returns (code: Option<nat>)
      requires Valid()
      modifies this, w
      ensures buf == "" && total == old(total)
      ensures code.Some? <==> HasCode(Held(total))
      ensures code.Some? ==> code.value == Value(Held(total)[|EXIT|..])
      ensures code.Some? ==> total == w.given + Held(total) && w.passed == old(w.passed)
      ensures code.None? ==> w.given == total && old(w.passed) <= w.passed <= old(w.passed) + Held(total)
    {
      var b := buf;
      buf := "";
      if !Complete(b) {
        var ok := w.Write(b);
        return None;
      }
      var v := Atoi(b[|EXIT|..]);
      if v.None? {
        var ok := w.Write(b);
        return None;
      }
      return v;
    }
  }

  lemma SplitBack(a: string, b: string, i: nat)
    requires i <= |b|
    ensures a + b == a + b[..i] + b[i..]
  {
    assert b == b[..i] + b[i..];
  }

  /** strconv.Atoi on digits. */
  method Atoi(s: string) returns (v: Option<nat>)
    requires Digits(s)
    ensures v == if Value(s) <= MAX_INT then Some(Value(s)) else None
  {
    var n := 0;
    for i := 0 to |s|
      invariant n == Value(s[..i])
    {
      assert s[..i + 1][..i] == s[..i];
      n := 10 * n + (s[i] - '0') as nat;
    }
    assert s[..|s|] == s;
    return if n <= MAX_INT then Some(n) else None;
  }

  /** Finish reports a code exactly for output that ends in "exitcode=" and digits that fit. */
  lemma FinishesExactly(total: string)
    ensures HasCode(Held(total)) <==> exists i: nat :: i < |total| && HasCode(total[i..])
  {
    hide Held, HasCode;
    var h := Held(total);
    if HasCode(h) {
      CodeNotEmpty(h);
      assert total[|total| - |h|..] == h;
    }
    forall i: nat | i < |total| && HasCode(total[i..])
      ensures total[i..] == h
    {
      CodeSuffix(total, i);
    }
  }

  lemma CodeNotEmpty(s: string)
    requires HasCode(s)
    ensures s != ""
  {
  }

  lemma CodeSuffix(total: string, i: nat)
    requires i < |total| && HasCode(total[i..])
    ensures Held(total) == total[i..]
  {
    hide Held, Value;
    var s := total[i..];
    assert total == total[..i] + s && s == EXIT + s[|EXIT|..];
    CompleteHeld(total[..i], s[|EXIT|..]);
  }

  // ----------------------------------------------------------------- what the code is

  /** The decimal digits of a number. */
  function Decimal(n: nat): string {
    if n < 10 then [DIGITS[n]] else Decimal(n / 10) + [DIGITS[n % 10]]
  }

  const DIGITS: string := "0123456789"

  /** A code printed in decimal, with any number of zeros in front, is read back. */
  lemma {:induction false} DecimalRead(n: nat, zeros: nat)
    ensures var s := seq(zeros, _ => '0') + Decimal(n);
      s != "" && Digits(s) && Value(s) == n
    decreases n
  {
    var z := seq(zeros, _ => '0');
    DecimalStep(n);
    hide Decimal;
    if n < 10 {
      ZerosRead(z);
      OneDigit(n);
      Snoc(z, DIGITS[n]);
    } else {
      DecimalRead(n / 10, zeros);
      OneDigit(n % 10);
      Regroup(z, Decimal(n / 10), [DIGITS[n % 10]]);
      Snoc(z + Decimal(n / 10), DIGITS[n % 10]);
    }
  }

  lemma DecimalStep(n: nat)
    ensures Decimal(n) == if n < 10 then [DIGITS[n]] else Decimal(n / 10) + [DIGITS[n % 10]]
    ensures n == n / 10 * 10 + n % 10
  {
  }

  lemma OneDigit(d: nat)
    requires d < 10
    ensures '0' <= DIGITS[d] <= '9' && DIGITS[d] as int - '0' as int == d
  {
  }

  lemma {:induction false} ZerosRead(z: string)
    requires forall i :: 0 <= i < |z| ==> z[i] == '0'
    ensures Digits(z) && Value(z) == 0
  {
    if z != "" {
      ZerosRead(z[..|z| - 1]);
    }
  }

  lemma Snoc(s: string, c: char)
    requires Digits(s) && '0' <= c <= '9'
    ensures Digits(s + [c]) && Value(s + [c]) == Value(s) * 10 + (c as int - '0' as int)
  {
    assert (s + [c])[..|s|] == s;
  }

  /** So output that ends in a printed code is held back and has that code, if it fits an int. */
  lemma PrintedCode(before: string, n: nat, zeros: nat)
    ensures var total := before + ("exitcode=" + (seq(zeros, _ => '0') + Decimal(n)));
      && Held(total) == "exitcode=" + (seq(zeros, _ => '0') + Decimal(n))
      && (HasCode(Held(total)) <==> n <= MAX_INT)
      && Value(Held(total)[|EXIT|..]) == n
  {
    var digits := seq(zeros, _ => '0') + Decimal(n);
    DecimalRead(n, zeros);
    hide Decimal, Value, Digits, Held;
    CompleteHeld(before, digits);
    assert (EXIT + digits)[|EXIT|..] == digits;
  }

  // --------------------------------------------------------- what is worth holding back

  /** What is held back could still become a trailer, and whatever could is held back. */
  lemma StillPossible(s: string)
    requires s != ""
    ensures Trailer(s) <==> exists more: string :: Complete(s + more)
  {
    if Trailer(s) {
      if s <= EXIT {
        var more := EXIT[|s|..] + "0";
        assert s + more == EXIT + "0";
        assert (EXIT + "0")[|EXIT|..] == "0";
        assert Complete(s + more);
      } else {
        assert s + "" == s;
        assert Complete(s + "");
      }
    }
    if exists more: string :: Complete(s + more) {
      var more: string :| Complete(s + more);
      FrontOfComplete(s, more);
    }
  }

  lemma FrontOfComplete(s: string, more: string)
    requires s != "" && Complete(s + more)
    ensures Trailer(s)
  {
    var t := s + more;
    assert t[..|EXIT|] == EXIT && t[..|s|] == s;
    if |s| <= |EXIT| {
      assert s == t[..|EXIT|][..|s|];
    } else {
      assert s[..|EXIT|] == t[..|EXIT|];
      assert s[|EXIT|..] == t[|EXIT|..][..|s| - |EXIT|];
    }
  }

  /** A complete trailer is the text the device prints: "exitcode=" and at least one digit. */
  lemma CompleteMeans(s: string)
    ensures Complete(s) <==> exists digits: string :: digits != "" && Digits(digits) && s == "exitcode=" + digits
  {
    if Complete(s) {
      assert s == "exitcode=" + s[|EXIT|..];
    }
    forall digits: string | digits != "" && Digits(digits) && s == "exitcode=" + digits
      ensures Complete(s)
    {
      assert s[|EXIT|..] == digits;
    }
  }
}
