/**
 * The synchronous pipe of io/pipe.go as a transition system.
 *
 * Every call of read, write, closeRead and closeWrite is a process with its own
 * program counter; a step is one atomic action of one process, or one rendezvous of
 * two on an unbuffered channel. Any number of calls may be under way, any enabled step
 * may come next, and a receive on rdCh may pair any sender with any receiver: that
 * counts reach the right writer is proved, not assumed.
 */
module Pipe {
  import opened Prelude

  type Id = nat

  datatype Error = EOF | ErrClosedPipe | Custom(code: int)

  datatype Call =
    // write(b); n bytes of b have been acknowledged, and the slice offered next is b[n..]
    | WStart(b: seq<Byte>)
    | WLocking(b: seq<Byte>)
    | WOffering(b: seq<Byte>, n: nat, once: bool)
    | WAwaiting(b: seq<Byte>, n: nat)
    | WClosed(b: seq<Byte>, n: nat, held: bool)
    | WLoaded(b: seq<Byte>, n: nat, held: bool, first: Option<Error>)
    | WDone(b: seq<Byte>, n: nat, err: Option<Error>)
    // read of up to size bytes
    | RStart(size: nat)
    | RWaiting(size: nat)
    | RAcking(data: seq<Byte>)
    | RClosed
    | RLoaded(first: Option<Error>)
    | RDone(data: seq<Byte>, err: Option<Error>)
    // closeRead (reader) or closeWrite, with the error argument
    | CStart(reader: bool, arg: Option<Error>)
    | CStored
    | CDone

  /** One hand-over on wrCh: which read took which bytes of which write. */
  datatype Chunk = Chunk(reader: Id, writer: Id, data: seq<Byte>)

  /** The shared pipe, the calls, and two histories: hand-overs and lock acquisitions. */
  datatype State = State(
    done: bool, rerr: Option<Error>, werr: Option<Error>, lock: Option<Id>,
    calls: map<Id, Call>, chunks: seq<Chunk>, locked: seq<Id>)

  const INIT := State(false, None, None, None, map[], [], [])

  datatype Step =
    | Begin(id: Id, call: Call)
    | WriteCheck(id: Id)
    | Lock(id: Id)
    | HandOver(id: Id, reader: Id)
    | Ack(id: Id, reader: Id)
    | WriteReturn(id: Id)
    | WriteSeesDone(id: Id)
    | WriteLoad(id: Id)
    | WriteFail(id: Id)
    | ReadCheck(id: Id)
    | ReadSeesDone(id: Id)
    | ReadLoad(id: Id)
    | ReadFail(id: Id)
    | Store(id: Id)
    | Close(id: Id)

  function Min(a: nat, b: nat): nat { if a < b then a else b }

  /** The loop of write runs its body once, and then as long as bytes remain. */
  predicate Looping(c: Call) {
    c.WOffering? && c.n <= |c.b| && (c.once || c.n < |c.b|)
  }

  predicate Enabled(s: State, step: Step) {
    if step.Begin? then
      step.id !in s.calls && (step.call.WStart? || step.call.RStart? || step.call.CStart?)
    else
      && step.id in s.calls
      && var c := s.calls[step.id];
      match step
      case WriteCheck(_) => c.WStart?
      case Lock(_) => c.WLocking? && s.lock.None?
      case HandOver(_, r) => Looping(c) && r in s.calls && s.calls[r].RWaiting?
      case Ack(_, r) => c.WAwaiting? && r in s.calls && s.calls[r].RAcking?
      case WriteReturn(_) => c.WOffering? && !Looping(c)
      case WriteSeesDone(_) => Looping(c) && s.done
      case WriteLoad(_) => c.WClosed?
      case WriteFail(_) => c.WLoaded?
      case ReadCheck(_) => c.RStart?
      case ReadSeesDone(_) => c.RWaiting? && s.done
      case ReadLoad(_) => c.RClosed?
      case ReadFail(_) => c.RLoaded?
      case Store(_) => c.CStart?
      case Close(_) => c.CStored?
  }

  /** readCloseError and writeCloseError: own side's error first, then the other's. */
  function CloseError(own: Option<Error>, other: Option<Error>): Error {
    if own.None? && other.Some? then other.value else ErrClosedPipe
  }

  /** onceError.Store */
  function Once(stored: Option<Error>, err: Error): Option<Error> {
    if stored.Some? then stored else Some(err)
  }

  function Offered(c: Call, size: nat): seq<Byte>
    requires Looping(c)
  {
    c.b[c.n..][..Min(size, |c.b| - c.n)]
  }

  /** Where the process that takes the step goes next. */
  function Moved(s: State, step: Step): Call
    requires Enabled(s, step)
  {
    if step.Begin? then step.call else
    var c := s.calls[step.id];
    match step
    case WriteCheck(_) => if s.done then WClosed(c.b, 0, false) else WLocking(c.b)
    case Lock(_) => WOffering(c.b, 0, true)
    case HandOver(_, r) => WAwaiting(c.b, c.n)
    case Ack(_, r) => WOffering(c.b, c.n + |s.calls[r].data|, false)
    case WriteReturn(_) => WDone(c.b, c.n, None)
    case WriteSeesDone(_) => WClosed(c.b, c.n, true)
    case WriteLoad(_) => WLoaded(c.b, c.n, c.held, s.werr)
    case WriteFail(_) => WDone(c.b, c.n, Some(CloseError(c.first, s.rerr)))
    case ReadCheck(_) => if s.done then RClosed else RWaiting(c.size)
    case ReadSeesDone(_) => RClosed
    case ReadLoad(_) => RLoaded(s.rerr)
    case ReadFail(_) => RDone([], Some(CloseError(c.first, s.werr)))
    case Store(_) => CStored
    case Close(_) => CDone
  }

  /** Where the reader at the other end of a rendezvous goes next. */
  function Partner(s: State, step: Step): Call
    requires Enabled(s, step) && (step.HandOver? || step.Ack?)
  {
    if step.HandOver? then RAcking(Offered(s.calls[step.id], s.calls[step.reader].size))
    else RDone(s.calls[step.reader].data, None)
  }

  function NextCalls(s: State, step: Step): map<Id, Call>
    requires Enabled(s, step)
  {
    if step.HandOver? || step.Ack?
    then s.calls[step.id := Moved(s, step)][step.reader := Partner(s, step)]
    else s.calls[step.id := Moved(s, step)]
  }

  predicate Releases(s: State, step: Step)
    requires Enabled(s, step)
  {
    step.WriteReturn? || (step.WriteFail? && s.calls[step.id].held)
  }

  function Next(s: State, step: Step): State
    requires Enabled(s, step)
  {
    var stores := step.Store? && s.calls[step.id].CStart?;
    State(
      s.done || step.Close?,
      if stores && s.calls[step.id].reader then Once(s.rerr, s.calls[step.id].arg.Or(ErrClosedPipe)) else s.rerr,
      if stores && !s.calls[step.id].reader then Once(s.werr, s.calls[step.id].arg.Or(EOF)) else s.werr,
      if step.Lock? then Some(step.id) else if Releases(s, step) then None else s.lock,
      NextCalls(s, step),
      if step.HandOver? then s.chunks + [Chunk(step.reader, step.id, Partner(s, step).data)] else s.chunks,
      if step.Lock? then s.locked + [step.id] else s.locked)
  }

  /** A run is any sequence of steps, each enabled where it happens. */
  predicate Valid(run: seq<Step>)
    decreases |run|, 0
  {
    run == [] || (Valid(run[..|run| - 1]) && Enabled(After(run[..|run| - 1]), run[|run| - 1]))
  }

  function After(run: seq<Step>): State
    requires Valid(run)
    decreases |run|, 1
  {
    if run == [] then INIT else Next(After(run[..|run| - 1]), run[|run| - 1])
  }

  // ---------------------------------------------------------------- invariants

  predicate Holds(c: Call) {
    c.WOffering? || c.WAwaiting? || (c.WClosed? && c.held) || (c.WLoaded? && c.held)
  }

  /** The write lock is held by exactly one writer, the last to have acquired it. */
  ghost predicate LockInv(s: State) {
    && (forall id :: id in s.calls && Holds(s.calls[id]) ==> s.lock == Some(id))
    && (s.lock.Some? ==> s.locked != [] && s.lock.value == s.locked[|s.locked| - 1]
                         && s.lock.value in s.calls && Holds(s.calls[s.lock.value]))
    && (forall i :: 0 <= i < |s.locked| ==>
          s.locked[i] in s.calls && (Holds(s.calls[s.locked[i]]) || s.calls[s.locked[i]].WDone?))
    && (forall i, j :: 0 <= i < j < |s.locked| ==> s.locked[i] != s.locked[j])
  }

  /** What every write call knows about its count. */
  predicate WriteOk(c: Call) {
    match c
    case WOffering(b, n, once) => n <= |b| && (once ==> n == 0)
    case WAwaiting(b, n) => n <= |b|
    case WClosed(b, n, held) => n <= |b| && (b != [] ==> n < |b|)
    case WLoaded(b, n, held, first) => n <= |b| && (b != [] ==> n < |b|)
    case WDone(b, n, err) => n <= |b| && (b != [] ==> (err.None? <==> n == |b|)) && (err.None? ==> n == |b|)
    case _ => true
  }

  ghost predicate CountInv(s: State) {
    forall id :: id in s.calls ==> WriteOk(s.calls[id])
  }

  /** A reader about to acknowledge and a writer awaiting it are the two ends of the last hand-over. */
  ghost predicate AckInv(s: State) {
    && (forall r :: r in s.calls && s.calls[r].RAcking? ==>
          && s.chunks != []
          && var last := s.chunks[|s.chunks| - 1];
          && last.reader == r && last.data == s.calls[r].data
          && last.writer in s.calls && s.calls[last.writer].WAwaiting?)
    && (forall w :: w in s.calls && s.calls[w].WAwaiting? ==>
          && s.chunks != []
          && var last := s.chunks[|s.chunks| - 1];
          && last.writer == w && last.reader in s.calls && s.calls[last.reader] == RAcking(last.data)
          && s.calls[w].n + |last.data| <= |s.calls[w].b|
          && last.data == s.calls[w].b[s.calls[w].n..s.calls[w].n + |last.data|])
  }

  /** The bytes of a write that have been acknowledged. */
  function Acked(c: Call): seq<Byte> {
    if (c.WOffering? || c.WAwaiting? || c.WClosed? || c.WLoaded? || c.WDone?) && c.n <= |c.b| then c.b[..c.n] else []
  }

  /** Acknowledged prefixes of the writes, in lock order. */
  function AckedStream(calls: map<Id, Call>, locked: seq<Id>): seq<Byte> {
    if locked == [] then []
    else
      var w := locked[|locked| - 1];
      AckedStream(calls, locked[..|locked| - 1]) + (if w in calls then Acked(calls[w]) else [])
  }

  /** Bytes handed to readers, in hand-over order. */
  function ReadStream(chunks: seq<Chunk>): seq<Byte> {
    if chunks == [] then [] else ReadStream(chunks[..|chunks| - 1]) + chunks[|chunks| - 1].data
  }

  /** The bytes copied but not yet acknowledged. */
  function InFlight(s: State): seq<Byte> {
    if s.lock.Some? && s.lock.value in s.calls && s.calls[s.lock.value].WAwaiting? && s.chunks != []
    then s.chunks[|s.chunks| - 1].data
    else []
  }

  ghost predicate StreamInv(s: State) {
    ReadStream(s.chunks) == AckedStream(s.calls, s.locked) + InFlight(s)
  }

  predicate Took(c: Call, data: seq<Byte>) {
    c == RAcking(data) || c == RDone(data, None)
  }

  /** Successful reads and hand-overs correspond one to one. */
  ghost predicate ReaderInv(s: State) {
    && (forall i :: 0 <= i < |s.chunks| ==>
          s.chunks[i].reader in s.calls && Took(s.calls[s.chunks[i].reader], s.chunks[i].data))
    && (forall i, j :: 0 <= i < j < |s.chunks| ==> s.chunks[i].reader != s.chunks[j].reader)
    && (forall r :: r in s.calls && Succeeds(s.calls[r]) ==>
          exists i :: 0 <= i < |s.chunks| && s.chunks[i].reader == r)
  }

  predicate Closing(s: State) { s.rerr.Some? || s.werr.Some? }

  predicate ErrorOk(s: State, c: Call) {
    match c
    case WClosed(_, _, _) => Closing(s)
    case WLoaded(_, _, _, first) => Closing(s) && (first.Some? ==> s.werr == first) && (first.None? ==> s.rerr.Some?)
    case WDone(_, _, Some(e)) => s.rerr == Some(e) || (e == ErrClosedPipe && s.werr.Some?)
    case RClosed => Closing(s)
    case RLoaded(first) => Closing(s) && (first.Some? ==> s.rerr == first) && (first.None? ==> s.werr.Some?)
    case RDone(data, Some(e)) => data == [] && (s.werr == Some(e) || (e == ErrClosedPipe && s.rerr.Some?))
    case CStored => Closing(s)
    case _ => true
  }

  ghost predicate ErrorInv(s: State) {
    && (s.done ==> Closing(s))
    && (forall id :: id in s.calls ==> ErrorOk(s, s.calls[id]))
  }

  // ------------------------------------------------------- each step keeps them

  /** Who holds the lock changes only when it is taken or released. */
  lemma MovedHolds(s: State, step: Step)
    requires Enabled(s, step)
    ensures !step.Begin? && !step.Lock? && !Releases(s, step) ==> Holds(Moved(s, step)) == Holds(s.calls[step.id])
    ensures step.Begin? ==> !Holds(Moved(s, step))
    ensures Releases(s, step) ==> Holds(s.calls[step.id]) && Moved(s, step).WDone?
    ensures !step.Begin? ==> !s.calls[step.id].WDone?
    ensures step.HandOver? || step.Ack? ==>
              !Holds(Partner(s, step)) && !Holds(s.calls[step.reader]) && !s.calls[step.reader].WDone?
  {
  }

  lemma LockKept(s: State, step: Step)
    requires Enabled(s, step) && LockInv(s)
    ensures LockInv(Next(s, step))
  {
    MovedHolds(s, step);
    if step.Lock? {
      assert s.calls[step.id].WLocking? && s.lock.None?;
      assert Moved(s, step).WOffering?;
      hide Enabled, Moved, Partner, Holds;
      LockAcquired(s, Next(s, step), step.id, Moved(s, step));
    } else if Releases(s, step) {
      hide Enabled, Moved, Partner, Holds;
      LockReleased(s, Next(s, step), step.id, Moved(s, step));
    } else {
      hide Enabled, Moved, Partner, Holds, Releases;
      LockFrame(s, Next(s, step));
    }
  }

  lemma LockFrame(s: State, s': State)
    requires LockInv(s) && s'.lock == s.lock && s'.locked == s.locked
    requires forall id :: id in s.calls ==> id in s'.calls
    requires forall id :: id in s'.calls && Holds(s'.calls[id]) ==> id in s.calls && Holds(s.calls[id])
    requires forall id :: id in s.calls && Holds(s.calls[id]) ==> Holds(s'.calls[id])
    requires forall id :: id in s.calls && s.calls[id].WDone? ==> s'.calls[id].WDone?
    ensures LockInv(s')
  {
  }

  lemma LockAcquired(s: State, s': State, id: Id, c: Call)
    requires LockInv(s) && id in s.calls && s.calls[id].WLocking? && s.lock.None? && c.WOffering?
    requires s'.lock == Some(id) && s'.locked == s.locked + [id] && s'.calls == s.calls[id := c]
    ensures LockInv(s')
  {
  }

  lemma LockReleased(s: State, s': State, id: Id, c: Call)
    requires LockInv(s) && id in s.calls && Holds(s.calls[id]) && c.WDone?
    requires s'.lock == None && s'.locked == s.locked && s'.calls == s.calls[id := c]
    ensures LockInv(s')
  {
  }

  lemma CountKept(s: State, step: Step)
    requires Enabled(s, step) && CountInv(s) && AckInv(s)
    ensures CountInv(Next(s, step))
  {
  }

  predicate Acking(c: Call) { c.RAcking? || c.WAwaiting? }

  lemma MovedAcking(s: State, step: Step)
    requires Enabled(s, step) && !step.HandOver? && !step.Ack?
    ensures !Acking(Moved(s, step))
    ensures !step.Begin? ==> !Acking(s.calls[step.id])
    ensures step.Begin? ==> step.id !in s.calls
  {
  }

  lemma AckKept(s: State, step: Step)
    requires Enabled(s, step) && LockInv(s) && AckInv(s)
    ensures AckInv(Next(s, step))
  {
    var s' := Next(s, step);
    if step.HandOver? {
      AckOpened(s, s', step.id, step.reader);
    } else if step.Ack? {
      hide LockInv, AckInv;
      AckClosed(s, s', step.id, step.reader);
    } else {
      MovedAcking(s, step);
      hide Enabled, Moved, LockInv, AckInv, Acking;
      AckFrame(s, s');
    }
  }

  lemma AckFrame(s: State, s': State)
    requires AckInv(s) && s'.chunks == s.chunks
    requires forall id :: id in s.calls && Acking(s.calls[id]) ==> id in s'.calls && s'.calls[id] == s.calls[id]
    requires forall id :: id in s'.calls && Acking(s'.calls[id]) ==> id in s.calls && s'.calls[id] == s.calls[id]
    ensures AckInv(s')
  {
  }

  lemma AckOpened(s: State, s': State, w: Id, r: Id)
    requires LockInv(s) && AckInv(s)
    requires w in s.calls && Looping(s.calls[w]) && r in s.calls && s.calls[r].RWaiting?
    requires var data := Offered(s.calls[w], s.calls[r].size);
             s'.calls == s.calls[w := WAwaiting(s.calls[w].b, s.calls[w].n)][r := RAcking(data)]
             && s'.chunks == s.chunks + [Chunk(r, w, data)]
    ensures AckInv(s')
  {
    assert s.lock == Some(w);
    assert forall id :: id in s.calls ==> !s.calls[id].WAwaiting?;
    assert forall id :: id in s.calls ==> !s.calls[id].RAcking?;
    var b, n := s.calls[w].b, s.calls[w].n;
    var data := Offered(s.calls[w], s.calls[r].size);
    assert data == b[n..n + |data|];
  }

  lemma AckClosed(s: State, s': State, w: Id, r: Id)
    requires LockInv(s) && AckInv(s)
    requires w in s.calls && s.calls[w].WAwaiting? && r in s.calls && s.calls[r].RAcking?
    requires s'.calls.Keys == s.calls.Keys && s'.calls[w].WOffering? && s'.calls[r].RDone?
    requires forall id :: id in s.calls && id != w && id != r ==> s'.calls[id] == s.calls[id]
    ensures AckInv(s')
  {
    assert forall id :: id in s.calls && s.calls[id].WAwaiting? ==> s.lock == Some(id);
    assert forall id :: id in s.calls && s.calls[id].RAcking? ==> id == r;
  }

  predicate Succeeds(c: Call) { c.RAcking? || (c.RDone? && c.err.None?) }

  lemma MovedTook(s: State, step: Step)
    requires Enabled(s, step)
    ensures !Succeeds(Moved(s, step))
    ensures !step.Begin? ==> !Succeeds(s.calls[step.id])
    ensures step.Begin? ==> step.id !in s.calls
    ensures step.Ack? ==> Succeeds(s.calls[step.reader]) && Partner(s, step) == RDone(s.calls[step.reader].data, None)
    ensures step.HandOver? ==> !Succeeds(s.calls[step.reader]) && Partner(s, step).RAcking?
    ensures step.HandOver? || step.Ack? ==> step.id != step.reader && step.reader in s.calls
  {
  }

  lemma ReaderKept(s: State, step: Step)
    requires Enabled(s, step) && ReaderInv(s)
    ensures ReaderInv(Next(s, step))
  {
    var s' := Next(s, step);
    MovedTook(s, step);
    hide Enabled, Moved, Partner, ReaderInv;
    if step.HandOver? {
      ReaderAdded(s, s', step.reader, Partner(s, step).data);
    } else {
      ReaderFrame(s, s');
    }
  }

  lemma ReaderFrame(s: State, s': State)
    requires ReaderInv(s) && s'.chunks == s.chunks
    requires forall id :: id in s.calls && Succeeds(s.calls[id]) ==>
                            id in s'.calls && Succeeds(s'.calls[id]) && s'.calls[id].data == s.calls[id].data
    requires forall id :: id in s'.calls && Succeeds(s'.calls[id]) ==> id in s.calls && Succeeds(s.calls[id])
    ensures ReaderInv(s')
  {
  }

  lemma ReaderAdded(s: State, s': State, r: Id, data: seq<Byte>)
    requires ReaderInv(s) && r in s.calls && !Succeeds(s.calls[r])
    requires |s'.chunks| == |s.chunks| + 1 && s'.chunks[|s.chunks|].reader == r && s'.chunks[|s.chunks|].data == data
    requires forall i :: 0 <= i < |s.chunks| ==> s'.chunks[i] == s.chunks[i]
    requires r in s'.calls && s'.calls[r] == RAcking(data)
    requires forall id :: id in s.calls && id != r && Succeeds(s.calls[id]) ==>
             id in s'.calls && s'.calls[id] == s.calls[id]
    requires forall id :: id in s'.calls && id != r && Succeeds(s'.calls[id]) ==> id in s.calls && Succeeds(s.calls[id])
    ensures ReaderInv(s')
  {
    forall id | id in s'.calls && Succeeds(s'.calls[id])
      ensures exists i :: 0 <= i < |s'.chunks| && s'.chunks[i].reader == id
    {
      if id == r {
        assert s'.chunks[|s.chunks|].reader == id;
      } else {
        var i :| 0 <= i < |s.chunks| && s.chunks[i].reader == id;
        assert s'.chunks[i].reader == id;
      }
    }
  }

  lemma ErrorKept(s: State, step: Step)
    requires Enabled(s, step) && ErrorInv(s)
    ensures ErrorInv(Next(s, step))
  {
  }

  lemma {:induction false} AckedFrame(calls: map<Id, Call>, calls': map<Id, Call>, locked: seq<Id>)
    requires forall i :: 0 <= i < |locked| ==> locked[i] in calls && locked[i] in calls'
    requires forall i :: 0 <= i < |locked| ==> Acked(calls[locked[i]]) == Acked(calls'[locked[i]])
    ensures AckedStream(calls, locked) == AckedStream(calls', locked)
  {
    if locked != [] {
      AckedFrame(calls, calls', locked[..|locked| - 1]);
    }
  }

  /** Only an acknowledgement, of the bytes in flight, changes what is acknowledged. */
  lemma MovedAcked(s: State, step: Step)
    requires Enabled(s, step) && AckInv(s) && CountInv(s)
    ensures !step.Begin? && !step.Ack? && !step.Lock? && !step.WriteCheck? ==>
              Acked(Moved(s, step)) == Acked(s.calls[step.id])
    ensures step.Lock? ==> Acked(Moved(s, step)) == []
    ensures step.WriteCheck? ==> Acked(Moved(s, step)) == [] && Acked(s.calls[step.id]) == []
    ensures step.Ack? ==> Acked(Moved(s, step)) == Acked(s.calls[step.id]) + s.calls[step.reader].data
    ensures step.HandOver? || step.Ack? ==> Acked(Partner(s, step)) == [] && Acked(s.calls[step.reader]) == []
    ensures step.HandOver? || step.Ack? ==> step.id != step.reader
  {
    if step.Ack? {
      var last := s.chunks[|s.chunks| - 1];
      var c := s.calls[step.id];
      assert last.reader == step.reader;
      assert c.b[..c.n + |last.data|] == c.b[..c.n] + c.b[c.n..c.n + |last.data|];
    }
  }

  lemma MovedFlight(s: State, step: Step)
    requires Enabled(s, step) && LockInv(s) && AckInv(s)
    ensures !step.HandOver? && !step.Ack? ==> InFlight(Next(s, step)) == InFlight(s)
    ensures step.HandOver? ==> InFlight(s) == [] && InFlight(Next(s, step)) == Partner(s, step).data
    ensures step.Ack? ==> InFlight(s) == s.calls[step.reader].data && InFlight(Next(s, step)) == []
  {
    if step.HandOver? || step.Ack? {
      assert s.lock == Some(step.id);
    } else {
      MovedAcking(s, step);
      MovedHolds(s, step);
      hide Enabled, Moved, AckInv;
    }
  }

  lemma StreamKept(s: State, step: Step)
    requires Enabled(s, step) && LockInv(s) && AckInv(s) && CountInv(s) && StreamInv(s)
    ensures StreamInv(Next(s, step))
  {
    hide Enabled, Moved, Partner, NextCalls, LockInv, AckInv, CountInv, AckedStream, Acked, InFlight;
    var s' := Next(s, step);
    MovedFlight(s, step);
    if step.HandOver? {
      assert s'.chunks[..|s'.chunks| - 1] == s.chunks;
      StreamFrame(s, step);
    } else if step.Ack? {
      StreamAck(s, step);
    } else if step.Lock? {
      StreamLock(s, step);
    } else {
      StreamFrame(s, step);
    }
  }

  lemma StreamFrame(s: State, step: Step)
    requires Enabled(s, step) && LockInv(s) && AckInv(s) && CountInv(s) && !step.Ack? && !step.Lock?
    ensures AckedStream(Next(s, step).calls, s.locked) == AckedStream(s.calls, s.locked)
  {
    MovedAcked(s, step);
    MovedHolds(s, step);
    hide Moved, Partner, Acked, AckInv, CountInv, Holds;
    AckedFrame(s.calls, NextCalls(s, step), s.locked);
  }

  lemma StreamLock(s: State, step: Step)
    requires Enabled(s, step) && LockInv(s) && AckInv(s) && CountInv(s) && step.Lock?
    ensures AckedStream(Next(s, step).calls, Next(s, step).locked) == AckedStream(s.calls, s.locked)
  {
    var s' := Next(s, step);
    MovedAcked(s, step);
    assert s'.locked[..|s'.locked| - 1] == s.locked;
    assert forall i :: 0 <= i < |s.locked| ==> s.locked[i] != step.id;
    AckedFrame(s.calls, s'.calls, s.locked);
  }

  lemma StreamAck(s: State, step: Step)
    requires Enabled(s, step) && LockInv(s) && AckInv(s) && CountInv(s) && step.Ack?
    ensures AckedStream(Next(s, step).calls, s.locked)
         == AckedStream(s.calls, s.locked) + s.calls[step.reader].data
  {
    MovedAcked(s, step);
    assert s.lock == Some(step.id);
    hide Moved, Partner, Acked, AckInv, CountInv, Holds, AckedStream;
    AckedGrows(s.calls, s.locked, step.id, Moved(s, step), step.reader, Partner(s, step), s.calls[step.reader].data);
  }

  lemma AckedGrows(calls: map<Id, Call>, locked: seq<Id>, w: Id, c: Call, r: Id, d: Call, data: seq<Byte>)
    requires locked != [] && locked[|locked| - 1] == w && w != r && w in calls && r in calls
    requires forall i :: 0 <= i < |locked| ==> locked[i] in calls
    requires forall i, j :: 0 <= i < j < |locked| ==> locked[i] != locked[j]
    requires Acked(c) == Acked(calls[w]) + data && Acked(d) == Acked(calls[r])
    ensures AckedStream(calls[w := c][r := d], locked) == AckedStream(calls, locked) + data
  {
    hide Acked;
    var after, k := calls[w := c][r := d], |locked| - 1;
    var front := locked[..k];
    assert forall i :: 0 <= i < k ==> front[i] in calls && front[i] != w;
    AckedFrame(calls, after, front);
    assert after[w] == c;
    var before := AckedStream(calls, front);
    assert before + (Acked(calls[w]) + data) == before + Acked(calls[w]) + data;
  }

  // ---------------------------------------------------------------- every run

  ghost predicate Inv(s: State) {
    LockInv(s) && CountInv(s) && AckInv(s) && StreamInv(s) && ReaderInv(s) && ErrorInv(s)
  }

  lemma {:induction false} Reachable(run: seq<Step>)
    requires Valid(run)
    ensures Inv(After(run))
  {
    if run != [] {
      var before, step := run[..|run| - 1], run[|run| - 1];
      Reachable(before);
      hide LockInv, CountInv, AckInv, StreamInv, ReaderInv, ErrorInv, Enabled, Next;
      LockKept(After(before), step);
      CountKept(After(before), step);
      AckKept(After(before), step);
      StreamKept(After(before), step);
      ReaderKept(After(before), step);
      ErrorKept(After(before), step);
    }
  }

  /** The bytes read, in hand-over order, are the acknowledged prefixes of the writes in
      lock order, followed by the bytes copied but not yet acknowledged. */
  lemma StreamTheorem(run: seq<Step>)
    requires Valid(run)
    ensures var s := After(run);
            ReadStream(s.chunks) == AckedStream(s.calls, s.locked) + InFlight(s)
  {
    Reachable(run);
  }

  /** At most one writer awaits a count, and at most one reader has one to send. */
  lemma OneExchange(run: seq<Step>, i: Id, j: Id)
    requires Valid(run) && i in After(run).calls && j in After(run).calls
    ensures var calls := After(run).calls;
            (calls[i].WAwaiting? && calls[j].WAwaiting?) || (calls[i].RAcking? && calls[j].RAcking?) ==> i == j
  {
    Reachable(run);
  }

  /** A count can only reach the writer whose slice was copied, and it counts exactly the
      bytes copied from where that writer stands. */
  lemma CountReachesItsWriter(run: seq<Step>, w: Id, r: Id)
    requires Valid(run) && Enabled(After(run), Ack(w, r))
    ensures var s := After(run);
            var data := s.calls[r].data;
            && s.chunks != [] && s.chunks[|s.chunks| - 1] == Chunk(r, w, data)
            && s.calls[w].n + |data| <= |s.calls[w].b|
            && data == s.calls[w].b[s.calls[w].n..s.calls[w].n + |data|]
  {
    Reachable(run);
    hide After, Valid;
    CountLocated(After(run), w, r);
  }

  lemma CountLocated(s: State, w: Id, r: Id)
    requires Inv(s) && Enabled(s, Ack(w, r))
    ensures var data := s.calls[r].data;
            && s.chunks != [] && s.chunks[|s.chunks| - 1] == Chunk(r, w, data)
            && s.calls[w].n + |data| <= |s.calls[w].b|
            && data == s.calls[w].b[s.calls[w].n..s.calls[w].n + |data|]
  {
    hide LockInv, CountInv, StreamInv, ReaderInv, ErrorInv;
    assert s.calls[r].RAcking? && s.calls[w].WAwaiting?;
  }

  /** A reader never blocks on sending its count, whatever has been closed meanwhile. */
  lemma CountNeverBlocks(run: seq<Step>, r: Id)
    requires Valid(run) && r in After(run).calls && After(run).calls[r].RAcking?
    ensures exists w :: Enabled(After(run), Ack(w, r))
  {
    Reachable(run);
    var s := After(run);
    assert Enabled(s, Ack(s.chunks[|s.chunks| - 1].writer, r));
  }

  /** A non-empty write returns nil exactly when all its bytes were acknowledged; a failed
      one reports the reader's close error, or ErrClosedPipe if the writer side was closed. */
  lemma WriteResult(run: seq<Step>, w: Id)
    requires Valid(run) && w in After(run).calls && After(run).calls[w].WDone?
    ensures var s, c := After(run), After(run).calls[w];
            && c.n <= |c.b|
            && (c.b != [] ==> (c.err.None? <==> c.n == |c.b|))
            && (c.err.Some? ==> s.rerr == c.err || (c.err.value == ErrClosedPipe && s.werr.Some?))
  {
    Reachable(run);
    assert WriteOk(After(run).calls[w]);
    assert ErrorOk(After(run), After(run).calls[w]);
  }

  /** A read that returns nil took exactly one chunk; a failed one took nothing and reports
      the writer's close error, or ErrClosedPipe if the reader side was closed. */
  ghost predicate ReadReport(s: State, r: Id)
    requires r in s.calls && s.calls[r].RDone?
  {
    match s.calls[r].err
    case None =>
      && (exists i :: 0 <= i < |s.chunks| && s.chunks[i].reader == r && s.chunks[i].data == s.calls[r].data)
      && (forall i, j :: 0 <= i < j < |s.chunks| ==> s.chunks[i].reader != s.chunks[j].reader)
    case Some(e) =>
      s.calls[r].data == [] && (s.werr == Some(e) || (e == ErrClosedPipe && s.rerr.Some?))
  }

  lemma ReadResult(run: seq<Step>, r: Id)
    requires Valid(run) && r in After(run).calls && After(run).calls[r].RDone?
    ensures ReadReport(After(run), r)
  {
    Reachable(run);
    hide After, Valid;
    ReadReported(After(run), r);
  }

  lemma ReadReported(s: State, r: Id)
    requires ReaderInv(s) && ErrorInv(s) && r in s.calls && s.calls[r].RDone?
    ensures ReadReport(s, r)
  {
    assert ErrorOk(s, s.calls[r]);
    if s.calls[r].err.None? {
      TookChunk(s, r);
    }
  }

  lemma TookChunk(s: State, r: Id)
    requires ReaderInv(s) && r in s.calls && Succeeds(s.calls[r])
    ensures exists i :: 0 <= i < |s.chunks| && s.chunks[i].reader == r && s.chunks[i].data == s.calls[r].data
  {
    var i :| 0 <= i < |s.chunks| && s.chunks[i].reader == r;
    assert Took(s.calls[s.chunks[i].reader], s.chunks[i].data);
  }

  /** Close errors are stored once: no later step changes them. */
  lemma {:induction false} FirstCloseWins(run: seq<Step>, k: nat)
    requires Valid(run) && k <= |run|
    ensures Valid(run[..k])
    ensures var earlier, later := After(run[..k]), After(run);
            && (earlier.rerr.Some? ==> later.rerr == earlier.rerr)
            && (earlier.werr.Some? ==> later.werr == earlier.werr)
            && (earlier.done ==> later.done)
  {
    if k < |run| {
      var before := run[..|run| - 1];
      FirstCloseWins(before, k);
      assert before[..k] == run[..k];
    } else {
      assert run[..k] == run;
    }
  }

  predicate Finished(c: Call) { c.WDone? || c.RDone? || c.CDone? }

  /** Once the pipe is closed nobody is stuck: while a call is unfinished, some call can move. */
  lemma CloseUnblocks(run: seq<Step>, id: Id)
    requires Valid(run) && After(run).done && id in After(run).calls && !Finished(After(run).calls[id])
    ensures exists step: Step :: !step.Begin? && Enabled(After(run), step)
  {
    Reachable(run);
    var s := After(run);
    if s.calls[id].WLocking? && s.lock.Some? {
      var step := CanMove(s, s.lock.value);
    } else {
      var step := CanMove(s, id);
    }
  }

  lemma CanMove(s: State, id: Id) returns (step: Step)
    requires LockInv(s) && AckInv(s) && s.done && id in s.calls && !Finished(s.calls[id])
    requires s.calls[id].WLocking? ==> s.lock.None?
    ensures !step.Begin? && Enabled(s, step)
  {
    match s.calls[id]
    case WStart(_) => step := WriteCheck(id);
    case WLocking(_) => step := Lock(id);
    case WOffering(_, _, _) => step := if Looping(s.calls[id]) then WriteSeesDone(id) else WriteReturn(id);
    case WAwaiting(_, _) => step := Ack(id, s.chunks[|s.chunks| - 1].reader);
    case WClosed(_, _, _) => step := WriteLoad(id);
    case WLoaded(_, _, _, _) => step := WriteFail(id);
    case RStart(_) => step := ReadCheck(id);
    case RWaiting(_) => step := ReadSeesDone(id);
    case RAcking(_) => step := Ack(s.chunks[|s.chunks| - 1].writer, id);
    case RClosed => step := ReadLoad(id);
    case RLoaded(_) => step := ReadFail(id);
    case CStart(_, _) => step := Store(id);
    case CStored => step := Close(id);
    case _ =>
  }

  // -------------------------------------------------------------------- termination

  /** An upper bound on the steps a call still has to take. A write may go on as long as
      readers come, so the steps of an exchange are charged to its reader. */
  function Rank(c: Call): nat {
    match c
    case WStart(_) => 7
    case WLocking(_) => 6
    case WAwaiting(_, _) => 5
    case WOffering(_, _, _) => 4
    case WClosed(_, _, _) => 3
    case WLoaded(_, _, _, _) => 2
    case WDone(_, _, _) => 0
    case RStart(_) => 10
    case RWaiting(_) => 9
    case RAcking(_) => 5
    case RClosed => 2
    case RLoaded(_) => 1
    case RDone(_, _) => 0
    case CStart(_, _) => 2
    case CStored => 1
    case CDone => 0
  }

  function RankAt(calls: map<Id, Call>, id: Id): nat {
    if id in calls then Rank(calls[id]) else 0
  }

  /** The ranks of the calls with ids below n. */
  function Total(calls: map<Id, Call>, n: nat): nat {
    if n == 0 then 0 else Total(calls, n - 1) + RankAt(calls, n - 1)
  }

  lemma {:induction false} TotalUpdate(calls: map<Id, Call>, id: Id, c: Call, n: nat)
    ensures Total(calls[id := c], n) ==
            if id < n then Total(calls, n) - RankAt(calls, id) + Rank(c) else Total(calls, n)
    ensures id < n ==> Total(calls, n) >= RankAt(calls, id)
  {
    if n > 0 {
      TotalUpdate(calls, id, c, n - 1);
    }
  }

  lemma RankDrops(s: State, step: Step)
    requires Enabled(s, step) && !step.Begin?
    ensures step.HandOver? || step.Ack? ==>
              step.id != step.reader && step.reader in s.calls &&
              Rank(Moved(s, step)) + Rank(Partner(s, step)) < Rank(s.calls[step.id]) + Rank(s.calls[step.reader])
    ensures !(step.HandOver? || step.Ack?) ==> Rank(Moved(s, step)) < Rank(s.calls[step.id])
  {
  }

  /** Every step of a call under way uses up some of the total. */
  lemma StepDescends(s: State, step: Step, n: nat)
    requires Enabled(s, step) && !step.Begin? && forall id :: id in s.calls ==> id < n
    ensures Total(Next(s, step).calls, n) < Total(s.calls, n)
  {
    RankDrops(s, step);
    TotalUpdate(s.calls, step.id, Moved(s, step), n);
    hide Rank, Enabled, Moved, Partner;
    if step.HandOver? || step.Ack? {
      TotalUpdate(s.calls[step.id := Moved(s, step)], step.reader, Partner(s, step), n);
    }
  }

  lemma StepKeepsIds(s: State, step: Step, n: nat)
    requires Enabled(s, step) && !step.Begin? && forall id :: id in s.calls ==> id < n
    ensures forall id :: id in Next(s, step).calls ==> id < n
  {
  }

  /** As long as no new call begins, only boundedly many steps can follow any run. */
  lemma {:induction false} Bounded(run: seq<Step>, more: seq<Step>, n: nat)
    requires Valid(run) && Valid(run + more)
    requires forall i :: 0 <= i < |more| ==> !more[i].Begin?
    requires forall id :: id in After(run).calls ==> id < n
    ensures |more| + Total(After(run + more).calls, n) <= Total(After(run).calls, n)
    ensures forall id :: id in After(run + more).calls ==> id < n
    decreases |more|
  {
    if more == [] {
      assert run + more == run;
    } else {
      var front, step := more[..|more| - 1], more[|more| - 1];
      LastStep(run + more);
      assert (run + more)[..|run + more| - 1] == run + front;
      hide After, Valid, Enabled, Next, Total;
      Bounded(run, front, n);
      StepDescends(After(run + front), step, n);
      StepKeepsIds(After(run + front), step, n);
    }
  }

  lemma LastStep(run: seq<Step>)
    requires Valid(run) && run != []
    ensures var front, step := run[..|run| - 1], run[|run| - 1];
            Valid(front) && Enabled(After(front), step) && After(run) == Next(After(front), step)
  {
  }

  /** After a close every call finishes: however the calls under way go on, they stop within
      the bound, and where none can move any more all of them have finished. */
  lemma CloseFinishes(run: seq<Step>, more: seq<Step>, n: nat)
    requires Valid(run) && Valid(run + more) && After(run).done
    requires forall i :: 0 <= i < |more| ==> !more[i].Begin?
    requires forall id :: id in After(run).calls ==> id < n
    ensures |more| <= Total(After(run).calls, n)
    ensures (forall step: Step :: Enabled(After(run + more), step) ==> step.Begin?) ==>
              forall id :: id in After(run + more).calls ==> Finished(After(run + more).calls[id])
  {
    Bounded(run, more, n);
    FirstCloseWins(run + more, |run|);
    assert (run + more)[..|run|] == run;
    forall id | id in After(run + more).calls && !Finished(After(run + more).calls[id])
      ensures exists step: Step :: !step.Begin? && Enabled(After(run + more), step)
    {
      CloseUnblocks(run + more, id);
    }
  }

  // ------------------------------------------------------- what closes store, what reads get

  /** Step i of the run stores the argument a of a closeRead or closeWrite call. */
  predicate StoresAt(run: seq<Step>, i: nat, reader: bool, a: Option<Error>) {
    i < |run| && run[i].Store? && Begin(run[i].id, CStart(reader, a)) in run[..i]
  }

  /** What a close with argument a stores: closeRead(nil) ErrClosedPipe, closeWrite(nil) EOF. */
  predicate Stands(reader: bool, a: Option<Error>, e: Error) {
    match a
    case Some(x) => e == x
    case None => e == if reader then ErrClosedPipe else EOF
  }

  /** The error stored on one side, if any. */
  function SideError(s: State, reader: bool): Option<Error> { if reader then s.rerr else s.werr }

  /** A call that has not moved yet is as it was begun, and no id begins twice. */
  lemma {:induction false} AsBegun(run: seq<Step>, id: Id, c: Call)
    requires Valid(run) && Begin(id, c) in run
    ensures id in After(run).calls
    ensures After(run).calls[id].CStart? ==> After(run).calls[id] == c
  {
    var front, step := run[..|run| - 1], run[|run| - 1];
    assert run == front + [step];
    LastStep(run);
    if Begin(id, c) in front {
      AsBegun(front, id, c);
      MovedOn(After(front), step, id);
    } else {
      assert step == Begin(id, c);
    }
  }

  lemma MovedOn(s: State, step: Step, id: Id)
    requires Enabled(s, step) && id in s.calls
    ensures id in Next(s, step).calls
    ensures Next(s, step).calls[id].CStart? ==> Next(s, step).calls[id] == s.calls[id]
  {
    if step.HandOver? || step.Ack? {
      assert !Partner(s, step).CStart?;
    }
    if !step.Begin? {
      assert !Moved(s, step).CStart?;
    }
  }

  lemma {:induction false} WasBegun(run: seq<Step>, id: Id)
    requires Valid(run) && id in After(run).calls && After(run).calls[id].CStart?
    ensures Begin(id, After(run).calls[id]) in run
  {
    if run != [] {
      var front, step := run[..|run| - 1], run[|run| - 1];
      assert run == front + [step];
      LastStep(run);
      if id in After(front).calls {
        MovedOn(After(front), step, id);
        WasBegun(front, id);
      } else {
        assert step == Begin(id, After(run).calls[id]) by {
          NewCall(After(front), step, id);
        }
      }
    }
  }

  lemma NewCall(s: State, step: Step, id: Id)
    requires Enabled(s, step) && id !in s.calls && id in Next(s, step).calls
    ensures step == Begin(id, Next(s, step).calls[id])
  {
  }

  /** What one step does to the stored errors. */
  lemma SideStep(s: State, step: Step, reader: bool)
    requires Enabled(s, step)
    ensures var before, after := SideError(s, reader), SideError(Next(s, step), reader);
      if step.Store? && s.calls[step.id].reader == reader
      then after.Some? && (if before.Some? then after == before else Stands(reader, s.calls[step.id].arg, after.value))
      else after == before
  {
  }

  /** The error stored on a side is that of the first close call of that side that got to store
      its argument; there is none if there was no such call. */
  lemma {:induction false} FirstStored(run: seq<Step>, reader: bool)
    requires Valid(run)
    ensures match SideError(After(run), reader)
      case None => forall i: nat, a :: !StoresAt(run, i, reader, a)
      case Some(e) =>
        exists i: nat, a :: StoresAt(run, i, reader, a) && Stands(reader, a, e) &&
          forall j: nat, b :: j < i ==> !StoresAt(run, j, reader, b)
  {
    if run != [] {
      var front, step := run[..|run| - 1], run[|run| - 1];
      LastStep(run);
      FirstStored(front, reader);
      SideStep(After(front), step, reader);
      forall i: nat, a | i < |front|
        ensures StoresAt(run, i, reader, a) <==> StoresAt(front, i, reader, a)
      {
        assert run[..i] == front[..i];
      }
      LastStores(run, reader);
      hide After, Valid, Next, Enabled, Stands, StoresAt;
      FirstOfLast(run, reader, After(front), After(run));
    }
  }

  /** The last step stores for a side exactly if its call was begun as a close of that side. */
  lemma LastStores(run: seq<Step>, reader: bool)
    requires Valid(run) && run != []
    ensures var front, step := run[..|run| - 1], run[|run| - 1];
      && Valid(front) && Enabled(After(front), step)
      && forall a :: StoresAt(run, |front|, reader, a) <==>
           step.Store? && After(front).calls[step.id] == CStart(reader, a)
  {
    var front, step := run[..|run| - 1], run[|run| - 1];
    LastStep(run);
    assert run[..|front|] == front;
    if step.Store? {
      WasBegun(front, step.id);
      forall a | StoresAt(run, |front|, reader, a)
        ensures After(front).calls[step.id] == CStart(reader, a)
      {
        AsBegun(front, step.id, CStart(reader, a));
      }
    }
  }

  lemma FirstOfLast(run: seq<Step>, reader: bool, before: State, after: State)
    requires run != []
    requires var front, step := run[..|run| - 1], run[|run| - 1];
      && (forall i: nat, a :: i < |front| ==> (StoresAt(run, i, reader, a) <==> StoresAt(front, i, reader, a)))
      && (step.Store? ==> step.id in before.calls && before.calls[step.id].CStart?)
      && (forall a :: StoresAt(run, |front|, reader, a) <==>
            step.Store? && before.calls[step.id] == CStart(reader, a))
      && (if step.Store? && before.calls[step.id].reader == reader
          then SideError(after, reader).Some? &&
            (if SideError(before, reader).Some? then SideError(after, reader) == SideError(before, reader)
             else Stands(reader, before.calls[step.id].arg, SideError(after, reader).value))
          else SideError(after, reader) == SideError(before, reader))
      && (match SideError(before, reader)
          case None => forall i: nat, a :: !StoresAt(front, i, reader, a)
          case Some(e) =>
            exists i: nat, a :: StoresAt(front, i, reader, a) && Stands(reader, a, e) &&
              forall j: nat, b :: j < i ==> !StoresAt(front, j, reader, b))
    ensures match SideError(after, reader)
      case None => forall i: nat, a :: !StoresAt(run, i, reader, a)
      case Some(e) =>
        exists i: nat, a :: StoresAt(run, i, reader, a) && Stands(reader, a, e) &&
          forall j: nat, b :: j < i ==> !StoresAt(run, j, reader, b)
  {
    var front, step := run[..|run| - 1], run[|run| - 1];
    forall i: nat, a | StoresAt(run, i, reader, a)
      ensures i <= |front|
    {
    }
    if SideError(before, reader).Some? {
      var e := SideError(before, reader).value;
      var i: nat, a :| StoresAt(front, i, reader, a) && Stands(reader, a, e) &&
        forall j: nat, b :: j < i ==> !StoresAt(front, j, reader, b);
      assert i < |front| by {
        assert StoresAt(front, i, reader, a);
      }
      assert StoresAt(run, i, reader, a);
    } else if step.Store? && before.calls[step.id].reader == reader {
      assert StoresAt(run, |front|, reader, before.calls[step.id].arg);
    }
  }

  /** No close call of that side was begun. */
  predicate NoClose(run: seq<Step>, reader: bool) {
    forall i :: 0 <= i < |run| && run[i].Begin? && run[i].call.CStart? ==> run[i].call.reader != reader
  }

  /** Every close call of that side was begun with the argument a. */
  predicate OnlyCloses(run: seq<Step>, reader: bool, a: Option<Error>) {
    forall i :: 0 <= i < |run| && run[i].Begin? && run[i].call.CStart? && run[i].call.reader == reader ==>
      run[i].call.arg == a
  }

  lemma NothingStored(run: seq<Step>, reader: bool)
    requires Valid(run) && NoClose(run, reader)
    ensures SideError(After(run), reader).None?
  {
    FirstStored(run, reader);
    hide After, Valid;
  }

  lemma OnlyStored(run: seq<Step>, reader: bool, a: Option<Error>)
    requires Valid(run) && OnlyCloses(run, reader, a) && SideError(After(run), reader).Some?
    ensures Stands(reader, a, SideError(After(run), reader).value)
  {
    FirstStored(run, reader);
    hide After, Valid, Stands;
    var e := SideError(After(run), reader).value;
    var i: nat, b :| StoresAt(run, i, reader, b) && Stands(reader, b, e);
    var j :| 0 <= j < |run[..i]| && run[..i][j] == Begin(run[i].id, CStart(reader, b));
    assert run[j].call.arg == a;
  }

  /** When only the writer side was closed, and always with the same argument, every failing read
      reports that argument: after plain Close calls, EOF. */
  lemma ReadAfterClose(run: seq<Step>, r: Id, a: Option<Error>)
    requires Valid(run) && NoClose(run, true) && OnlyCloses(run, false, a)
    requires r in After(run).calls && After(run).calls[r].RDone? && After(run).calls[r].err.Some?
    ensures After(run).calls[r].err == Some(if a.Some? then a.value else EOF)
  {
    ReadResult(run, r);
    NothingStored(run, true);
    OnlyStored(run, false, a);
  }

  /** When only the reader side was closed, every failing write reports the argument of the close,
      or ErrClosedPipe if it was nil. */
  lemma WriteAfterClose(run: seq<Step>, w: Id, a: Option<Error>)
    requires Valid(run) && NoClose(run, false) && OnlyCloses(run, true, a)
    requires w in After(run).calls && After(run).calls[w].WDone? && After(run).calls[w].err.Some?
    ensures After(run).calls[w].err == Some(if a.Some? then a.value else ErrClosedPipe)
  {
    WriteResult(run, w);
    NothingStored(run, false);
    OnlyStored(run, true, a);
  }

  // ------------------------------------------------------------------ sizes of chunks

  /** What the size of a read still says about it. */
  predicate Within(c: Call, size: nat) {
    match c
    case RStart(n) => n == size
    case RWaiting(n) => n == size
    case RAcking(data) => |data| <= size
    case RDone(data, _) => |data| <= size
    case RClosed => true
    case RLoaded(_) => true
    case _ => false
  }

  /** No read ever takes more than it has room for. */
  lemma {:induction false} ReadWithin(run: seq<Step>, r: Id, size: nat)
    requires Valid(run) && Begin(r, RStart(size)) in run
    ensures r in After(run).calls && Within(After(run).calls[r], size)
  {
    var front, step := run[..|run| - 1], run[|run| - 1];
    assert run == front + [step];
    LastStep(run);
    if Begin(r, RStart(size)) in front {
      ReadWithin(front, r, size);
      WithinKept(After(front), step, r, size);
    } else {
      assert step == Begin(r, RStart(size));
    }
  }

  lemma WithinKept(s: State, step: Step, r: Id, size: nat)
    requires Enabled(s, step) && r in s.calls && Within(s.calls[r], size)
    ensures r in Next(s, step).calls && Within(Next(s, step).calls[r], size)
  {
  }

  /** A hand-over gives the reader the next bytes of the write: as many as it has room for, or
      all that are left. */
  lemma HandOverTakes(run: seq<Step>, w: Id, r: Id, size: nat)
    requires Valid(run) && Enabled(After(run), HandOver(w, r)) && Begin(r, RStart(size)) in run
    ensures var c := After(run).calls[w];
      var data := Next(After(run), HandOver(w, r)).calls[r].data;
      && c.n <= |c.b| && |data| == (if size < |c.b| - c.n then size else |c.b| - c.n)
      && data == c.b[c.n..c.n + |data|]
      && Next(After(run), HandOver(w, r)).chunks == After(run).chunks + [Chunk(r, w, data)]
  {
    ReadWithin(run, r, size);
  }

  // ----------------------------------------------------------------- empty writes wait

  /** A write that has been through its loop once has handed something over. */
  predicate Through(c: Call) {
    c.WAwaiting? || (c.WOffering? && !c.once) || (c.WDone? && c.err.None?)
  }

  ghost predicate Handed(s: State, w: Id) {
    exists i :: 0 <= i < |s.chunks| && s.chunks[i].writer == w
  }

  /** A write that returns nil, even of no bytes, has met a reader. */
  lemma {:induction false} WriteMeetsReader(run: seq<Step>, w: Id)
    requires Valid(run) && w in After(run).calls && Through(After(run).calls[w])
    ensures Handed(After(run), w)
  {
    if run != [] {
      var front, step := run[..|run| - 1], run[|run| - 1];
      LastStep(run);
      Reachable(front);
      ThroughBefore(After(front), step, w);
      if w in After(front).calls && Through(After(front).calls[w]) {
        WriteMeetsReader(front, w);
        var i :| 0 <= i < |After(front).chunks| && After(front).chunks[i].writer == w;
        assert After(run).chunks[i].writer == w;
      } else {
        assert After(run).chunks[|After(front).chunks|].writer == w;
      }
    }
  }

  lemma ThroughBefore(s: State, step: Step, w: Id)
    requires Enabled(s, step) && CountInv(s) && w in Next(s, step).calls && Through(Next(s, step).calls[w])
    ensures s.chunks <= Next(s, step).chunks
    ensures (w in s.calls && Through(s.calls[w])) ||
            (|Next(s, step).chunks| == |s.chunks| + 1 && Next(s, step).chunks[|s.chunks|].writer == w)
  {
  }

  // ----------------------------------------------------------------------- no deadlock

  predicate Writing(c: Call) { c.WStart? || c.WLocking? || c.WOffering? || c.WAwaiting? || c.WClosed? || c.WLoaded? }

  predicate Reading(c: Call) { c.RStart? || c.RWaiting? || c.RAcking? || c.RClosed? || c.RLoaded? }

  /** A step that an unfinished read can take by itself or with the writer that waits for it, unless
      it is waiting for a writer. */
  lemma ReaderMoves(run: seq<Step>, r: Id) returns (step: Step)
    requires Valid(run) && r in After(run).calls && Reading(After(run).calls[r]) && !After(run).calls[r].RWaiting?
    ensures !step.Begin? && Enabled(After(run), step)
  {
    var c := After(run).calls[r];
    if c.RAcking? {
      CountNeverBlocks(run, r);
      var w :| Enabled(After(run), Ack(w, r));
      return Ack(w, r);
    }
    step := if c.RStart? then ReadCheck(r) else if c.RClosed? then ReadLoad(r) else ReadFail(r);
  }

  /** And a step for an unfinished write while a read is waiting. */
  lemma WriterMoves(run: seq<Step>, w: Id, r: Id) returns (step: Step)
    requires Valid(run) && w in After(run).calls && Writing(After(run).calls[w])
    requires r in After(run).calls && After(run).calls[r].RWaiting?
    ensures !step.Begin? && Enabled(After(run), step)
  {
    Reachable(run);
    var s := After(run);
    hide After, Valid;
    var h := if s.calls[w].WLocking? && s.lock.Some? then s.lock.value else w;
    assert h in s.calls && (s.calls[h].WLocking? ==> s.lock.None?);
    step := HolderMoves(s, h, r);
  }

  lemma HolderMoves(s: State, h: Id, r: Id) returns (step: Step)
    requires CountInv(s) && AckInv(s) && h in s.calls && Writing(s.calls[h]) && (s.calls[h].WLocking? ==> s.lock.None?)
    requires r in s.calls && s.calls[r].RWaiting?
    ensures !step.Begin? && Enabled(s, step)
  {
    match s.calls[h]
    case WStart(_) => step := WriteCheck(h);
    case WLocking(_) => step := Lock(h);
    case WOffering(_, _, _) => step := if Looping(s.calls[h]) then HandOver(h, r) else WriteReturn(h);
    case WAwaiting(_, _) => step := Ack(h, s.chunks[|s.chunks| - 1].reader);
    case WClosed(_, _, _) => step := WriteLoad(h);
    case WLoaded(_, _, _, _) => step := WriteFail(h);
  }

  /** Unfinished writes and unfinished reads never all wait: with one of each, some call can move.
      As steps are bounded, either all writes finish or all reads do. */
  lemma NoDeadlock(run: seq<Step>, w: Id, r: Id)
    requires Valid(run) && w in After(run).calls && Writing(After(run).calls[w])
    requires r in After(run).calls && Reading(After(run).calls[r])
    ensures exists step: Step :: !step.Begin? && Enabled(After(run), step)
  {
    if After(run).calls[r].RWaiting? {
      var step := WriterMoves(run, w, r);
    } else {
      var step := ReaderMoves(run, r);
    }
  }
}
