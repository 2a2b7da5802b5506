/**
 * Deadlines and timers of the cancellation tree, after every history of events: a context with
 * a deadline of its own has an armed timer until it is cancelled, and Deadline is the least
 * deadline on the way up.
 */
module ContextTimers {
  import opened Prelude
  import opened ContextSpec
  import opened ContextTheorems

  // -------------------------------------------------------- what one event does to a timer

  /** Nobody but a cancellation changes a timer that exists. */
  lemma TimerKept(nodes: seq<Node>, e: Event, c: Id)
    requires Possible(nodes, e) && c < |nodes| && c < |Apply(nodes, e)| && Apply(nodes, e)[c].err.None?
    ensures nodes[c].err.None?
    ensures Apply(nodes, e)[c].armed == nodes[c].armed && Apply(nodes, e)[c].late == nodes[c].late
  {
    match e
    case NewValue(_) =>
    case NewWithoutCancel(_) =>
    case NewCancel(p) => AttachedKept(nodes, Fresh(Cancel, p, 0), c);
    case NewTimer(p, d, passed, late) =>
      AttachedFormed(nodes, Fresh(Timer, p, d));
      AttachedKept(nodes, Fresh(Cancel, p, 0), c);
      AttachedKept(nodes, Fresh(Timer, p, d), c);
      if passed {
        CancelledKept(Attached(nodes, Fresh(Timer, p, d)), |nodes|, DeadlineExceeded, late, c);
      }
    case CancelCall(t, cause) => CancelledKept(nodes, t, Canceled, cause, c);
    case Fire(t) => CancelledKept(nodes, t, DeadlineExceeded, nodes[t].late, c);
  }

  lemma AttachedKept(nodes: seq<Node>, n: Node, c: Id)
    requires Formed(nodes) && n.parent < |nodes| && c < |nodes|
    ensures var x := Attached(nodes, n)[c];
      x.err == nodes[c].err && x.armed == nodes[c].armed && x.late == nodes[c].late
  {
  }

  lemma CancelledKept(nodes: seq<Node>, t: Id, err: Error, cause: Option<Error>, c: Id)
    requires Formed(nodes) && In(nodes, t) && c < |nodes|
    ensures var x := Cancelled(nodes, t, err, cause)[c];
      x.err.None? ==> nodes[c].err.None? && x.armed == nodes[c].armed && x.late == nodes[c].late
  {
  }

  /** A new context with a deadline: a timer of its own, armed unless it is cancelled already,
      or, behind an earlier deadline, none. */
  lemma TimerMade(nodes: seq<Node>, p: Id, d: int, passed: bool, late: Option<Error>)
    requires Possible(nodes, NewTimer(p, d, passed, late))
    ensures var r := Apply(nodes, NewTimer(p, d, passed, late));
      && |r| == |nodes| + 1 && r[|nodes|].parent == p
      && (r[|nodes|].kind.Timer? <==> !(Deadline(nodes, p).Some? && Deadline(nodes, p).value < d))
      && (r[|nodes|].kind.Timer? ==>
            && r[|nodes|].deadline == d
            && (passed ==> r[|nodes|].err.Some?)
            && (r[|nodes|].err.None? ==> r[|nodes|].armed && r[|nodes|].late == late))
  {
    AttachedFormed(nodes, Fresh(Timer, p, d));
    AttachedFormed(nodes, Fresh(Cancel, p, 0));
    NewestAttached(nodes, Fresh(Timer, p, d));
    if passed {
      NewestCancelled(Attached(nodes, Fresh(Timer, p, d)), |nodes|, late);
    }
  }

  lemma NewestAttached(nodes: seq<Node>, n: Node)
    requires Formed(nodes) && n.parent < |nodes|
    ensures var x := Attached(nodes, n)[|nodes|]; x.kind == n.kind && x.parent == n.parent && x.deadline == n.deadline
  {
  }

  lemma NewestCancelled(nodes: seq<Node>, c: Id, late: Option<Error>)
    requires Formed(nodes) && In(nodes, c)
    ensures var x := Cancelled(nodes, c, DeadlineExceeded, late)[c];
      x.err.Some? && x.kind == nodes[c].kind && x.parent == nodes[c].parent && x.deadline == nodes[c].deadline
  {
    CancelledShape(nodes, c, DeadlineExceeded, late);
  }

  // ---------------------------------------------------------------------- over histories

  /** Event k made node c, a timer, with the deadline and the cause it still has. */
  ghost predicate MadeAt(events: seq<Event>, c: Id, k: nat)
    requires Happens(events) && c < |Run(events)|
  {
    && k < |events| && events[k].NewTimer? && Happens(events[..k]) && |Run(events[..k])| == c
    && var n := Run(events)[c];
    && n.parent == events[k].parent < c && n.deadline == events[k].deadline
    && Formed(Run(events[..k])) && SameShape(Run(events[..k]), Run(events))
    && (Deadline(Run(events[..k]), n.parent).Some? ==> Deadline(Run(events[..k]), n.parent).value >= n.deadline)
    && (n.err.None? ==> n.armed && n.late == events[k].late)
  }

  /** Every timer was made by an event, and until it is cancelled it is armed with the cause that
      event gave. */
  lemma {:induction false} TimersArmed(events: seq<Event>, c: Id)
    requires Happens(events) && c < |Run(events)| && Run(events)[c].kind.Timer?
    ensures exists k: nat :: MadeAt(events, c, k)
  {
    if events != [] {
      var front, e := events[..|events| - 1], events[|events| - 1];
      var before, after := Run(front), Run(events);
      Always(front);
      ApplyShape(before, e);
      if c < |before| {
        TimersArmed(front, c);
        var k: nat :| MadeAt(front, c, k);
        if after[c].err.None? {
          TimerKept(before, e, c);
        }
        MadeBefore(events, c, k);
      } else {
        NewestMade(events, c);
      }
    }
  }

  lemma MadeBefore(events: seq<Event>, c: Id, k: nat)
    requires Happens(events) && events != [] && c < |Run(events)|
    requires var front := events[..|events| - 1];
      && Happens(front) && c < |Run(front)| && MadeAt(front, c, k) && SameShape(Run(front), Run(events))
      && (Run(events)[c].err.None? ==>
            && Run(front)[c].err.None?
            && Run(events)[c].armed == Run(front)[c].armed && Run(events)[c].late == Run(front)[c].late)
    ensures MadeAt(events, c, k)
  {
    var front := events[..|events| - 1];
    hide Run, Happens, Deadline, Formed;
    assert events[..k] == front[..k];
    ShapeOn(Run(events[..k]), Run(front), Run(events));
  }

  lemma ShapeOn(a: seq<Node>, b: seq<Node>, c: seq<Node>)
    requires SameShape(a, b) && SameShape(b, c)
    ensures SameShape(a, c)
  {
  }

  lemma NewestMade(events: seq<Event>, c: Id)
    requires Happens(events) && events != [] && c < |Run(events)| && Run(events)[c].kind.Timer?
    requires var front := events[..|events| - 1];
      && Happens(front) && |Run(front)| <= c && Formed(Run(front)) && SameShape(Run(front), Run(events))
    ensures MadeAt(events, c, |events| - 1)
  {
    var front, e := events[..|events| - 1], events[|events| - 1];
    var before := Run(front);
    OneNew(before, e);
    if e.NewTimer? {
      TimerMade(before, e.parent, e.deadline, e.passed, e.late);
    }
  }

  /** An event makes at most one node, and a timer only for a deadline. */
  lemma OneNew(nodes: seq<Node>, e: Event)
    requires Possible(nodes, e)
    ensures |Apply(nodes, e)| <= |nodes| + 1
    ensures |Apply(nodes, e)| == |nodes| + 1 && Apply(nodes, e)[|nodes|].kind.Timer? ==> e.NewTimer?
  {
    match e
    case NewCancel(p) => NewestAttached(nodes, Fresh(Cancel, p, 0));
    case NewTimer(p, d, passed, late) => TimerMade(nodes, p, d, passed, late);
    case _ =>
  }

  /** An uncancelled context with a deadline of its own can expire; then Err is DeadlineExceeded and
      Cause the cause given for it when it was made, or DeadlineExceeded if there was none. */
  lemma Expires(events: seq<Event>, c: Id)
    requires Happens(events) && c < |Run(events)| && Run(events)[c].kind.Timer? && Run(events)[c].err.None?
    ensures Happens(events + [Fire(c)]) && c < |Run(events + [Fire(c)])|
    ensures exists k: nat ::
      && MadeAt(events, c, k) && Formed(Run(events + [Fire(c)]))
      && Err(Run(events + [Fire(c)]), c) == Some(DeadlineExceeded)
      && Cause(Run(events + [Fire(c)]), c) == Some(match events[k].late case Some(x) => x case None => DeadlineExceeded)
  {
    TimersArmed(events, c);
    var k: nat :| MadeAt(events, c, k);
    Always(events);
    var nodes, more := Run(events), events + [Fire(c)];
    assert more[..|more| - 1] == events;
    assert Possible(nodes, Fire(c));
    ApplyShape(nodes, Fire(c));
    Fired(nodes, c);
    assert Run(more) == Apply(nodes, Fire(c));
  }

  lemma Fired(nodes: seq<Node>, c: Id)
    requires Possible(nodes, Fire(c)) && nodes[c].err.None? && nodes[c].kind.Timer?
    ensures Formed(Apply(nodes, Fire(c))) && c < |Apply(nodes, Fire(c))|
    ensures Err(Apply(nodes, Fire(c)), c) == Some(DeadlineExceeded)
    ensures Cause(Apply(nodes, Fire(c)), c) == Some(match nodes[c].late case Some(x) => x case None => DeadlineExceeded)
  {
    CancelledShape(nodes, c, DeadlineExceeded, nodes[c].late);
  }

  // -------------------------------------------------------------------------- deadlines

  /** a is c, or an ancestor whose deadline c inherits: not past a WithoutCancel. */
  predicate Inherits(nodes: seq<Node>, a: Id, c: Id)
    requires Formed(nodes) && c < |nodes|
    decreases c
  {
    a == c ||
    (!nodes[c].kind.WithoutCancel? && !nodes[c].kind.Background? && Inherits(nodes, a, nodes[c].parent))
  }

  lemma {:induction false} SameDeadline(nodes: seq<Node>, nodes': seq<Node>, c: Id)
    requires Formed(nodes) && Formed(nodes') && SameShape(nodes, nodes') && c < |nodes|
    ensures Deadline(nodes', c) == Deadline(nodes, c)
    decreases c
  {
    if nodes[c].kind.Cancel? || nodes[c].kind.Value? {
      SameDeadline(nodes, nodes', nodes[c].parent);
    }
  }

  /** Deadline is the least deadline of the timers a context inherits from, and there is one
      exactly if there is such a timer. */
  lemma {:induction false} LeastDeadline(events: seq<Event>, c: Id, a: Id)
    requires Happens(events) && Formed(Run(events)) && c < |Run(events)| && a < |Run(events)|
    requires Run(events)[a].kind.Timer? && Inherits(Run(events), a, c)
    ensures Deadline(Run(events), c).Some? && Deadline(Run(events), c).value <= Run(events)[a].deadline
    decreases c
  {
    var nodes := Run(events);
    if a != c {
      LeastDeadline(events, nodes[c].parent, a);
      if nodes[c].kind.Timer? {
        TimersArmed(events, c);
        var k: nat :| MadeAt(events, c, k);
        SameDeadline(Run(events[..k]), nodes, nodes[c].parent);
      }
    }
  }

  lemma {:induction false} SomeDeadline(nodes: seq<Node>, c: Id)
    requires Formed(nodes) && c < |nodes| && Deadline(nodes, c).Some?
    ensures exists a: Id ::
      && a < |nodes| && nodes[a].kind.Timer? && Inherits(nodes, a, c)
      && nodes[a].deadline == Deadline(nodes, c).value
    decreases c
  {
    if nodes[c].kind.Timer? {
      assert Inherits(nodes, c, c);
    } else {
      SomeDeadline(nodes, nodes[c].parent);
      var a: Id :| a < |nodes| && nodes[a].kind.Timer? && Inherits(nodes, a, nodes[c].parent) &&
        nodes[a].deadline == Deadline(nodes, nodes[c].parent).value;
      assert Inherits(nodes, a, c);
    }
  }

  /** WithDeadline gives the new context the smaller of its own and its parent's deadline. */
  lemma NewDeadline(nodes: seq<Node>, p: Id, d: int, passed: bool, late: Option<Error>)
    requires Possible(nodes, NewTimer(p, d, passed, late))
    ensures var r := Apply(nodes, NewTimer(p, d, passed, late));
      && Formed(r) && |r| == |nodes| + 1
      && Deadline(r, |nodes|) == Some(match Deadline(nodes, p) case None => d case Some(x) => if x < d then x else d)
  {
    var e := NewTimer(p, d, passed, late);
    ApplyShape(nodes, e);
    TimerMade(nodes, p, d, passed, late);
    SameDeadline(nodes, Apply(nodes, e), p);
    if Deadline(nodes, p).Some? && Deadline(nodes, p).value < d {
      NewestAttached(nodes, Fresh(Cancel, p, 0));
    }
  }
}
