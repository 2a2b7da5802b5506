/** What holds of the cancellation tree after every history of events. */
module ContextTheorems {
  import opened Prelude
  import opened ContextSpec

  // ------------------------------------------------------------------ invariant

  /** The state of one context taken alone. */
  predicate NodeOk(n: Node) {
    && (n.err.Some? <==> n.cause.Some?)
    && (n.err.Some? <==> n.done.Closed? || n.done.Shared?)
    && (n.err.Some? ==> n.children == {} && !n.armed)
    && (!Cancelable(n) ==> n.err.None? && n.children == {})
    && (n.armed ==> n.kind.Timer?)
  }

  /** The registered children of an uncancelled context are exactly its uncancelled
      cancelable children; a cancelled one has none left, registered or not. */
  ghost predicate LinkOk(nodes: seq<Node>, c: Id, d: Id)
    requires Formed(nodes) && In(nodes, c) && In(nodes, d)
  {
    && (nodes[c].err.None? ==> (d in nodes[c].children <==> Above(nodes, d) == Some(c) && nodes[d].err.None?))
    && (nodes[c].err.Some? && Above(nodes, d) == Some(c) ==> nodes[d].err.Some?)
    && (Above(nodes, d) == Some(c) ==> !nodes[c].done.NoChannel?)
  }

  ghost predicate ChildrenIn(nodes: seq<Node>, c: Id)
    requires c < |nodes|
  {
    forall d: Id :: d in nodes[c].children ==> In(nodes, d)
  }

  ghost predicate TreeInv(nodes: seq<Node>) {
    && Formed(nodes)
    && (forall c :: 0 <= c < |nodes| ==> NodeOk(nodes[c]))
    && (forall c: Id :: c < |nodes| ==> ChildrenIn(nodes, c))
    && (forall c: Id, d: Id :: In(nodes, c) && In(nodes, d) ==> LinkOk(nodes, c, d))
  }

  // ------------------------------------------------------------------- histories

  predicate Happens(events: seq<Event>)
    decreases |events|, 0
  {
    events == [] || (Happens(events[..|events| - 1]) && Possible(Run(events[..|events| - 1]), events[|events| - 1]))
  }

  function Run(events: seq<Event>): seq<Node>
    requires Happens(events)
    decreases |events|, 1
  {
    if events == [] then [ROOT] else Apply(Run(events[..|events| - 1]), events[|events| - 1])
  }

  /** A cancellation that starts at one context. */
  datatype Trigger = Trigger(target: Id, err: Error, cause: Error)

  /** The cancellation an event starts, whether or not it still has an effect. */
  function Starts(nodes: seq<Node>, e: Event): seq<Trigger>
    requires Possible(nodes, e)
  {
    match e
    case CancelCall(c, cause) => [Trigger(c, Canceled, cause.Or(Canceled))]
    case Fire(c) => [Trigger(c, DeadlineExceeded, nodes[c].late.Or(DeadlineExceeded))]
    case NewTimer(p, d, passed, late) =>
      var current := Deadline(nodes, p);
      if passed && !(current.Some? && current.value < d)
      then [Trigger(|nodes|, DeadlineExceeded, late.Or(DeadlineExceeded))] else []
    case _ => []
  }

  function Triggers(events: seq<Event>): seq<Trigger>
    requires Happens(events)
  {
    if events == [] then []
    else
      var before := events[..|events| - 1];
      Triggers(before) + Starts(Run(before), events[|events| - 1])
  }

  /** The first cancellation aimed at c or at a cancelable ancestor of c. */
  function First(nodes: seq<Node>, log: seq<Trigger>, c: Id): Option<Trigger>
    requires Formed(nodes) && In(nodes, c)
  {
    if log == [] then None
    else if Below(nodes, log[0].target, c) then Some(log[0])
    else First(nodes, log[1..], c)
  }

  /** err and cause of a context are those of the first cancellation that concerns it. */
  ghost predicate Explained(nodes: seq<Node>, log: seq<Trigger>, c: Id)
    requires Formed(nodes) && In(nodes, c)
  {
    match First(nodes, log, c)
    case None => nodes[c].err.None? && nodes[c].cause.None?
    case Some(t) => nodes[c].err == Some(t.err) && nodes[c].cause == Some(t.cause)
  }

  ghost predicate HistoryInv(nodes: seq<Node>, log: seq<Trigger>) {
    && Formed(nodes)
    && (forall i :: 0 <= i < |log| ==> log[i].target < |nodes|)
    && (forall c: Id :: In(nodes, c) ==> Explained(nodes, log, c))
  }

  // ------------------------------------------------------------- Below and First

  lemma {:induction false} BelowTrans(nodes: seq<Node>, a: Id, b: Id, c: Id)
    requires Formed(nodes) && In(nodes, b) && In(nodes, c) && Below(nodes, a, b) && Below(nodes, b, c)
    ensures Below(nodes, a, c)
    decreases c
  {
    if b != c {
      BelowTrans(nodes, a, b, Above(nodes, c).value);
    }
  }

  lemma {:induction false} BelowOrder(nodes: seq<Node>, a: Id, c: Id)
    requires Formed(nodes) && In(nodes, c) && Below(nodes, a, c)
    ensures a <= c && In(nodes, a)
    decreases c
  {
    if a != c {
      BelowOrder(nodes, a, Above(nodes, c).value);
    }
  }

  /** A cancelled context has cancelled everything below it. */
  lemma {:induction false} CancelledBelow(nodes: seq<Node>, a: Id, c: Id)
    requires TreeInv(nodes) && In(nodes, a) && In(nodes, c) && Below(nodes, a, c) && nodes[a].err.Some?
    ensures nodes[c].err.Some?
    decreases c
  {
    if a != c {
      var p := Above(nodes, c).value;
      CancelledBelow(nodes, a, p);
      assert LinkOk(nodes, p, c);
    }
  }

  lemma {:induction false} FirstAppend(nodes: seq<Node>, log: seq<Trigger>, t: Trigger, c: Id)
    requires Formed(nodes) && In(nodes, c)
    ensures First(nodes, log + [t], c) ==
            if First(nodes, log, c).Some? then First(nodes, log, c)
            else if Below(nodes, t.target, c) then Some(t) else None
  {
    if log == [] {
      assert [t][1..] == [];
    } else {
      assert (log + [t])[1..] == log[1..] + [t];
      FirstAppend(nodes, log[1..], t, c);
    }
  }

  lemma {:induction false} FirstSame(nodes: seq<Node>, nodes': seq<Node>, log: seq<Trigger>, c: Id)
    requires Formed(nodes) && Formed(nodes') && SameShape(nodes, nodes') && In(nodes, c)
    ensures In(nodes', c) && First(nodes', log, c) == First(nodes, log, c)
  {
    if log != [] {
      SameBelow(nodes, nodes', log[0].target, c);
      FirstSame(nodes, nodes', log[1..], c);
    }
  }

  /** A new context has no history of its own: only its ancestors can explain it. */
  lemma {:induction false} FirstNew(nodes: seq<Node>, log: seq<Trigger>, c: Id)
    requires Formed(nodes) && In(nodes, c)
    requires forall i :: 0 <= i < |log| ==> log[i].target < c
    ensures First(nodes, log, c) ==
            if Above(nodes, c).Some? then First(nodes, log, Above(nodes, c).value) else None
  {
    if log != [] {
      FirstNew(nodes, log[1..], c);
    }
  }

  // ------------------------------------------------------------ contexts created

  /** A new node without a cancel function of its own. */
  lemma PlainKeeps(nodes: seq<Node>, n: Node)
    requires TreeInv(nodes) && !Cancelable(n) && NodeOk(n) && (n.kind.Background? || n.parent < |nodes|)
    ensures TreeInv(nodes + [n])
  {
    var nodes' := nodes + [n];
    forall c: Id | c < |nodes'|
      ensures ChildrenIn(nodes', c)
    {
      assert c < |nodes| ==> ChildrenIn(nodes, c);
    }
    forall c: Id, d: Id | In(nodes', c) && In(nodes', d)
      ensures LinkOk(nodes', c, d)
    {
      SameBelow(nodes, nodes', c, d);
      assert LinkOk(nodes, c, d);
    }
  }

  /** What propagateCancel leaves behind, node by node. */
  lemma AttachedNodes(nodes: seq<Node>, n: Node, i: Id)
    requires TreeInv(nodes) && n.parent < |nodes| && i < |nodes|
    ensures var q, r := Nearest(nodes, n.parent), Attached(nodes, n);
            && r[i].err == nodes[i].err && r[i].cause == nodes[i].cause
            && NodeOk(r[i])
            && (q != Some(i) ==> r[i] == nodes[i])
            && (q == Some(i) ==> !r[i].done.NoChannel?)
            && (q == Some(i) && nodes[i].err.None? ==> r[i].children == nodes[i].children + {|nodes|})
            && (nodes[i].err.Some? ==> r[i].children == {})
            && (!nodes[i].done.NoChannel? ==> r[i].done == nodes[i].done)
  {
    assert NodeOk(nodes[i]);
    AttachedAt(nodes, n, i);
    hide TreeInv, Nearest, Formed, Attached, NodeOk, Touched, Registered;
    if Nearest(nodes, n.parent) == Some(i) {
      RegisteredNode(nodes[i], |nodes|);
    }
  }

  /** Only the nearest cancelable context of the parent changes. */
  lemma AttachedAt(nodes: seq<Node>, n: Node, i: Id)
    requires Formed(nodes) && n.parent < |nodes| && i < |nodes|
    ensures Attached(nodes, n)[i] ==
            if Nearest(nodes, n.parent) == Some(i) then Registered(nodes[i], |nodes|) else nodes[i]
  {
    hide Nearest, Formed, Touched, Stopped;
  }

  /** A context that gets child d, unless it is cancelled. */
  function Registered(n: Node, d: Id): Node {
    var p := Touched(n);
    if p.err.Some? then p else p.(children := p.children + {d})
  }

  lemma RegisteredNode(n: Node, d: Id)
    requires NodeOk(n) && Cancelable(n)
    ensures var r := Registered(n, d);
            && r.err == n.err && r.cause == n.cause && NodeOk(r) && !r.done.NoChannel?
            && (n.err.None? ==> r.children == n.children + {d})
            && (n.err.Some? ==> r.children == {})
            && (!n.done.NoChannel? ==> r.done == n.done)
  {
  }

  /** And the new node itself: it inherits a cancellation, or starts uncancelled. */
  lemma AttachedNew(nodes: seq<Node>, n: Node)
    requires TreeInv(nodes) && n.parent < |nodes| && Cancelable(n) && n == Fresh(n.kind, n.parent, n.deadline)
    ensures var q, m := Nearest(nodes, n.parent), Attached(nodes, n)[|nodes|];
            && NodeOk(m) && m.children == {} && Cancelable(m) && m.parent == n.parent && !m.armed
            && m.err == (if q.Some? then nodes[q.value].err else None)
            && m.cause == (if q.Some? then nodes[q.value].cause else None)
  {
    var q := Nearest(nodes, n.parent);
    if q.Some? {
      assert NodeOk(nodes[q.value]);
    }
  }

  lemma AttachedLink(nodes: seq<Node>, n: Node, c: Id, d: Id)
    requires TreeInv(nodes) && n.parent < |nodes| && Cancelable(n) && n == Fresh(n.kind, n.parent, n.deadline)
    requires Formed(Attached(nodes, n)) && SameShape(nodes, Attached(nodes, n))
    requires In(Attached(nodes, n), c) && In(Attached(nodes, n), d)
    ensures LinkOk(Attached(nodes, n), c, d)
  {
    var r, k := Attached(nodes, n), |nodes|;
    AttachedNew(nodes, n);
    SameNearest(nodes, r, n.parent);
    if c < k {
      AttachedNodes(nodes, n, c);
      if d < k {
        AttachedNodes(nodes, n, d);
        SameBelow(nodes, r, c, d);
        assert LinkOk(nodes, c, d);
      } else {
        assert ChildrenIn(nodes, c);
        assert d !in nodes[c].children;
      }
    } else if d < k {
      SameBelow(nodes, r, c, d);
    }
  }

  lemma AttachedKeeps(nodes: seq<Node>, n: Node)
    requires TreeInv(nodes) && n.parent < |nodes| && Cancelable(n) && n == Fresh(n.kind, n.parent, n.deadline)
    ensures TreeInv(Attached(nodes, n))
  {
    var r := Attached(nodes, n);
    AttachedFormed(nodes, n);
    AttachedNew(nodes, n);
    forall i | 0 <= i < |r|
      ensures NodeOk(r[i]) && ChildrenIn(r, i)
    {
      if i < |nodes| {
        AttachedNodes(nodes, n, i);
        assert ChildrenIn(nodes, i);
      }
    }
    forall c: Id, d: Id | In(r, c) && In(r, d)
      ensures LinkOk(r, c, d)
    {
      AttachedLink(nodes, n, c, d);
    }
  }

  lemma AttachedExplained(nodes: seq<Node>, log: seq<Trigger>, n: Node)
    requires TreeInv(nodes) && HistoryInv(nodes, log)
    requires n.parent < |nodes| && Cancelable(n) && n == Fresh(n.kind, n.parent, n.deadline)
    ensures HistoryInv(Attached(nodes, n), log)
  {
    var r := Attached(nodes, n);
    AttachedFormed(nodes, n);
    AttachedNew(nodes, n);
    SameNearest(nodes, r, n.parent);
    forall c: Id | In(r, c)
      ensures Explained(r, log, c)
    {
      if c < |nodes| {
        AttachedNodes(nodes, n, c);
        FirstSame(nodes, r, log, c);
        assert Explained(nodes, log, c);
      } else {
        FirstNew(r, log, c);
        if Above(r, c).Some? {
          var q := Above(r, c).value;
          FirstSame(nodes, r, log, q);
          assert Explained(nodes, log, q);
        }
      }
    }
  }

  lemma PlainExplained(nodes: seq<Node>, log: seq<Trigger>, n: Node)
    requires TreeInv(nodes) && HistoryInv(nodes, log) && !Cancelable(n) && TreeInv(nodes + [n])
    ensures HistoryInv(nodes + [n], log)
  {
    forall c: Id | In(nodes + [n], c)
      ensures Explained(nodes + [n], log, c)
    {
      FirstSame(nodes, nodes + [n], log, c);
      assert Explained(nodes, log, c);
    }
  }

  // --------------------------------------------------------------- cancellations

  /** Cancelling c, node by node. */
  lemma CancelledNodes(nodes: seq<Node>, c: Id, err: Error, cause: Option<Error>, d: Id)
    requires TreeInv(nodes) && In(nodes, c) && nodes[c].err.None? && d < |nodes|
    ensures var r := Cancelled(nodes, c, err, cause);
            var stops := Cancelable(nodes[d]) && nodes[d].err.None? && Below(nodes, c, d);
            && (stops ==> r[d].err == Some(err) && r[d].cause == Some(cause.Or(err)) && r[d].children == {})
            && (!stops ==> r[d].err == nodes[d].err && r[d].cause == nodes[d].cause)
            && (!stops ==>
                  r[d].children == if Above(nodes, c) == Some(d) then nodes[d].children - {c} else nodes[d].children)
            && NodeOk(r[d])
            && (!nodes[d].done.NoChannel? ==> !r[d].done.NoChannel?)
  {
    assert NodeOk(nodes[d]);
    var after := CancelTree(nodes, c, err, cause.Or(err));
    SameNearest(nodes, after, nodes[c].parent);
    if Above(nodes, c) == Some(d) {
      if Below(nodes, c, d) {
        BelowOrder(nodes, c, d);
        assert false;
      }
      assert LinkOk(nodes, d, c);
    }
  }

  lemma CancelledLink(nodes: seq<Node>, c: Id, err: Error, cause: Option<Error>, x: Id, d: Id)
    requires TreeInv(nodes) && In(nodes, c) && nodes[c].err.None? && In(nodes, x) && In(nodes, d)
    requires Formed(Cancelled(nodes, c, err, cause)) && SameShape(nodes, Cancelled(nodes, c, err, cause))
    ensures In(Cancelled(nodes, c, err, cause), x) && In(Cancelled(nodes, c, err, cause), d)
    ensures LinkOk(Cancelled(nodes, c, err, cause), x, d)
  {
    var r := Cancelled(nodes, c, err, cause);
    CancelledNodes(nodes, c, err, cause, x);
    CancelledNodes(nodes, c, err, cause, d);
    hide Cancelled;
    SameBelow(nodes, r, c, d);
    assert LinkOk(nodes, x, d);
    if Above(nodes, d) == Some(x) {
      assert Below(nodes, c, d) <==> c == d || Below(nodes, c, x);
    }
  }

  lemma CancelledKeeps(nodes: seq<Node>, c: Id, err: Error, cause: Option<Error>)
    requires TreeInv(nodes) && In(nodes, c)
    ensures TreeInv(Cancelled(nodes, c, err, cause))
  {
    if nodes[c].err.None? {
      var r := Cancelled(nodes, c, err, cause);
      CancelledShape(nodes, c, err, cause);
      forall i | 0 <= i < |r|
        ensures NodeOk(r[i]) && ChildrenIn(r, i)
      {
        CancelledNodes(nodes, c, err, cause, i);
        assert ChildrenIn(nodes, i);
      }
      forall x: Id, d: Id | In(r, x) && In(r, d)
        ensures LinkOk(r, x, d)
      {
        CancelledLink(nodes, c, err, cause, x, d);
      }
    }
  }

  lemma CancelledExplained(nodes: seq<Node>, log: seq<Trigger>, c: Id, err: Error, cause: Option<Error>)
    requires TreeInv(nodes) && HistoryInv(nodes, log) && In(nodes, c)
    ensures HistoryInv(Cancelled(nodes, c, err, cause), log + [Trigger(c, err, cause.Or(err))])
  {
    var r, t := Cancelled(nodes, c, err, cause), Trigger(c, err, cause.Or(err));
    CancelledShape(nodes, c, err, cause);
    forall d: Id | In(r, d)
      ensures Explained(r, log + [t], d)
    {
      FirstAppend(r, log, t, d);
      FirstSame(nodes, r, log, d);
      SameBelow(nodes, r, c, d);
      assert Explained(nodes, log, d);
      if nodes[c].err.None? {
        CancelledNodes(nodes, c, err, cause, d);
      } else if Below(nodes, c, d) {
        CancelledBelow(nodes, c, d);
      }
    }
  }

  /** Starting the timer of a new context changes neither structure nor errors. */
  lemma ArmedTree(nodes: seq<Node>, c: Id, late: Option<Error>)
    requires TreeInv(nodes) && In(nodes, c) && nodes[c].err.None? && nodes[c].kind.Timer?
    ensures TreeInv(nodes[c := nodes[c].(armed := true, late := late)])
  {
    var r := nodes[c := nodes[c].(armed := true, late := late)];
    assert NodeOk(nodes[c]);
    forall i: Id | i < |r|
      ensures ChildrenIn(r, i)
    {
      assert ChildrenIn(nodes, i);
    }
    forall x: Id, d: Id | In(r, x) && In(r, d)
      ensures LinkOk(r, x, d)
    {
      SameBelow(nodes, r, x, d);
      assert LinkOk(nodes, x, d);
    }
  }

  lemma ArmedExplained(nodes: seq<Node>, log: seq<Trigger>, c: Id, late: Option<Error>)
    requires HistoryInv(nodes, log) && In(nodes, c)
    ensures HistoryInv(nodes[c := nodes[c].(armed := true, late := late)], log)
  {
    var r := nodes[c := nodes[c].(armed := true, late := late)];
    forall d: Id | In(r, d)
      ensures Explained(r, log, d)
    {
      FirstSame(nodes, r, log, d);
      assert Explained(nodes, log, d);
    }
  }

  // ---------------------------------------------------------------- every history

  lemma ApplyKeeps(nodes: seq<Node>, log: seq<Trigger>, e: Event)
    requires TreeInv(nodes) && HistoryInv(nodes, log) && Possible(nodes, e)
    ensures TreeInv(Apply(nodes, e)) && HistoryInv(Apply(nodes, e), log + Starts(nodes, e))
  {
    assert log + [] == log;
    hide TreeInv, HistoryInv, Cancelled, Attached;
    match e
    case NewValue(p) => PlainEvent(nodes, log, Fresh(Value, p, 0));
    case NewWithoutCancel(p) => PlainEvent(nodes, log, Fresh(WithoutCancel, p, 0));
    case NewCancel(p) =>
      AttachedKeeps(nodes, Fresh(Cancel, p, 0));
      AttachedExplained(nodes, log, Fresh(Cancel, p, 0));
    case NewTimer(p, d, passed, late) => TimerEvent(nodes, log, e);
    case CancelCall(c, cause) =>
      CancelledKeeps(nodes, c, Canceled, cause);
      CancelledExplained(nodes, log, c, Canceled, cause);
    case Fire(c) =>
      CancelledKeeps(nodes, c, DeadlineExceeded, nodes[c].late);
      CancelledExplained(nodes, log, c, DeadlineExceeded, nodes[c].late);
  }

  lemma PlainEvent(nodes: seq<Node>, log: seq<Trigger>, n: Node)
    requires TreeInv(nodes) && HistoryInv(nodes, log) && !Cancelable(n) && NodeOk(n) && n.parent < |nodes|
    ensures TreeInv(nodes + [n]) && HistoryInv(nodes + [n], log)
  {
    hide TreeInv, HistoryInv;
    PlainKeeps(nodes, n);
    PlainExplained(nodes, log, n);
  }

  lemma TimerEvent(nodes: seq<Node>, log: seq<Trigger>, e: Event)
    requires TreeInv(nodes) && HistoryInv(nodes, log) && Possible(nodes, e) && e.NewTimer?
    ensures TreeInv(Apply(nodes, e)) && HistoryInv(Apply(nodes, e), log + Starts(nodes, e))
  {
    assert log + [] == log;
    var NewTimer(p, d, passed, late) := e;
    var current := Deadline(nodes, p);
    var n := if current.Some? && current.value < d then Fresh(Cancel, p, 0) else Fresh(Timer, p, d);
    AttachedFormed(nodes, n);
    AttachedKeeps(nodes, n);
    AttachedExplained(nodes, log, n);
    hide TreeInv, HistoryInv, Cancelled, Attached;
    if n.kind.Timer? {
      var after := Attached(nodes, n);
      if passed {
        CancelledKeeps(after, |nodes|, DeadlineExceeded, late);
        CancelledExplained(after, log, |nodes|, DeadlineExceeded, late);
      } else if after[|nodes|].err.None? {
        ArmedTree(after, |nodes|, late);
        ArmedExplained(after, log, |nodes|, late);
      }
    }
  }

  lemma {:induction false} Always(events: seq<Event>)
    requires Happens(events)
    ensures TreeInv(Run(events)) && HistoryInv(Run(events), Triggers(events))
  {
    if events != [] {
      var before := events[..|events| - 1];
      Always(before);
      ApplyKeeps(Run(before), Triggers(before), events[|events| - 1]);
    }
  }

  /** After every history a cancelled context has no registered children and everything
      below it is cancelled, and an uncancelled one has registered exactly its uncancelled
      cancelable children. */
  lemma TreeTheorem(events: seq<Event>, c: Id)
    requires Happens(events)
    ensures Formed(Run(events))
    ensures In(Run(events), c) ==>
              var nodes := Run(events);
              if nodes[c].err.Some? then
                nodes[c].children == {} && forall d: Id :: In(nodes, d) && Below(nodes, c, d) ==> nodes[d].err.Some?
              else
                forall d: Id :: d in nodes[c].children <==>
                              In(nodes, d) && Above(nodes, d) == Some(c) && nodes[d].err.None?
  {
    Always(events);
    var nodes := Run(events);
    if In(nodes, c) {
      TreeReport(nodes, c);
    }
  }

  lemma TreeReport(nodes: seq<Node>, c: Id)
    requires TreeInv(nodes) && In(nodes, c)
    ensures if nodes[c].err.Some? then
              nodes[c].children == {} && forall d: Id :: In(nodes, d) && Below(nodes, c, d) ==> nodes[d].err.Some?
            else
              forall d: Id :: d in nodes[c].children <==>
                            In(nodes, d) && Above(nodes, d) == Some(c) && nodes[d].err.None?
  {
    assert NodeOk(nodes[c]);
    if nodes[c].err.Some? {
      forall d: Id | In(nodes, d) && Below(nodes, c, d)
        ensures nodes[d].err.Some?
      {
        CancelledBelow(nodes, c, d);
      }
    } else {
      assert ChildrenIn(nodes, c);
      forall d: Id
        ensures d in nodes[c].children <==> In(nodes, d) && Above(nodes, d) == Some(c) && nodes[d].err.None?
      {
        if In(nodes, d) {
          assert LinkOk(nodes, c, d);
        }
      }
    }
  }

  lemma {:induction false} ErrIsNearest(nodes: seq<Node>, c: Id)
    requires Formed(nodes) && c < |nodes|
    ensures Err(nodes, c) == if Nearest(nodes, c).Some? then nodes[Nearest(nodes, c).value].err else None
    decreases c
  {
    if nodes[c].kind.Value? {
      ErrIsNearest(nodes, nodes[c].parent);
    }
  }

  /** Err and Cause of any context, after every history, are those of the first cancellation
      aimed at its nearest cancelable context or an ancestor of that one up to any
      WithoutCancel; both are nil if there was none. */
  lemma HistoryTheorem(events: seq<Event>, c: Id)
    requires Happens(events) && c < |Run(events)|
    ensures Formed(Run(events))
    ensures var nodes := Run(events);
            var q := Nearest(nodes, c);
            var first := if q.Some? then First(nodes, Triggers(events), q.value) else None;
            && Err(nodes, c) == (if first.Some? then Some(first.value.err) else None)
            && Cause(nodes, c) == (if first.Some? then Some(first.value.cause) else None)
  {
    Always(events);
    var nodes := Run(events);
    ErrIsNearest(nodes, c);
    var q := Nearest(nodes, c);
    if q.Some? {
      assert Explained(nodes, Triggers(events), q.value);
    }
  }

  /** Err and Cause never change once set, whatever happens later. */
  lemma {:induction false} WriteOnce(events: seq<Event>, k: nat, c: Id)
    requires Happens(events) && k <= |events|
    ensures Happens(events[..k])
    ensures Formed(Run(events[..k])) && Formed(Run(events)) && |Run(events[..k])| <= |Run(events)|
    ensures c < |Run(events[..k])| && Err(Run(events[..k]), c).Some? ==>
              && Err(Run(events), c) == Err(Run(events[..k]), c)
              && Cause(Run(events), c) == Cause(Run(events[..k]), c)
  {
    Always(events);
    if k == |events| {
      assert events[..k] == events;
    } else {
      var before, e := events[..|events| - 1], events[|events| - 1];
      assert before[..k] == events[..k];
      WriteOnce(before, k, c);
      Always(before);
      ApplyShape(Run(before), e);
      if c < |Run(before)| {
        ErrSticks(Run(before), Triggers(before), e, c);
      }
    }
  }

  lemma {:induction false} FirstPrefix(nodes: seq<Node>, log: seq<Trigger>, more: seq<Trigger>, c: Id)
    requires Formed(nodes) && In(nodes, c) && First(nodes, log, c).Some?
    ensures First(nodes, log + more, c) == First(nodes, log, c)
  {
    assert (log + more)[1..] == log[1..] + more;
    if !Below(nodes, log[0].target, c) {
      FirstPrefix(nodes, log[1..], more, c);
    }
  }

  lemma ErrSticks(nodes: seq<Node>, log: seq<Trigger>, e: Event, c: Id)
    requires TreeInv(nodes) && HistoryInv(nodes, log) && Possible(nodes, e) && c < |nodes|
    requires Formed(Apply(nodes, e)) && SameShape(nodes, Apply(nodes, e))
    ensures Err(nodes, c).Some? ==>
              Err(Apply(nodes, e), c) == Err(nodes, c) && Cause(Apply(nodes, e), c) == Cause(nodes, c)
  {
    var r := Apply(nodes, e);
    ApplyKeeps(nodes, log, e);
    ErrIsNearest(nodes, c);
    ErrIsNearest(r, c);
    SameNearest(nodes, r, c);
    var q := Nearest(nodes, c);
    if q.Some? && nodes[q.value].err.Some? {
      assert Explained(nodes, log, q.value);
      assert Explained(r, log + Starts(nodes, e), q.value);
      FirstSame(nodes, r, log + Starts(nodes, e), q.value);
      FirstPrefix(nodes, log, Starts(nodes, e), q.value);
    }
  }
}
