/**
 * context/context.go as code: the contexts live in one store whose nodes the methods
 * update in place, with the source's loops, recursion and locks.
 *
 * Each exported operation is proved to do exactly what ContextSpec.Apply says, so the
 * theorems about histories hold of it. The ghost stack held records the mutexes that are
 * locked; Lock demands that each of them belongs to an ancestor, so nested locks are only
 * ever taken down the tree.
 */
module ContextTree {
  import opened Prelude
  import opened ContextSpec
  import opened ContextTheorems

  // ------------------------------------------------- what cancel relies on below c

  /** The part of the invariant that concerns c and everything below it. */
  ghost predicate Subtree(nodes: seq<Node>, c: Id) {
    && Formed(nodes)
    && In(nodes, c)
    && forall x: Id :: In(nodes, x) && Below(nodes, c, x) ==> Linked(nodes, x)
  }

  ghost predicate Linked(nodes: seq<Node>, x: Id)
    requires Formed(nodes) && In(nodes, x)
  {
    && NodeOk(nodes[x])
    && ChildrenIn(nodes, x)
    && forall d: Id :: In(nodes, d) ==> LinkOk(nodes, x, d)
  }

  lemma TreeSubtree(nodes: seq<Node>, c: Id)
    requires TreeInv(nodes) && In(nodes, c)
    ensures Subtree(nodes, c)
  {
    forall x: Id | In(nodes, x) && Below(nodes, c, x)
      ensures Linked(nodes, x)
    {
      assert ChildrenIn(nodes, x);
    }
  }

  /** The child of c through which d descends from c. */
  function Branch(nodes: seq<Node>, c: Id, d: Id): (k: Id)
    requires Formed(nodes) && In(nodes, d) && Below(nodes, c, d) && c != d
    ensures In(nodes, k) && Above(nodes, k) == Some(c) && Below(nodes, k, d)
    decreases d
  {
    if Above(nodes, d) == Some(c) then d else Branch(nodes, c, Above(nodes, d).value)
  }

  lemma {:induction false} BranchUnique(nodes: seq<Node>, c: Id, k: Id, d: Id)
    requires Formed(nodes) && In(nodes, k) && In(nodes, d) && Above(nodes, k) == Some(c) && Below(nodes, k, d)
    ensures Below(nodes, c, d) && c != d && Branch(nodes, c, d) == k
    decreases d
  {
    BelowOrder(nodes, k, d);
    if k != d {
      BranchUnique(nodes, c, k, Above(nodes, d).value);
      if Above(nodes, d) == Some(c) {
        BelowOrder(nodes, k, c);
        assert false;
      }
    }
  }

  lemma {:induction false} SubtreeCancelled(nodes: seq<Node>, c: Id, x: Id, d: Id)
    requires Subtree(nodes, c) && In(nodes, x) && In(nodes, d) && Below(nodes, c, x) && Below(nodes, x, d)
    requires nodes[x].err.Some?
    ensures nodes[d].err.Some?
    decreases d
  {
    if x != d {
      var p := Above(nodes, d).value;
      SubtreeCancelled(nodes, c, x, p);
      BelowTrans(nodes, c, x, p);
      assert Linked(nodes, p);
      assert LinkOk(nodes, p, d);
    }
  }

  // ------------------------------------------------------------- cancel, half way

  /** c is marked cancelled but still lists its children. */
  function Marked(n: Node, err: Error, cause: Error): Node {
    n.(err := Some(err), cause := Some(cause), done := if n.done.NoChannel? then Shared else Closed)
  }

  /** d lies below one of the children of c that have been dealt with. */
  predicate Reached(nodes: seq<Node>, c: Id, finished: set<Id>, d: Id)
    requires Formed(nodes) && d < |nodes|
  {
    Cancelable(nodes[d]) && nodes[d].err.None? && c != d && Below(nodes, c, d) && Branch(nodes, c, d) in finished
  }

  /** The store while c goes through its children. */
  ghost predicate Partway(base: seq<Node>, nodes: seq<Node>, c: Id, finished: set<Id>, err: Error, cause: Error)
    requires Formed(base) && In(base, c)
  {
    && |nodes| == |base|
    && nodes[c] == Marked(base[c], err, cause)
    && forall d: Id :: d < |base| && d != c ==>
         nodes[d] == if Reached(base, c, finished, d) then Stopped(base[d], err, cause) else base[d]
  }

  lemma SubtreeAt(base: seq<Node>, c: Id)
    requires Subtree(base, c)
    ensures Formed(base) && In(base, c) && NodeOk(base[c])
  {
    assert Linked(base, c);
  }

  lemma PartwayStart(base: seq<Node>, c: Id, err: Error, cause: Error)
    requires Formed(base) && In(base, c)
    ensures Partway(base, base[c := Marked(base[c], err, cause)], c, {}, err, cause)
  {
  }

  lemma PartwayAt(base: seq<Node>, nodes: seq<Node>, c: Id, finished: set<Id>, err: Error, cause: Error)
    requires Formed(base) && In(base, c) && Partway(base, nodes, c, finished, err, cause)
    ensures |nodes| == |base| && nodes[c] == Marked(base[c], err, cause)
  {
  }

  lemma PartwayShape(base: seq<Node>, nodes: seq<Node>, c: Id, finished: set<Id>, err: Error, cause: Error)
    requires Formed(base) && In(base, c) && Partway(base, nodes, c, finished, err, cause)
    ensures SameShape(base, nodes) && Formed(nodes)
  {
    forall i: Id | i < |base|
      ensures nodes[i].kind == base[i].kind && nodes[i].parent == base[i].parent &&
              nodes[i].deadline == base[i].deadline
    {
    }
  }

  /** The next child's subtree is still as it was. */
  lemma PartwaySubtree(base: seq<Node>, nodes: seq<Node>, c: Id, finished: set<Id>, err: Error, cause: Error, k: Id)
    requires Subtree(base, c) && Partway(base, nodes, c, finished, err, cause)
    requires In(base, k) && Above(base, k) == Some(c) && k !in finished
    ensures Subtree(nodes, k)
  {
    PartwayShape(base, nodes, c, finished, err, cause);
    forall x: Id | In(nodes, x) && Below(nodes, k, x)
      ensures Linked(nodes, x)
    {
      SameBelow(base, nodes, k, x);
      BranchUnique(base, c, k, x);
      assert Linked(base, x);
      assert nodes[x] == base[x];
      assert ChildrenIn(base, x);
      forall d: Id | In(nodes, d)
        ensures LinkOk(nodes, x, d)
      {
        SameBelow(base, nodes, k, d);
        assert LinkOk(base, x, d);
        if Above(base, d) == Some(x) {
          BranchUnique(base, c, k, d);
          assert nodes[d] == base[d];
        }
      }
    }
  }

  /** Cancelling one more child is one more step of the loop. */
  lemma PartwayNext(base: seq<Node>, nodes: seq<Node>, nodes': seq<Node>, c: Id, finished: set<Id>,
                    err: Error, cause: Error, k: Id)
    requires Subtree(base, c) && Partway(base, nodes, c, finished, err, cause)
    requires In(base, k) && Above(base, k) == Some(c) && k !in finished
    requires Formed(nodes) && In(nodes, k) && nodes' == CancelTree(nodes, k, err, cause)
    ensures Partway(base, nodes', c, finished + {k}, err, cause)
  {
    PartwayShape(base, nodes, c, finished, err, cause);
    forall d: Id | d < |base|
      ensures d != c ==>
        nodes'[d] == if Reached(base, c, finished + {k}, d) then Stopped(base[d], err, cause) else base[d]
      ensures d == c ==> nodes'[d] == nodes[d]
    {
      if Cancelable(base[d]) {
        SameBelow(base, nodes, k, d);
        PartwayNode(base, c, finished, k, d);
      }
    }
  }

  lemma PartwayNode(base: seq<Node>, c: Id, finished: set<Id>, k: Id, d: Id)
    requires Formed(base) && In(base, d) && In(base, k) && Above(base, k) == Some(c) && k !in finished
    ensures Reached(base, c, finished + {k}, d) <==>
            Reached(base, c, finished, d) || (base[d].err.None? && Below(base, k, d))
    ensures Below(base, k, d) ==> !Reached(base, c, finished, d) && d != c
  {
    if Below(base, k, d) {
      BranchUnique(base, c, k, d);
    }
  }

  /** When all registered children are done, so is the whole subtree. */
  lemma PartwayDone(base: seq<Node>, nodes: seq<Node>, c: Id, err: Error, cause: Error)
    requires Subtree(base, c) && base[c].err.None?
    requires Partway(base, nodes, c, base[c].children, err, cause)
    ensures nodes[c := nodes[c].(children := {}, armed := false)] == CancelTree(base, c, err, cause)
  {
    var r, tree := nodes[c := nodes[c].(children := {}, armed := false)], CancelTree(base, c, err, cause);
    forall d: Id | d < |base|
      ensures r[d] == tree[d]
    {
      if d != c && Cancelable(base[d]) && base[d].err.None? && Below(base, c, d) {
        var k := Branch(base, c, d);
        assert Linked(base, c);
        assert LinkOk(base, c, k);
        if base[k].err.Some? {
          assert Below(base, c, k);
          SubtreeCancelled(base, c, k, d);
          assert false;
        }
      }
    }
  }

  lemma CancelTreeShape(nodes: seq<Node>, c: Id, err: Error, cause: Error)
    requires Formed(nodes) && In(nodes, c)
    ensures SameShape(nodes, CancelTree(nodes, c, err, cause)) && Formed(CancelTree(nodes, c, err, cause))
  {
  }

  lemma StoppedOk(nodes: seq<Node>, c: Id, err: Error, cause: Error)
    requires TreeInv(nodes) && In(nodes, c)
    ensures forall i :: 0 <= i < |nodes| ==> NodeOk(CancelTree(nodes, c, err, cause)[i])
  {
  }

  /** A cancelled context is registered nowhere, so there is nothing to remove. */
  lemma RemovedNothing(nodes: seq<Node>, c: Id)
    requires TreeInv(nodes) && In(nodes, c) && nodes[c].err.Some?
    ensures Removed(nodes, nodes[c].parent, c) == nodes
  {
    var q := Above(nodes, c);
    if q.Some? {
      assert LinkOk(nodes, q.value, c);
      assert NodeOk(nodes[q.value]);
      assert nodes[q.value].children - {c} == nodes[q.value].children;
    }
  }

  /** Every id in the list is a proper cancelable ancestor of c. */
  ghost predicate AllAbove(nodes: seq<Node>, ids: seq<Id>, c: Id)
    requires Formed(nodes)
  {
    In(nodes, c) && forall h :: h in ids ==> h != c && Below(nodes, h, c)
  }

  /** Locks held by ancestors of c, and c itself, are all above a child of c. */
  lemma LockBelow(base: seq<Node>, nodes: seq<Node>, outer: seq<Id>, c: Id, k: Id)
    requires Formed(base) && Formed(nodes) && SameShape(base, nodes) && In(base, c) && In(base, k)
    requires AllAbove(base, outer, c) && Above(base, k) == Some(c)
    ensures AllAbove(nodes, outer + [c], k)
  {
    assert In(nodes, k);
    forall h | h in outer + [c]
      ensures h != k && Below(nodes, h, k)
    {
      BelowOrder(base, h, c);
      SameBelow(base, nodes, h, k);
    }
  }

  /** When the children are done with, the lock of c may be taken again for its timer. */
  lemma PartwayLocks(base: seq<Node>, nodes: seq<Node>, c: Id, finished: set<Id>, err: Error, cause: Error,
      outer: seq<Id>)
    requires Formed(base) && In(base, c) && Partway(base, nodes, c, finished, err, cause) && AllAbove(base, outer, c)
    ensures c < |nodes|
    ensures var nodes' := nodes[c := nodes[c].(children := {})]; Formed(nodes') && AllAbove(nodes', outer, c)
  {
    PartwayAt(base, nodes, c, finished, err, cause);
    PartwayShape(base, nodes, c, finished, err, cause);
    var nodes' := nodes[c := nodes[c].(children := {})];
    assert SameShape(base, nodes');
    SameFormed(base, nodes');
    assert In(nodes', c);
    forall h | h in outer
      ensures h != c && Below(nodes', h, c)
    {
      SameBelow(base, nodes', h, c);
    }
  }

  lemma ChildUncancelled(base: seq<Node>, nodes: seq<Node>, c: Id, finished: set<Id>, err: Error, cause: Error, k: Id)
    requires Formed(base) && In(base, c) && Partway(base, nodes, c, finished, err, cause)
    requires In(base, k) && Above(base, k) == Some(c) && k !in finished && base[k].err.None?
    ensures nodes[k].err.None?
  {
    BranchUnique(base, c, k, k);
  }

  /** A registered child can be cancelled next: its subtree is intact and its lock is free. */
  lemma ChildReady(base: seq<Node>, nodes: seq<Node>, outer: seq<Id>, c: Id, finished: set<Id>,
                   err: Error, cause: Error, k: Id)
    requires Subtree(base, c) && base[c].err.None? && Partway(base, nodes, c, finished, err, cause)
    requires k in base[c].children && k !in finished
    requires AllAbove(base, outer, c)
    ensures In(base, k) && Above(base, k) == Some(c) && k > c
    ensures Subtree(nodes, k) && nodes[k].err.None? && |nodes| == |base|
    ensures AllAbove(nodes, outer + [c], k)
  {
    assert Linked(base, c);
    assert ChildrenIn(base, c) && LinkOk(base, c, k);
    PartwayShape(base, nodes, c, finished, err, cause);
    PartwaySubtree(base, nodes, c, finished, err, cause, k);
    LockBelow(base, nodes, outer, c, k);
    ChildUncancelled(base, nodes, c, finished, err, cause, k);
  }

  // ------------------------------------------------------------------ new contexts

  lemma NewFormed(nodes: seq<Node>, n: Node)
    requires Formed(nodes) && n.parent < |nodes|
    ensures Formed(nodes + [n]) && SameShape(nodes, nodes + [n])
  {
  }

  lemma NewContext(base: seq<Node>, n: Node)
    requires TreeInv(base) && n.parent < |base| && Cancelable(n) && n == Fresh(n.kind, n.parent, n.deadline)
    ensures Formed(base + [n]) && Nearest(base + [n], n.parent) == Nearest(base, n.parent)
    ensures TreeInv(Attached(base, n))
  {
    NewFormed(base, n);
    SameNearest(base, base + [n], n.parent);
    AttachedKeeps(base, n);
  }

  /** Attached, as updates of the store that already holds the new node. */
  lemma AttachedCases(base: seq<Node>, n: Node)
    requires TreeInv(base) && n.parent < |base| && Formed(base + [n])
    ensures match Nearest(base, n.parent)
            case None => Attached(base, n) == base + [n]
            case Some(q) =>
              var touched := (base + [n])[q := Touched(base[q])];
              && SameShape(base + [n], touched) && Formed(touched)
              && NodeOk(base[q])
              && (base[q].err.Some? ==>
                    Attached(base, n) == touched[|base| := Stopped(n, base[q].err.value, base[q].cause.value)])
              && (base[q].err.None? ==>
                    Attached(base, n) == touched[q := touched[q].(children := base[q].children + {|base|})])
  {
    var q := Nearest(base, n.parent);
    if q.Some? {
      assert NodeOk(base[q.value]);
      hide TreeInv, Attached, Formed, NodeOk, Stopped, Nearest;
      AttachedForm(base, n, q.value);
      TouchedShape(base + [n], q.value);
    }
  }

  lemma TouchedShape(nodes: seq<Node>, q: Id)
    requires Formed(nodes) && q < |nodes|
    ensures SameShape(nodes, nodes[q := Touched(nodes[q])]) && Formed(nodes[q := Touched(nodes[q])])
  {
  }

  lemma AttachedForm(base: seq<Node>, n: Node, q: Id)
    requires Formed(base) && n.parent < |base| && Nearest(base, n.parent) == Some(q) && NodeOk(base[q])
    ensures var touched := (base + [n])[q := Touched(base[q])];
            && (base[q].err.Some? ==>
                  Attached(base, n) == touched[|base| := Stopped(n, base[q].err.value, base[q].cause.value)])
            && (base[q].err.None? ==>
                  Attached(base, n) == touched[q := touched[q].(children := base[q].children + {|base|})])
  {
    hide Formed, Stopped;
  }

  /** Nothing lies below the newest context. */
  lemma StopNew(nodes: seq<Node>, c: Id)
    requires Formed(nodes) && In(nodes, c) && |nodes| == c + 1 && NodeOk(nodes[c]) && nodes[c].children == {}
    ensures Subtree(nodes, c)
  {
    forall x: Id | In(nodes, x) && Below(nodes, c, x)
      ensures Linked(nodes, x)
    {
      BelowOrder(nodes, c, x);
      assert ChildrenIn(nodes, x);
    }
  }

  lemma StopNewTree(nodes: seq<Node>, c: Id, err: Error, cause: Error)
    requires Formed(nodes) && In(nodes, c) && |nodes| == c + 1 && nodes[c].err.None?
    ensures CancelTree(nodes, c, err, cause) == nodes[c := Stopped(nodes[c], err, cause)]
  {
    forall d: Id | d < |nodes|
      ensures CancelTree(nodes, c, err, cause)[d] == nodes[c := Stopped(nodes[c], err, cause)][d]
    {
      if Cancelable(nodes[d]) && Below(nodes, c, d) {
        BelowOrder(nodes, c, d);
      }
    }
  }

  // ------------------------------------------------------------------- the store

  class Tree {
    var nodes: seq<Node>
    ghost var held: seq<Id>

    ghost predicate Valid()
      reads this
    {
      TreeInv(nodes) && held == []
    }

    constructor ()
      ensures Valid() && nodes == [ROOT]
    {
      nodes, held := [ROOT], [];
    }

    /** Every lock already held belongs to a proper ancestor of c. */
    ghost predicate MayLock(c: Id)
      requires Formed(nodes)
      reads this
    {
      AllAbove(nodes, held, c)
    }

    ghost method Lock(c: Id)
      requires Formed(nodes) && MayLock(c)
      modifies this`held
      ensures held == old(held) + [c]
    {
      held := held + [c];
    }

    ghost method Unlock(c: Id)
      requires held != [] && held[|held| - 1] == c
      modifies this`held
      ensures held == old(held)[..|old(held)| - 1]
    {
      held := held[..|held| - 1];
    }

    /** value(c, &cancelCtxKey) */
    method Lookup(c: Id) returns (q: Option<Id>)
      requires Formed(nodes) && c < |nodes|
      ensures q == Nearest(nodes, c)
    {
      var i: Id := c;
      while nodes[i].kind.Value?
        invariant i < |nodes| && Nearest(nodes, c) == Nearest(nodes, i)
        decreases i
      {
        i := nodes[i].parent;
      }
      q := if Cancelable(nodes[i]) then Some(i) else None;
    }

    /** Done(): the owner of the done channel, which is created on first use. */
    method Done(c: Id) returns (owner: Option<Id>)
      requires Formed(nodes) && c < |nodes| && held == []
      modifies this
      ensures owner == Nearest(old(nodes), c) && held == []
      ensures nodes == if owner.Some? then old(nodes)[owner.value := Touched(old(nodes)[owner.value])] else old(nodes)
    {
      owner := Lookup(c);
      if owner.Some? && nodes[owner.value].done.NoChannel? {
        Lock(owner.value);
        nodes := nodes[owner.value := nodes[owner.value].(done := Open)];
        Unlock(owner.value);
      }
    }

    method ParentCancelCtx(parent: Id) returns (p: Option<Id>)
      requires Formed(nodes) && parent < |nodes| && held == []
      modifies this
      ensures held == []
      ensures var q := Nearest(old(nodes), parent);
              && nodes == (if q.Some? then old(nodes)[q.value := Touched(old(nodes)[q.value])] else old(nodes))
              && p == if q.Some? && !nodes[q.value].done.Shared? then q else None
    {
      var before := nodes;
      var done := Done(parent);
      if done.None? || nodes[done.value].done.Shared? {
        return None;
      }
      SameNearest(before, nodes, parent);
      var q := Lookup(parent);
      p := if q.Some? && q.value == done.value then q else None;
    }

    method RemoveChild(parent: Id, child: Id)
      requires Formed(nodes) && parent < |nodes| && held == []
      requires forall i :: 0 <= i < |nodes| ==> NodeOk(nodes[i])
      modifies this
      ensures held == [] && nodes == Removed(old(nodes), parent, child)
    {
      var p := ParentCancelCtx(parent);
      if p.Some? {
        assert SameShape(old(nodes), nodes);
        Lock(p.value);
        nodes := nodes[p.value := nodes[p.value].(children := nodes[p.value].children - {child})];
        Unlock(p.value);
      } else {
        var q := Nearest(old(nodes), parent);
        if q.Some? {
          assert NodeOk(old(nodes)[q.value]);
          assert nodes[q.value].children - {child} == nodes[q.value].children;
        }
      }
    }

    /** cancel(false, err, cause): c and, recursively, its registered children. */
    method Stop(c: Id, err: Error, cause: Error)
      requires Subtree(nodes, c) && MayLock(c)
      modifies this
      ensures held == old(held)
      ensures nodes == if old(nodes)[c].err.Some? then old(nodes) else CancelTree(old(nodes), c, err, cause)
      decreases |nodes| - c, 1
    {
      hide Partway, Subtree, CancelTree, AllAbove, Below, Formed, SameShape;
      ghost var base := nodes;
      SubtreeAt(base, c);
      if nodes[c].err.Some? {
        StopTimer(c);
        return;
      }
      PartwayStart(base, c, err, cause);
      Lock(c);
      nodes := nodes[c := Marked(nodes[c], err, cause)];
      StopChildren(c, err, cause, base);
      PartwayDone(base, nodes, c, err, cause);
      PartwayAt(base, nodes, c, base[c].children, err, cause);
      PartwayLocks(base, nodes, c, base[c].children, err, cause, held[..|held| - 1]);
      nodes := nodes[c := nodes[c].(children := {})];
      Unlock(c);
      StopTimer(c);
      assert nodes[c] == Marked(base[c], err, cause).(children := {}, armed := false);
    }

    /** The rest of a timerCtx's cancel: stop the timer, under the lock of c. */
    method StopTimer(c: Id)
      requires Formed(nodes) && c < |nodes| && MayLock(c)
      modifies this
      ensures held == old(held)
      ensures nodes == if old(nodes)[c].kind.Timer? then old(nodes)[c := old(nodes)[c].(armed := false)] else old(nodes)
    {
      if nodes[c].kind.Timer? {
        Lock(c);
        nodes := nodes[c := nodes[c].(armed := false)];
        Unlock(c);
      }
    }

    /** The loop of cancel over the children, in any order, under the lock of c. */
    method StopChildren(c: Id, err: Error, cause: Error, ghost base: seq<Node>)
      requires Subtree(base, c) && base[c].err.None? && |nodes| == |base|
      requires Partway(base, nodes, c, {}, err, cause)
      requires held != [] && held[|held| - 1] == c && AllAbove(base, held[..|held| - 1], c)
      modifies this
      ensures held == old(held) && Partway(base, nodes, c, base[c].children, err, cause)
      decreases |nodes| - c, 0
    {
      hide Partway, Subtree, CancelTree;
      ghost var outer := held[..|held| - 1];
      assert held == outer + [c];
      SubtreeAt(base, c);
      PartwayAt(base, nodes, c, {}, err, cause);
      var todo := nodes[c].children;
      assert base[c].children - todo == {};
      while todo != {}
        invariant todo <= base[c].children && held == outer + [c] && |nodes| == |base|
        invariant Partway(base, nodes, c, base[c].children - todo, err, cause)
      {
        var k :| k in todo;
        ghost var before, finished := nodes, base[c].children - todo;
        ChildReady(base, nodes, outer, c, finished, err, cause, k);
        Stop(k, err, cause);
        PartwayNext(base, before, nodes, c, finished, err, cause, k);
        todo := todo - {k};
        assert base[c].children - todo == finished + {k};
      }
      assert base[c].children - todo == base[c].children;
    }

    /** cancel(true, err, cause) of a cancelCtx or a timerCtx. */
    method Cancel(c: Id, err: Error, cause: Option<Error>)
      requires Valid() && In(nodes, c)
      modifies this
      ensures Valid() && nodes == Cancelled(old(nodes), c, err, cause)
    {
      ghost var base := nodes;
      var active := nodes[c].err.None?;
      TreeSubtree(nodes, c);
      Stop(c, err, cause.Or(err));
      CancelledKeeps(base, c, err, cause);
      if active {
        CancelTreeShape(base, c, err, cause.Or(err));
        StoppedOk(base, c, err, cause.Or(err));
        RemoveChild(nodes[c].parent, c);
      } else if nodes[c].kind.Timer? {
        RemoveChild(nodes[c].parent, c);
        RemovedNothing(base, c);
      }
    }

    /** propagateCancel for the newest node, whose parent field is already set. */
    method PropagateCancel(c: Id)
      requires |nodes| == c + 1 && TreeInv(nodes[..c]) && held == []
      requires In(nodes, c) && nodes[c].parent < c &&
               nodes[c] == Fresh(nodes[c].kind, nodes[c].parent, nodes[c].deadline)
      modifies this
      ensures Valid() && nodes == Attached(old(nodes)[..c], old(nodes)[c])
    {
      ghost var base, n, start := nodes[..c], nodes[c], nodes;
      var parent := nodes[c].parent;
      assert nodes == base + [n];
      NewContext(base, n);
      AttachedCases(base, n);
      var done := Done(parent);
      if done.None? {
        return;
      }
      var q := done.value;
      ghost var touched := nodes;
      SameNearest(start, nodes, parent);
      if nodes[q].done.Closed? || nodes[q].done.Shared? {
        ErrIsNearest(nodes, parent);
        var err, cause := Err(nodes, parent), Cause(nodes, parent);
        StopNew(nodes, c);
        Stop(c, err.value, cause.value);
        StopNewTree(touched, c, err.value, cause.value);
        return;
      }
      var p := ParentCancelCtx(parent);
      assert nodes == touched;
      // The parent was uncancelled a moment ago and operations are atomic here, so the
      // second test under its lock cannot find it cancelled: only registration remains.
      Lock(p.value);
      nodes := nodes[p.value := nodes[p.value].(children := nodes[p.value].children + {c})];
      Unlock(p.value);
    }

    method WithValue(parent: Id) returns (c: Id)
      requires Valid() && parent < |nodes|
      modifies this
      ensures Valid() && c == |old(nodes)| && nodes == Apply(old(nodes), NewValue(parent))
    {
      c := |nodes|;
      PlainKeeps(nodes, Fresh(Value, parent, 0));
      nodes := nodes + [Fresh(Value, parent, 0)];
    }

    method WithoutCancelOf(parent: Id) returns (c: Id)
      requires Valid() && parent < |nodes|
      modifies this
      ensures Valid() && c == |old(nodes)| && nodes == Apply(old(nodes), NewWithoutCancel(parent))
    {
      c := |nodes|;
      PlainKeeps(nodes, Fresh(WithoutCancel, parent, 0));
      nodes := nodes + [Fresh(WithoutCancel, parent, 0)];
    }

    method WithCancel(parent: Id) returns (c: Id)
      requires Valid() && parent < |nodes|
      modifies this
      ensures Valid() && c == |old(nodes)| && nodes == Apply(old(nodes), NewCancel(parent))
    {
      c := |nodes|;
      nodes := nodes + [Fresh(ContextSpec.Cancel, parent, 0)];
      assert nodes[..c] == old(nodes);
      PropagateCancel(c);
    }

    /** WithDeadlineCause; passed tells whether the deadline is already over. */
    method WithDeadlineCause(parent: Id, deadline: int, passed: bool, late: Option<Error>) returns (c: Id)
      requires Valid() && parent < |nodes|
      modifies this
      ensures Valid() && c == |old(nodes)|
      ensures nodes == Apply(old(nodes), NewTimer(parent, deadline, passed, late))
    {
      var current := Deadline(nodes, parent);
      if current.Some? && current.value < deadline {
        c := WithCancel(parent);
        return;
      }
      c := |nodes|;
      nodes := nodes + [Fresh(Timer, parent, deadline)];
      assert nodes[..c] == old(nodes);
      PropagateCancel(c);
      AttachedFormed(old(nodes), Fresh(Timer, parent, deadline));
      if passed {
        Cancel(c, DeadlineExceeded, late);
        return;
      }
      Lock(c);
      if nodes[c].err.None? {
        ArmedTree(nodes, c, late);
        nodes := nodes[c := nodes[c].(armed := true, late := late)];
      }
      Unlock(c);
    }

    /** The function returned by WithCancel, WithCancelCause or WithDeadlineCause. */
    method CancelFunc(c: Id, cause: Option<Error>)
      requires Valid() && In(nodes, c)
      modifies this
      ensures Valid() && nodes == Apply(old(nodes), CancelCall(c, cause))
    {
      Cancel(c, Canceled, cause);
    }

    /** The timer of a timerCtx goes off. */
    method FireTimer(c: Id)
      requires Valid() && In(nodes, c) && nodes[c].armed
      modifies this
      ensures Valid() && nodes == Apply(old(nodes), Fire(c))
    {
      Cancel(c, DeadlineExceeded, nodes[c].late);
    }
  }
}
