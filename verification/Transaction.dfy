/**
 * The installer's do/undo engine, internal/transaction/transaction.go.
 *
 * An action's closures act on a world of any type W, which they are handed and hand back;
 * both may fail, having changed the world or not. The ghost field calls records which
 * closures were called, in order.
 */
module Transaction {
  import opened Prelude

  datatype Reply<W> = Reply(world: W, err: Option<string>)

  datatype Action<!W> = Action(name: string, todo: Option<W -> Reply<W>>, undo: Option<W -> Reply<W>>)

  /** The error of Run names the action; that of Rollback collects every failure. */
  datatype Failure = ActionFailed(name: string, err: string) | RollbackErrors(errs: seq<(string, string)>)

  datatype Call<!W> = Did(action: Action<W>) | Undid(action: Action<W>)

  // ------------------------------------------------------------- what a run means

  /** The world after doing all of the actions in turn, whatever they answer. */
  function WorldAfter<W>(actions: seq<Action<W>>, w: W): W {
    if actions == [] then w
    else
      var before := WorldAfter(actions[..|actions| - 1], w);
      var a := actions[|actions| - 1];
      if a.todo.None? then before else a.todo.value(before).world
  }

  /** Action k's Do is called after the earlier ones, and fails. */
  predicate FailsAt<W>(actions: seq<Action<W>>, w: W, k: nat)
    requires k < |actions|
  {
    var a := actions[k];
    a.todo.Some? && a.todo.value(WorldAfter(actions[..k], w)).err.Some?
  }

  ghost predicate AllSucceed<W(!new)>(actions: seq<Action<W>>, w: W) {
    forall k: nat :: k < |actions| ==> !FailsAt(actions, w, k)
  }

  /** k is the first action whose Do fails. */
  ghost predicate FirstFailure<W(!new)>(actions: seq<Action<W>>, w: W, k: nat) {
    && k < |actions| && FailsAt(actions, w, k)
    && (forall j: nat :: j < k ==> !FailsAt(actions, w, j))
  }

  /** The actions that have a Do: the ones a run completes and may have to undo. */
  function Doable<W>(actions: seq<Action<W>>): seq<Action<W>> {
    if actions == [] then []
    else
      var a := actions[|actions| - 1];
      Doable(actions[..|actions| - 1]) + if a.todo.Some? then [a] else []
  }

  function DoCalls<W>(actions: seq<Action<W>>): seq<Call<W>> {
    if actions == [] then []
    else
      var a := actions[|actions| - 1];
      DoCalls(actions[..|actions| - 1]) + if a.todo.Some? then [Did(a)] else []
  }

  /** The Undos of the executed actions, last one first. */
  function UndoCalls<W>(executed: seq<Action<W>>): seq<Call<W>> {
    if executed == [] then []
    else
      var a := executed[|executed| - 1];
      (if a.undo.Some? then [Undid(a)] else []) + UndoCalls(executed[..|executed| - 1])
  }

  datatype Undone<W> = Undone(world: W, errs: seq<(string, string)>)

  /** Undoing last to first, going on after a failure. */
  function Backward<W>(executed: seq<Action<W>>, w: W): Undone<W> {
    if executed == [] then Undone(w, [])
    else
      var a := executed[|executed| - 1];
      var rest := executed[..|executed| - 1];
      if a.undo.None? then Backward(rest, w)
      else
        var r := a.undo.value(w);
        var u := Backward(rest, r.world);
        if r.err.None? then u else Undone(u.world, [(a.name, r.err.value)] + u.errs)
  }

  /** When every executed action has an Undo, call number j is the Undo of the j-th action
      from the end: each exactly once, in reverse order. */
  lemma {:induction false} ReverseOrder<W>(executed: seq<Action<W>>, j: nat)
    requires forall i :: 0 <= i < |executed| ==> executed[i].undo.Some?
    ensures |UndoCalls(executed)| == |executed|
    ensures j < |executed| ==> UndoCalls(executed)[j] == Undid(executed[|executed| - 1 - j])
  {
    if executed != [] {
      ReverseOrder(executed[..|executed| - 1], if j == 0 then 0 else j - 1);
    }
  }

  /** Actions without an Undo are passed over without upsetting the order. */
  lemma {:induction false} PassedOver<W>(before: seq<Action<W>>, a: Action<W>, after: seq<Action<W>>)
    requires a.undo.None?
    ensures UndoCalls(before + [a] + after) == UndoCalls(before + after)
  {
    if after == [] {
      assert before + [a] + after == before + [a] && before + after == before;
    } else {
      var front := after[..|after| - 1];
      assert (before + [a] + after)[..|before + [a] + after| - 1] == before + [a] + front;
      assert (before + after)[..|before + after| - 1] == before + front;
      PassedOver(before, a, front);
    }
  }

  lemma Prefix<T>(s: seq<T>, i: nat)
    requires i < |s|
    ensures s[..i + 1] != [] && s[..i + 1][..i] == s[..i] && s[..i + 1][i] == s[i]
  {
  }

  lemma NothingDone<W>(actions: seq<Action<W>>, w: W)
    ensures actions[..0] == [] && WorldAfter(actions[..0], w) == w && Doable(actions[..0]) == [] &&
            DoCalls(actions[..0]) == []
  {
  }

  lemma NothingUndone<W>(executed: seq<Action<W>>, w: W)
    ensures executed == [] ==> UndoCalls(executed) == [] && Backward(executed, w) == Undone(w, [])
  {
  }

  /** One more action done. */
  lemma NextDo<W>(actions: seq<Action<W>>, i: nat, w: W)
    requires i < |actions|
    ensures actions[i].todo.None? ==>
      && WorldAfter(actions[..i + 1], w) == WorldAfter(actions[..i], w)
      && Doable(actions[..i + 1]) == Doable(actions[..i]) && DoCalls(actions[..i + 1]) == DoCalls(actions[..i])
    ensures actions[i].todo.Some? ==>
      && WorldAfter(actions[..i + 1], w) == actions[i].todo.value(WorldAfter(actions[..i], w)).world
      && Doable(actions[..i + 1]) == Doable(actions[..i]) + [actions[i]]
      && DoCalls(actions[..i + 1]) == DoCalls(actions[..i]) + [Did(actions[i])]
  {
    Prefix(actions, i);
  }

  /** One more action undone. */
  lemma NextUndo<W>(executed: seq<Action<W>>, i: nat, w: W)
    requires i < |executed|
    ensures executed[i].undo.None? ==>
      && UndoCalls(executed[..i + 1]) == UndoCalls(executed[..i])
      && Backward(executed[..i + 1], w) == Backward(executed[..i], w)
    ensures executed[i].undo.Some? ==>
      var r := executed[i].undo.value(w);
      && UndoCalls(executed[..i + 1]) == [Undid(executed[i])] + UndoCalls(executed[..i])
      && Backward(executed[..i + 1], w).world == Backward(executed[..i], r.world).world
      && Backward(executed[..i + 1], w).errs ==
         (if r.err.None? then [] else [(executed[i].name, r.err.value)]) + Backward(executed[..i], r.world).errs
  {
    Prefix(executed, i);
  }

  /** Rollback under way: the actions from i on are undone, and what is still to come will
      complete the calls, the world and the errors. */
  ghost predicate Undoing<W>(was: seq<Call<W>>, executed: seq<Action<W>>, w: W, i: nat,
                             calls: seq<Call<W>>, world: W, errs: seq<(string, string)>)
    requires i <= |executed|
  {
    && calls + UndoCalls(executed[..i]) == was + UndoCalls(executed)
    && Backward(executed[..i], world).world == Backward(executed, w).world
    && errs + Backward(executed[..i], world).errs == Backward(executed, w).errs
  }

  lemma UndoStart<W>(calls: seq<Call<W>>, executed: seq<Action<W>>, w: W)
    ensures Undoing(calls, executed, w, |executed|, calls, w, [])
  {
    hide UndoCalls, Backward;
    assert executed[..|executed|] == executed;
  }

  lemma UndoNext<W>(was: seq<Call<W>>, executed: seq<Action<W>>, w: W, i: nat,
                    calls: seq<Call<W>>, world: W, errs: seq<(string, string)>)
    requires i < |executed| && Undoing(was, executed, w, i + 1, calls, world, errs)
    ensures executed[i].undo.None? ==> Undoing(was, executed, w, i, calls, world, errs)
    ensures executed[i].undo.Some? ==>
      var r := executed[i].undo.value(world);
      Undoing(was, executed, w, i, calls + [Undid(executed[i])], r.world,
              if r.err.None? then errs else errs + [(executed[i].name, r.err.value)])
  {
    NextUndo(executed, i, world);
    hide UndoCalls, Backward;
    if executed[i].undo.Some? {
      var a := executed[i];
      var r := a.undo.value(world);
      Regroup(calls, [Undid(a)], UndoCalls(executed[..i]));
      var more := Backward(executed[..i], r.world).errs;
      if r.err.None? {
        assert [] + more == more;
      } else {
        Regroup(errs, [(a.name, r.err.value)], more);
      }
    }
  }

  lemma UndoEnd<W>(was: seq<Call<W>>, executed: seq<Action<W>>, w: W,
                   calls: seq<Call<W>>, world: W, errs: seq<(string, string)>)
    requires Undoing(was, executed, w, 0, calls, world, errs)
    ensures calls == was + UndoCalls(executed)
    ensures world == Backward(executed, w).world && errs == Backward(executed, w).errs
  {
    NothingUndone(executed[..0], world);
    hide UndoCalls, Backward;
    assert calls + [] == calls && errs + [] == errs;
  }

  class Txn<W(!new)> {
    var actions: seq<Action<W>>
    var executed: seq<Action<W>>
    ghost var calls: seq<Call<W>>

    constructor ()
      ensures actions == [] && executed == [] && calls == []
    {
      actions, executed, calls := [], [], [];
    }

    method Add(a: Option<Action<W>>)
      modifies this`actions
      ensures actions == old(actions) + if a.Some? then [a.value] else []
    {
      if a.None? {
        return;
      }
      actions := actions + [a.value];
    }

    /** Either every action was done, in order, or the first failing one is reported after
        exactly the completed ones were undone, last first. */
    method Run(w: W) returns (world: W, err: Option<Failure>)
      modifies this`executed, this`calls
      ensures err.None? <==> AllSucceed(actions, w)
      ensures err.None? ==>
        && world == WorldAfter(actions, w) && executed == Doable(actions)
        && calls == old(calls) + DoCalls(actions)
      ensures err.Some? ==> exists k: nat ::
        && FirstFailure(actions, w, k)
        && err == Some(ActionFailed(actions[k].name, actions[k].todo.value(WorldAfter(actions[..k], w)).err.value))
        && world == Backward(Doable(actions[..k]), WorldAfter(actions[..k + 1], w)).world
        && calls == old(calls) + DoCalls(actions[..k + 1]) + UndoCalls(Doable(actions[..k]))
      ensures err.Some? ==> executed == []
    {
      NothingDone(actions, w);
      hide UndoCalls, Backward, WorldAfter, Doable, DoCalls;
      executed := [];
      world := w;
      var i := 0;
      while i < |actions|
        invariant i <= |actions|
        invariant executed == Doable(actions[..i]) && world == WorldAfter(actions[..i], w)
        invariant calls == old(calls) + DoCalls(actions[..i])
        invariant forall j: nat :: j < i ==> !FailsAt(actions, w, j)
      {
        NextDo(actions, i, w);
        var a := actions[i];
        if a.todo.None? {
          i := i + 1;
          continue;
        }
        var r := a.todo.value(world);
        world := r.world;
        calls := calls + [Did(a)];
        assert calls == old(calls) + DoCalls(actions[..i + 1]);
        if r.err.Some? {
          assert FirstFailure(actions, w, i);
          var ignored;
          world, ignored := Rollback(world);
          return world, Some(ActionFailed(a.name, r.err.value));
        }
        executed := executed + [a];
        i := i + 1;
      }
      assert actions[..|actions|] == actions;
      err := None;
    }

    /** Undo what was executed; a second call finds nothing left to do. */
    method Rollback(w: W) returns (world: W, err: Option<Failure>)
      modifies this`executed, this`calls
      ensures executed == []
      ensures calls == old(calls) + UndoCalls(old(executed))
      ensures world == Backward(old(executed), w).world
      ensures err == if Backward(old(executed), w).errs == [] then None
                     else Some(RollbackErrors(Backward(old(executed), w).errs))
      ensures old(executed) == [] ==> world == w && err.None? && calls == old(calls)
    {
      hide UndoCalls, Backward, Undoing;
      var errs: seq<(string, string)> := [];
      world := w;
      var i := |executed|;
      UndoStart(calls, executed, w);
      while i > 0
        invariant 0 <= i <= |executed| && executed == old(executed)
        invariant Undoing(old(calls), executed, w, i, calls, world, errs)
      {
        i := i - 1;
        var a := executed[i];
        UndoNext(old(calls), executed, w, i, calls, world, errs);
        if a.undo.None? {
          continue;
        }
        var r := a.undo.value(world);
        calls := calls + [Undid(a)];
        world := r.world;
        if r.err.Some? {
          errs := errs + [(a.name, r.err.value)];
        }
      }
      UndoEnd(old(calls), executed, w, calls, world, errs);
      NothingUndone(executed, w);
      executed := [];
      err := if |errs| > 0 then Some(RollbackErrors(errs)) else None;
    }

    method Cleanup()
      modifies this`actions, this`executed
      ensures actions == [] && executed == []
    {
      actions, executed := [], [];
    }
  }

  /** A caller that rolls back once more after Run: nothing is undone twice, and after a
      failed Run nothing is left to undo. */
  method RunThenRollback<W(!new)>(t: Txn<W>, w: W) returns (world: W, failed: bool, ghost atRun: seq<Call<W>>)
    modifies t`executed, t`calls
    ensures failed ==> t.calls == atRun
    ensures !failed ==> t.calls == old(t.calls) + DoCalls(t.actions) + UndoCalls(Doable(t.actions))
    ensures t.executed == []
  {
    var err;
    world, err := t.Run(w);
    atRun := t.calls;
    failed := err.Some?;
    var ignored;
    world, ignored := t.Rollback(world);
  }
}
