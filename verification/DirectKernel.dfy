/** The hook of project 2/common.c over the table that is built with it: findder of
    project 2/proj2/kernel/proj2.c, exactly as written. */
module DirectKernel {
  import opened Errno
  import opened Sandbox
  import opened DirectTable
  import opened DirectHistory
  import opened ExitPath
  import opened Kernel

  ghost predicate InRows(a: Action) {
    match a
    case Table(req) => !req.Intercept? && Indexable(req)
    case Syscall(_, nr, _, _, _, _) => nr < CALLS
  }

  ghost predicate AllInRows(run: seq<Action>) {
    forall i :: 0 <= i < |run| ==> InRows(run[i])
  }

  lemma {:induction false} RequestsAt(run: seq<Action>, k: nat)
    requires k <= |run|
    ensures Requests(run)[..k] == Requests(run[..k])
    ensures k < |run| ==> Requests(run)[k] == RequestOf(run[k])
  {
    if run == [] {
    } else {
      var front := run[..|run| - 1];
      if k < |run| {
        RequestsAt(front, if k < |front| then k else 0);
        if k < |front| { assert front[..k] == run[..k]; }
      } else {
        assert run[..k] == run;
      }
    }
  }

  lemma RequestsIndexable(run: seq<Action>)
    requires AllInRows(run)
    ensures AllIndexable(Requests(run))
  {
    forall k: nat | k < |run|
      ensures Indexable(Requests(run)[k])
    {
      RequestsAt(run, k);
    }
  }

  // ---- Whom the hook refuses ----

  /** What the history of the requests says about a call. */
  ghost predicate TurnedAway(reqs: seq<Request>, uid: nat, nr: nat)
    requires AllIndexable(reqs) && nr < CALLS
  {
    if uid > 0 then UserRefused(reqs, uid, nr) else RootRefused(reqs, nr)
  }

  lemma RefusedByHistory(reqs: seq<Request>, uid: nat, nr: nat)
    requires AllIndexable(reqs) && nr < CALLS
    ensures Blocks(After(AsWritten, reqs), uid, nr) <==> TurnedAway(reqs, uid, nr)
  {
    if uid > 0 { RefusedExactly(reqs, uid, nr); } else { RootRefusedExactly(reqs, nr); }
  }

  /** The entries that an action runs after the requests `reqs`. */
  ghost function RunsAfter(reqs: seq<Request>, a: Action): seq<Dispatch>
    requires AllIndexable(reqs) && InRows(a)
  {
    EntriesOf(a.Syscall? && TurnedAway(reqs, a.uid, a.nr), IntendedAfter(reqs), a)
  }

  /** The entries that a run of actions runs, in order. */
  ghost function Runs(run: seq<Action>): seq<Dispatch>
    requires AllInRows(run)
  {
    if run == [] then []
    else
      var front, n := run[..|run| - 1], |run| - 1;
      RequestsIndexable(front);
      Runs(front) + RunsAfter(Requests(front), run[n])
  }

  /** After k actions: whatever number a user asks for next, the hook refuses it exactly if the pair is blocked, so
      no blocked caller's entry runs and no unblocked caller is turned away. */
  ghost predicate RightAt(run: seq<Action>, k: nat)
    requires AllInRows(run) && k <= |run|
  {
    RequestsIndexable(run[..k]);
    var reqs := Requests(run[..k]);
    forall uid: nat, nr: nat :: uid > 0 && nr < CALLS ==> (TurnedAway(reqs, uid, nr) <==> (uid, nr) in IntendedAfter(reqs))
  }

  /** In terms of what runs: an untraced call runs its entry if it is not blocked, and nothing if it is. */
  lemma RightMeansRuns(reqs: seq<Request>, uid: nat, nr: nat, traced: nat, result: int)
    requires AllIndexable(reqs) && nr < CALLS
    ensures var m := IntendedAfter(reqs);
            (TurnedAway(reqs, uid, nr) <==> (uid, nr) in m) <==>
              RunsAfter(reqs, Syscall(uid, nr, traced, result, {}, [])) ==
                if (uid, nr) in m then [] else [Dispatch(uid, nr, nr, false, false)]
  {
    MaskKeepsCalls(nr);
  }

  ghost predicate AllHarmless(run: seq<Action>)
    requires AllInRows(run)
  {
    RequestsIndexable(run);
    forall k :: 0 <= k < |run| ==> HarmlessAt(AsWritten, Requests(run), k)
  }

  lemma RightIsAgreement(run: seq<Action>, k: nat)
    requires AllInRows(run) && k <= |run|
    ensures AllIndexable(Requests(run))
    ensures RightAt(run, k) <==> AgreesAt(AsWritten, Requests(run), k)
  {
    RequestsIndexable(run);
    RequestsIndexable(run[..k]);
    RequestsAt(run, k);
    var reqs := Requests(run[..k]);
    forall uid: nat, nr: nat | uid > 0 && nr < CALLS
      ensures Blocks(After(AsWritten, reqs), uid, nr) <==> TurnedAway(reqs, uid, nr)
    {
      RefusedByHistory(reqs, uid, nr);
    }
  }

  /** The hook is right for every user throughout a run exactly when every request of the run, the refused calls
      included, is harmless to the direct-mapped table. */
  lemma HookRightExactly(run: seq<Action>)
    requires AllInRows(run)
    ensures (forall k :: 0 <= k <= |run| ==> RightAt(run, k)) <==> AllHarmless(run)
  {
    RequestsIndexable(run);
    RunExact(AsWritten, Requests(run));
    forall k: nat | k <= |run|
      ensures RightAt(run, k) <==> AgreesAt(AsWritten, Requests(run), k)
    {
      RightIsAgreement(run, k);
    }
  }

  lemma OneMoreAction(run: seq<Action>, a: Action)
    requires AllInRows(run) && InRows(a)
    ensures AllInRows(run + [a]) && AllIndexable(Requests(run))
    ensures Requests(run + [a]) == Requests(run) + [RequestOf(a)]
    ensures Runs(run + [a]) == Runs(run) + RunsAfter(Requests(run), a)
  {
    RequestsIndexable(run);
    assert (run + [a])[..|run|] == run;
  }

  /** Two equal blocks and then the call: the blocked entry runs. */
  lemma TwiceBlockedRuns(uid: nat, nr: nat)
    requires uid > 0 && nr < CALLS
    ensures var run := [Table(Block(uid, uid, nr)), Table(Block(uid, uid, nr)), Syscall(uid, nr, 0, 0, {}, [])];
            AllInRows(run) && Runs(run) == [Dispatch(uid, nr, nr, true, true)]
  {
    var a, b := Table(Block(uid, uid, nr)), Syscall(uid, nr, 0, 0, {}, []);
    var none: seq<Action> := [];
    OneMoreAction(none, a);
    OneMoreAction(none + [a], a);
    OneMoreAction(none + [a] + [a], b);
    assert none + [a] + [a] + [b] == [a, a, b];
    assert Requests(none + [a] + [a]) == [RequestOf(a), RequestOf(a)];
    SecondBlockLifts(uid, nr);
    RefusedByHistory([RequestOf(a), RequestOf(a)], uid, nr);
    MaskKeepsCalls(nr);
  }

  // ---- The kernel as it is built ----

  class DirectKernel {
    const table: SysTables
    const cpu: Cpu

    ghost predicate Valid()
      reads this, table, table.permList
    {
      table.Valid() && !table.locked
    }

    constructor ()
      ensures Valid() && fresh(table) && fresh(table.permList) && fresh(cpu)
      ensures table.State() == Loaded() && cpu.calls == []
    {
      table := new SysTables();
      cpu := new Cpu();
    }

    /** do_syscall_64 with the blocked branch ending the call, after the requests `reqs`. */
    method DoSyscall64(thread: Thread, uid: nat, nr: nat, traced: nat, result: int, ghost reqs: seq<Request>)
      requires Valid() && thread.Valid() && nr < CALLS
      requires AllIndexable(reqs) && table.State() == After(AsWritten, reqs)
      modifies cpu, thread, table.permList
      ensures Valid() && thread.Valid() && !thread.irqs && thread.flags * LOOP_FLAGS == {}
      ensures table.State() == Step(AsWritten, old(table.State()), Intercept(uid, nr)).0
      ensures Preparations(thread.log) == old(Preparations(thread.log)) + 1
      ensures TurnedAway(reqs, uid, nr) ==>
                cpu.ax == -EACCES && cpu.calls == old(cpu.calls) && thread.Now() == Left(old(thread.Now()))
      ensures !TurnedAway(reqs, uid, nr) ==>
                var used := NumberUsed(nr, traced, old(thread.Now()));
                && cpu.ax == (if used < CALLS then result else old(cpu.ax))
                && cpu.calls == (if used < CALLS
                                 then old(cpu.calls) + [DispatchIn(IntendedAfter(reqs), uid, nr, used)]
                                 else old(cpu.calls))
                && thread.Now() == WorkAfter(used, old(thread.Now()))
    {
      RefusedByHistory(reqs, uid, nr);
      var checker := table.Findder(uid, nr);
      cpu.Hook(thread, checker, uid, nr, traced, result, IntendedAfter(reqs));
    }

    /** do_syscall_64 exactly as written: a refused call runs its entry too. */
    method DoSyscall64AsWritten(thread: Thread, uid: nat, nr: nat, traced: nat, result: int, ghost reqs: seq<Request>)
      requires Valid() && thread.Valid() && nr < CALLS
      requires AllIndexable(reqs) && table.State() == After(AsWritten, reqs)
      modifies cpu, thread, table.permList
      ensures Valid() && thread.Valid() && !thread.irqs
      ensures table.State() == Step(AsWritten, old(table.State()), Intercept(uid, nr)).0
      ensures var entered := if TurnedAway(reqs, uid, nr) then Left(old(thread.Now())) else old(thread.Now());
              var used := NumberUsed(nr, traced, entered);
              && cpu.calls == (if used < CALLS
                               then old(cpu.calls) + [DispatchIn(IntendedAfter(reqs), uid, nr, used)]
                               else old(cpu.calls))
              && Preparations(thread.log) == old(Preparations(thread.log)) + (if TurnedAway(reqs, uid, nr) then 2 else 1)
    {
      RefusedByHistory(reqs, uid, nr);
      var checker := table.Findder(uid, nr);
      cpu.HookAsWritten(thread, checker, uid, nr, traced, result, IntendedAfter(reqs));
    }

    method Act(a: Action, ghost reqs: seq<Request>)
      requires Valid() && InRows(a) && AllIndexable(reqs) && table.State() == After(AsWritten, reqs)
      modifies cpu, table, table.permList
      ensures Valid()
      ensures table.State() == Step(AsWritten, old(table.State()), RequestOf(a)).0
      ensures cpu.calls == old(cpu.calls) + RunsAfter(reqs, a)
    {
      match a {
        case Table(req) => var code := table.Act(req);
        case Syscall(uid, nr, traced, result, atEntry, env) =>
          var thread := new Thread(atEntry, {}, false, env);
          DoSyscall64(thread, uid, nr, traced, result, reqs);
      }
    }

    /** On every run the entries that ran are exactly those of the calls that the history of the table leaves
        unrefused. */
    method Run(run: seq<Action>)
      requires Valid() && table.State() == Loaded() && cpu.calls == [] && AllInRows(run)
      modifies cpu, table, table.permList
      ensures Valid() && AllIndexable(Requests(run)) && table.State() == After(AsWritten, Requests(run))
      ensures cpu.calls == Runs(run)
    {
      RequestsIndexable(run);
      assert run[..0] == [];
      for k := 0 to |run|
        invariant Valid() && AllIndexable(Requests(run[..k]))
        invariant table.State() == After(AsWritten, Requests(run[..k]))
        invariant cpu.calls == Runs(run[..k])
      {
        RequestsIndexable(run[..k + 1]);
        assert run[..k + 1][..k] == run[..k];
        assert Requests(run[..k + 1])[..k] == Requests(run[..k]);
        Act(run[k], Requests(run[..k]));
      }
      assert run[..|run|] == run;
    }
  }
}
