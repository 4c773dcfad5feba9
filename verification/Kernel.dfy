/** System call entry with the sandbox hook: do_syscall_64 in project 2/common.c. */
module Kernel {
  import opened Errno
  import opened Sandbox
  import opened ExitPath
  import ChainedTable

  /** __SYSCALL_MASK clears the x32 bit, bit 30. */
  function Masked(nr: nat): nat {
    nr - (nr / 0x4000_0000 % 2) * 0x4000_0000
  }

  /** A numbered call keeps its number. */
  lemma MaskKeepsCalls(nr: nat)
    requires nr < CALLS
    ensures Masked(nr) == nr
  {
  }

  /** The table entry that a call uses: the number asked for, or the one a tracer leaves behind when entry
      work is asked for once interrupts have been on. */
  function NumberUsed(asked: nat, traced: nat, w: Work): nat {
    Masked(if SyscallEntryWork in Moment(w).flags then traced else asked)
  }

  /** The mask takes away bit 30 and nothing else. */
  lemma MaskedExactly(nr: nat)
    ensures Masked(nr) / 0x4000_0000 % 2 == 0
    ensures Masked(nr) == nr || Masked(nr) + 0x4000_0000 == nr
  {
    var q, r := nr / 0x4000_0000, nr % 0x4000_0000;
    assert nr == q * 0x4000_0000 + r;
    assert Masked(nr) == (q - q % 2) * 0x4000_0000 + r;
    assert Masked(nr) / 0x4000_0000 == q - q % 2;
  }

  /** The number that a call arrives with: the tracer's, if entry work is asked for from the start or is raised by
      the first entry of the environment. */
  function Number(asked: nat, traced: nat, flags: set<Flag>, env: seq<set<Flag>>): nat {
    if SyscallEntryWork in flags || (env != [] && SyscallEntryWork in env[0]) then traced else asked
  }

  /** The number is that of entry n of the table, with or without the x32 bit. */
  predicate Names(number: nat, n: nat) {
    n < 437 && (number == n || number == n + 0x4000_0000)
  }

  /** Entry n is used exactly when the number names it. */
  lemma NumberUsedExactly(asked: nat, traced: nat, w: Work, n: nat)
    requires n < CALLS
    ensures NumberUsed(asked, traced, w) == n <==> Names(Number(asked, traced, w.flags, w.env), n)
  {
    MaskedExactly(if SyscallEntryWork in Moment(w).flags then traced else asked);
  }

  /** The entries that a system call runs: none if it is refused or its number names none, and otherwise the one that
      the number names. */
  lemma EntriesExactly(refused: bool, m: Blocked, a: Action)
    requires a.Syscall?
    ensures refused ==> EntriesOf(refused, m, a) == []
    ensures !refused && (forall n: nat :: !Names(Number(a.nr, a.traced, a.atEntry, a.env), n)) ==>
              EntriesOf(refused, m, a) == []
    ensures forall n: nat :: !refused && Names(Number(a.nr, a.traced, a.atEntry, a.env), n) ==>
              EntriesOf(refused, m, a) == [Dispatch(a.uid, a.nr, n, (a.uid, a.nr) in m, (a.uid, n) in m)]
  {
    var used := NumberUsed(a.nr, a.traced, Work(a.atEntry, a.env));
    if used < CALLS { NumberUsedExactly(a.nr, a.traced, Work(a.atEntry, a.env), used); }
    forall n: nat | Names(Number(a.nr, a.traced, a.atEntry, a.env), n)
      ensures used == n
    {
      NumberUsedExactly(a.nr, a.traced, Work(a.atEntry, a.env), n);
    }
  }

  /** A number with bit 30 clear behind the table, such as a tracer may leave, names no entry. */
  lemma OutsideRunsNothing(m: Blocked, a: Action)
    requires a.Syscall? && Number(a.nr, a.traced, a.atEntry, a.env) >= 437
    requires Number(a.nr, a.traced, a.atEntry, a.env) / 0x4000_0000 % 2 == 0
    ensures DispatchesOf(m, a) == []
  {
    EntriesExactly((a.uid, a.nr) in m, m, a);
  }

  /** The thread's flags and environment after lines 309 to 326. */
  function WorkAfter(used: nat, w: Work): Work {
    var m := Moment(w);
    Left(Moment(if used < CALLS then Moment(m) else m))
  }

  /** Around a call the environment gets a moment with interrupts on at the entry, another while an entry of the
      table runs, and another on the way out before they go off: whatever it raises in the part that is used up
      arrives, apart from the loop flags, of which none is left. */
  lemma WorkAfterExactly(used: nat, w: Work)
    ensures Settles(w, WorkAfter(used, w))
    ensures var rest := |WorkAfter(used, w).env|;
            rest == 0 || rest + (if used < 437 then 3 else 2) <= |w.env|
  {
    var a := Moment(w);
    var b := if used < CALLS then Moment(a) else a;
    TwoMoments(w, a, b);
    var c := Moment(b);
    MomentArrives(b);
    ArrivesTwice(w, b, c);
    LeftArrives(c);
    ArrivesTwice(w, c, Left(c));
    NoneLeft(w, Left(c));
  }

  lemma TwoMoments(w: Work, a: Work, b: Work)
    requires a == Moment(w) && (b == a || b == Moment(a))
    ensures Arrives(w, b) && |b.env| <= |w.env|
    ensures b.env == [] || |b.env| == |w.env| - 1 || (b == Moment(a) && |b.env| == |w.env| - 2)
  {
    MomentArrives(w);
    MomentArrives(a);
    ArrivesTwice(w, a, Moment(a));
  }

  lemma MomentArrives(w: Work)
    ensures Arrives(w, Moment(w)) && |Moment(w).env| == if w.env == [] then 0 else |w.env| - 1
  {
    WorkedArrives(w, Uprobe, {});
  }

  /** A call of sys_call_table: uid asked for number `asked` and entry `nr` ran. `askedBlocked` and `blocked`
      say whether (uid, asked) and (uid, nr) were in the blocked set at that moment. */
  datatype Dispatch = Dispatch(uid: nat, asked: nat, nr: nat, askedBlocked: bool, blocked: bool)

  function DispatchIn(m: Blocked, uid: nat, asked: nat, used: nat): Dispatch {
    Dispatch(uid, asked, used, (uid, asked) in m, (uid, used) in m)
  }

  datatype Action =
    | Table(req: Request)
    | Syscall(uid: nat, nr: nat, traced: nat, result: int, atEntry: set<Flag>, env: seq<set<Flag>>)

  /** The request that an action makes of the blocked set. */
  function RequestOf(a: Action): Request {
    match a
    case Table(req) => req
    case Syscall(uid, nr, _, _, _, _) => Intercept(uid, nr)
  }

  ghost predicate Performable(a: Action) {
    match a
    case Table(req) => !req.Intercept? && ChainedTable.InTable(req)
    case Syscall(_, nr, _, _, _, _) => nr < CALLS
  }

  function Requests(run: seq<Action>): (reqs: seq<Request>)
    ensures |reqs| == |run|
  {
    if run == [] then [] else Requests(run[..|run| - 1]) + [RequestOf(run[|run| - 1])]
  }

  /** The table entries that an action runs when the intended blocked set is m, and `refused` says whether the
      hook refuses a system call. */
  function EntriesOf(refused: bool, m: Blocked, a: Action): seq<Dispatch> {
    match a
    case Table(req) => []
    case Syscall(uid, nr, traced, _, atEntry, env) =>
      var used := NumberUsed(nr, traced, Work(atEntry, env));
      if refused || used >= CALLS then [] else [DispatchIn(m, uid, nr, used)]
  }

  /** The same when the hook refuses exactly the blocked pairs. */
  function DispatchesOf(m: Blocked, a: Action): seq<Dispatch> {
    EntriesOf(a.Syscall? && (a.uid, a.nr) in m, m, a)
  }

  /** The table entries that a run of actions runs, in order. */
  function Dispatches(run: seq<Action>): seq<Dispatch> {
    if run == [] then []
    else Dispatches(run[..|run| - 1]) + DispatchesOf(IntendedAfter(Requests(run[..|run| - 1])), run[|run| - 1])
  }

  /** Action k is an unblocked call that a tracer turns into one its caller is blocked from. */
  ghost predicate Redirected(run: seq<Action>, k: nat)
    requires k < |run|
  {
    run[k].Syscall? &&
    var m := IntendedAfter(Requests(run[..k]));
    && (run[k].uid, run[k].nr) !in m && (run[k].uid, Masked(run[k].traced)) in m
    && Masked(run[k].traced) < CALLS && SyscallEntryWork in Moment(Work(run[k].atEntry, run[k].env)).flags
  }

  ghost predicate AllPerformable(run: seq<Action>) {
    forall i :: 0 <= i < |run| ==> Performable(run[i])
  }

  lemma DispatchesOfExactly(run: seq<Action>, k: nat)
    requires AllPerformable(run) && k < |run|
    ensures var ds := DispatchesOf(IntendedAfter(Requests(run[..k])), run[k]);
            (forall d :: d in ds ==> !d.askedBlocked) && ((exists d :: d in ds && d.blocked) <==> Redirected(run, k))
  {
    if run[k].Syscall? {
      MaskKeepsCalls(run[k].nr);
      var m := IntendedAfter(Requests(run[..k]));
      var used := NumberUsed(run[k].nr, run[k].traced, Work(run[k].atEntry, run[k].env));
      if (run[k].uid, run[k].nr) !in m && used < CALLS {
        assert DispatchesOf(m, run[k])[0] == DispatchIn(m, run[k].uid, run[k].nr, used);
      }
    }
  }

  ghost predicate NoneRedirected(run: seq<Action>) {
    forall k :: 0 <= k < |run| ==> !Redirected(run, k)
  }

  lemma RedirectedFront(run: seq<Action>)
    requires run != []
    ensures NoneRedirected(run) <==> NoneRedirected(run[..|run| - 1]) && !Redirected(run, |run| - 1)
  {
    var front := run[..|run| - 1];
    forall k: nat | k < |front|
      ensures Redirected(front, k) <==> Redirected(run, k)
    {
      assert front[..k] == run[..k];
    }
  }

  /** Every entry that runs was asked for by number of an unblocked call; and no entry runs while its caller is
      blocked from it, exactly when no tracer turns an unblocked call into a blocked one. */
  lemma {:induction false} DispatchesExactly(run: seq<Action>)
    requires AllPerformable(run)
    ensures forall d :: d in Dispatches(run) ==> !d.askedBlocked
    ensures (forall d :: d in Dispatches(run) ==> !d.blocked) <==> NoneRedirected(run)
  {
    if run == [] {
    } else {
      var front, n := run[..|run| - 1], |run| - 1;
      DispatchesExactly(front);
      DispatchesOfExactly(run, n);
      RedirectedFront(run);
      var ds := DispatchesOf(IntendedAfter(Requests(front)), run[n]);
      assert forall d :: d in Dispatches(run) <==> d in Dispatches(front) || d in ds;
    }
  }

  /** A call to any unblocked number, turned by a tracer into the one its caller has just blocked. */
  lemma BlockedEntryRuns(uid: nat, asked: nat, target: nat)
    requires asked < CALLS && target < CALLS && asked != target
    ensures var run := [Table(Block(uid, uid, target)), Syscall(uid, asked, target, 0, {SyscallEntryWork}, [])];
            AllPerformable(run) && Dispatches(run) == [Dispatch(uid, asked, target, false, true)]
  {
    var a, b := Table(Block(uid, uid, target)), Syscall(uid, asked, target, 0, {SyscallEntryWork}, []);
    MaskKeepsCalls(target);
    assert [a, b][..1] == [a];
    assert [a][..0] == [];
    assert Requests([a]) == [RequestOf(a)];
    assert [RequestOf(a)][..0] == [];
    assert IntendedAfter([]) == map[];
    assert IntendedAfter([RequestOf(a)]) == map[(uid, target) := 0];
    assert Dispatches([]) == [];
    assert Dispatches([a]) == [];
  }

  /** What do_syscall_64 does around the hook. */
  class Cpu {
    var ax: int
    /** The entries that have run; `m` in the methods is the intended blocked set, for this record only. */
    ghost var calls: seq<Dispatch>

    constructor ()
      ensures calls == []
    {
      ax, calls := 0, [];
    }

    /** Lines 309 to 326: entry work, the masked table call, and the slow path out. `traced` is the number
        a tracer leaves behind, `result` what the called entry returns. */
    method Enter(thread: Thread, uid: nat, asked: nat, traced: nat, result: int, ghost m: Blocked)
      returns (ghost used: nat)
      requires thread.Valid()
      modifies this, thread
      ensures thread.Valid() && !thread.irqs && thread.flags * LOOP_FLAGS == {}
      ensures used == NumberUsed(asked, traced, old(thread.Now()))
      ensures thread.Now() == WorkAfter(used, old(thread.Now()))
      ensures calls == if used < CALLS then old(calls) + [DispatchIn(m, uid, asked, used)] else old(calls)
      ensures ax == if used < CALLS then result else old(ax)
      ensures var number := Number(asked, traced, old(thread.flags), old(thread.env));
              && ((forall n: nat :: !Names(number, n)) ==> calls == old(calls) && ax == old(ax))
              && (forall n: nat :: Names(number, n) ==>
                    calls == old(calls) + [Dispatch(uid, asked, n, (uid, asked) in m, (uid, n) in m)] && ax == result)
      ensures Preparations(thread.log) == old(Preparations(thread.log)) + 1
      ensures thread.log != [] && thread.log[|thread.log| - 1] == Prepared(false)
    {
      EntriesExactly(false, m, Syscall(uid, asked, traced, result, thread.flags, thread.env));
      thread.irqs := true;
      thread.Interrupts();
      var nr := asked;
      if SyscallEntryWork in thread.flags {
        nr := traced;
      }
      nr := Masked(nr);
      used := nr;
      if nr < CALLS {
        calls := calls + [DispatchIn(m, uid, asked, nr)];
        thread.Interrupts();
        ax := result;
      }
      thread.SyscallReturnSlowpath();
    }

    /** Lines 303 to 326 with the blocked branch ending the call: a refused call yields -EACCES, runs no entry
        and prepares the return once with interrupts off. `checker` is what findder answered. */
    method Hook(thread: Thread, checker: int, uid: nat, nr: nat, traced: nat, result: int, ghost m: Blocked)
      requires thread.Valid()
      modifies this, thread
      ensures thread.Valid() && !thread.irqs && thread.flags * LOOP_FLAGS == {}
      ensures Preparations(thread.log) == old(Preparations(thread.log)) + 1
      ensures thread.log != [] && thread.log[|thread.log| - 1] == Prepared(false)
      ensures checker == 1 ==> ax == -EACCES == -13 && calls == old(calls) && thread.Now() == Left(old(thread.Now()))
      ensures checker != 1 ==>
                var used := NumberUsed(nr, traced, old(thread.Now()));
                && ax == (if used < CALLS then result else old(ax))
                && calls == (if used < CALLS then old(calls) + [DispatchIn(m, uid, nr, used)] else old(calls))
                && thread.Now() == WorkAfter(used, old(thread.Now()))
    {
      if checker == 1 {
        ax := -EACCES;
        thread.irqs := false;
        thread.PrepareExitToUsermode();
        return;
      }
      ghost var used := Enter(thread, uid, nr, traced, result, m);
    }

    /** The same lines as written, without a return in the blocked branch: the call runs whether it is refused
        or not, and a refused one prepares the return twice. */
    method HookAsWritten(thread: Thread, checker: int, uid: nat, nr: nat, traced: nat, result: int, ghost m: Blocked)
      requires thread.Valid()
      modifies this, thread
      ensures thread.Valid() && !thread.irqs
      ensures var entered := if checker == 1 then Left(old(thread.Now())) else old(thread.Now());
              var used := NumberUsed(nr, traced, entered);
              && calls == (if used < CALLS then old(calls) + [DispatchIn(m, uid, nr, used)] else old(calls))
              && ax == (if used < CALLS then result else if checker == 1 then -EACCES else old(ax))
              && thread.Now() == WorkAfter(used, entered)
              && Preparations(thread.log) == old(Preparations(thread.log)) + (if checker == 1 then 2 else 1)
    {
      if checker == 1 {
        ax := -EACCES;
        thread.irqs := false;
        thread.PrepareExitToUsermode();
      }
      ghost var used := Enter(thread, uid, nr, traced, result, m);
    }
  }

  /** The hook over the chained table with findder as meant. */
  class Kernel {
    const tables: ChainedTable.ChainedTables
    const cpu: Cpu

    ghost predicate Valid()
      reads this, tables, tables.permList
    {
      tables.Valid() && !tables.locked
    }

    constructor (h: int -> nat, buckets: nat)
      requires forall p: int :: h(p) < buckets
      ensures Valid() && fresh(tables) && fresh(tables.permList) && fresh(cpu)
      ensures tables.model == map[] && cpu.calls == []
    {
      tables := new ChainedTable.ChainedTables(h, buckets);
      cpu := new Cpu();
    }

    /** A blocked call yields -EACCES, is counted, runs no entry and prepares the return once with interrupts
        off; another runs its entry. */
    method DoSyscall64(thread: Thread, uid: nat, nr: nat, traced: nat, result: int)
      requires Valid() && thread.Valid() && nr < CALLS
      modifies cpu, thread, tables`model, tables.permList
      ensures Valid() && thread.Valid() && !thread.irqs && thread.flags * LOOP_FLAGS == {}
      ensures tables.model == Intended(old(tables.model), Intercept(uid, nr)).0
      ensures Preparations(thread.log) == old(Preparations(thread.log)) + 1
      ensures thread.log != [] && thread.log[|thread.log| - 1] == Prepared(false)
      ensures (uid, nr) in old(tables.model) ==>
                cpu.ax == -EACCES && cpu.calls == old(cpu.calls) && thread.Now() == Left(old(thread.Now()))
      ensures (uid, nr) !in old(tables.model) ==>
                var used := NumberUsed(nr, traced, old(thread.Now()));
                && cpu.ax == (if used < CALLS then result else old(cpu.ax))
                && cpu.calls == (if used < CALLS
                                 then old(cpu.calls) + [DispatchIn(old(tables.model), uid, nr, used)]
                                 else old(cpu.calls))
                && thread.Now() == WorkAfter(used, old(thread.Now()))
    {
      ghost var m := tables.model;
      var checker := tables.Findder(uid, nr);
      cpu.Hook(thread, checker, uid, nr, traced, result, m);
    }

    /** As written a blocked call is counted, runs its entry all the same and prepares the return twice. */
    method DoSyscall64AsWritten(thread: Thread, uid: nat, nr: nat, traced: nat, result: int)
      requires Valid() && thread.Valid() && nr < CALLS
      modifies cpu, thread, tables`model, tables.permList
      ensures Valid() && thread.Valid() && !thread.irqs
      ensures tables.model == Intended(old(tables.model), Intercept(uid, nr)).0
      ensures var blocked := (uid, nr) in old(tables.model);
              var entered := if blocked then Left(old(thread.Now())) else old(thread.Now());
              var used := NumberUsed(nr, traced, entered);
              && cpu.calls == (if used < CALLS then old(cpu.calls) + [DispatchIn(old(tables.model), uid, nr, used)]
                               else old(cpu.calls))
              && cpu.ax == (if used < CALLS then result else if blocked then -EACCES else old(cpu.ax))
              && thread.Now() == WorkAfter(used, entered)
              && Preparations(thread.log) == old(Preparations(thread.log)) + (if blocked then 2 else 1)
    {
      ghost var m := tables.model;
      var checker := tables.Findder(uid, nr);
      cpu.HookAsWritten(thread, checker, uid, nr, traced, result, m);
    }

    /** The three sandbox system calls, with kmalloc succeeding. */
    method Perform(req: Request)
      requires Valid() && !req.Intercept? && ChainedTable.InTable(req)
      modifies tables, tables.permList
      ensures Valid() && tables.model == Intended(old(tables.model), req).0
    {
      match req {
        case Block(caller, proc, nr) => var code := tables.Block(caller, proc, nr, true);
        case Unblock(caller, proc, nr) => var code := tables.Unblock(caller, proc, nr);
        case Count(caller, proc, nr) => var code := tables.Count(caller, proc, nr);
      }
    }

    method Act(a: Action)
      requires Valid() && Performable(a)
      modifies cpu, tables, tables.permList
      ensures Valid()
      ensures cpu.calls == old(cpu.calls) + DispatchesOf(old(tables.model), a)
      ensures tables.model == Intended(old(tables.model), RequestOf(a)).0
    {
      match a {
        case Table(req) => Perform(req);
        case Syscall(uid, nr, traced, result, atEntry, env) =>
          var thread := new Thread(atEntry, {}, false, env);
          DoSyscall64(thread, uid, nr, traced, result);
      }
    }

    /** On every run of block, unblock, count and system calls the blocked set and its counts are the intended
        ones, exactly the entries of Dispatches have run, each for a caller who was not blocked from the number
        it asked for, and none of them blocked exactly when no tracer turned a call into a blocked one. */
    method Run(run: seq<Action>)
      requires Valid() && tables.model == map[] && cpu.calls == [] && AllPerformable(run)
      modifies cpu, tables, tables.permList
      ensures Valid()
      ensures tables.model == IntendedAfter(Requests(run))
      ensures cpu.calls == Dispatches(run)
      ensures forall d :: d in cpu.calls ==> !d.askedBlocked
      ensures (forall d :: d in cpu.calls ==> !d.blocked) <==> NoneRedirected(run)
    {
      assert run[..0] == [];
      for k := 0 to |run|
        invariant Valid()
        invariant tables.model == IntendedAfter(Requests(run[..k]))
        invariant cpu.calls == Dispatches(run[..k])
      {
        RequestsNext(run, k);
        assert run[..k + 1][..k] == run[..k];
        Act(run[k]);
      }
      assert run[..|run|] == run;
      DispatchesExactly(run);
    }
  }

  lemma RequestsNext(run: seq<Action>, k: nat)
    requires k < |run|
    ensures IntendedAfter(Requests(run[..k + 1])) == Intended(IntendedAfter(Requests(run[..k])), RequestOf(run[k])).0
  {
    var prefix := run[..k + 1];
    assert prefix[..k] == run[..k];
    assert Requests(prefix)[..k] == Requests(run[..k]);
  }
}
