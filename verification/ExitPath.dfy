/** The return to user mode in project 2/common.c: a thread with work flags and an interrupt switch, and
    an environment that may raise flags whenever interrupts are on. */
module ExitPath {

  datatype Flag =
    | NeedResched | Uprobe | PatchPending | SigPending | NotifyResume | UserReturnNotify
    | SyscallExitWork | SyscallEntryWork | OtherFlag(id: nat)

  /** EXIT_TO_USERMODE_LOOP_FLAGS. */
  const LOOP_FLAGS: set<Flag> := {NeedResched, Uprobe, PatchPending, SigPending, NotifyResume, UserReturnNotify}

  datatype StatusBit = Compat | I386RegsPoked | OtherStatus(id: nat)

  /** What happens on the way out, in order. */
  datatype Event = Raised(flags: set<Flag>) | Handled(flag: Flag) | ExitWork(irqs: bool) | Prepared(irqs: bool)

  /** How many entries of the environment's list raise anything. */
  function Pending(env: seq<set<Flag>>): nat {
    if env == [] then 0 else (if env[0] != {} then 1 else 0) + Pending(env[1..])
  }

  // ---- What the steps do to the flags, and how much of the environment they use up ----

  datatype Work = Work(flags: set<Flag>, env: seq<set<Flag>>)

  /** A moment with interrupts on. */
  function Moment(w: Work): Work {
    if w.env == [] then w else Work(w.flags + w.env[0], w.env[1..])
  }

  /** `if (cached_flags & F) handler();` where the handler clears F. */
  function Worked(w: Work, f: Flag, cached: set<Flag>): Work {
    var m := Moment(w);
    if f in cached then m.(flags := m.flags - {f}) else m
  }

  function Scheduled(w: Work, cached: set<Flag>): Work {
    Worked(Worked(Worked(w, NeedResched, cached), Uprobe, cached), PatchPending, cached)
  }

  function Notified(w: Work, cached: set<Flag>): Work {
    Worked(Worked(Worked(w, SigPending, cached), NotifyResume, cached), UserReturnNotify, cached)
  }

  /** The loop body from local_irq_enable to local_irq_disable. */
  function Passed(w: Work): Work {
    Moment(Notified(Scheduled(w, w.flags), w.flags))
  }

  lemma MomentPending(w: Work)
    ensures Pending(Moment(w).env) <= Pending(w.env)
    ensures Pending(Moment(w).env) == Pending(w.env) ==> Moment(w).flags == w.flags
  {
  }

  lemma WorkedPending(w: Work, f: Flag, cached: set<Flag>)
    requires w.flags <= cached
    ensures Pending(Worked(w, f, cached).env) <= Pending(w.env)
    ensures Pending(Worked(w, f, cached).env) == Pending(w.env) ==> Worked(w, f, cached).flags == w.flags - {f}
  {
    MomentPending(w);
  }

  lemma WorkedUses(w: Work, f: Flag, cached: set<Flag>)
    ensures Pending(Worked(w, f, cached).env) <= Pending(w.env)
  {
  }

  lemma ScheduledPending(w: Work, cached: set<Flag>)
    requires w.flags <= cached
    ensures Pending(Scheduled(w, cached).env) <= Pending(w.env)
    ensures Pending(Scheduled(w, cached).env) == Pending(w.env) ==>
              Scheduled(w, cached).flags == w.flags - {NeedResched, Uprobe, PatchPending}
  {
    var v := Worked(w, NeedResched, cached);
    var u := Worked(v, Uprobe, cached);
    WorkedPending(w, NeedResched, cached);
    WorkedUses(v, Uprobe, cached);
    WorkedUses(u, PatchPending, cached);
    if Pending(Scheduled(w, cached).env) == Pending(w.env) {
      WorkedPending(v, Uprobe, cached);
      WorkedPending(u, PatchPending, cached);
    }
  }

  lemma NotifiedPending(w: Work, cached: set<Flag>)
    requires w.flags <= cached
    ensures Pending(Notified(w, cached).env) <= Pending(w.env)
    ensures Pending(Notified(w, cached).env) == Pending(w.env) ==>
              Notified(w, cached).flags == w.flags - {SigPending, NotifyResume, UserReturnNotify}
  {
    var v := Worked(w, SigPending, cached);
    var u := Worked(v, NotifyResume, cached);
    WorkedPending(w, SigPending, cached);
    WorkedUses(v, NotifyResume, cached);
    WorkedUses(u, UserReturnNotify, cached);
    if Pending(Notified(w, cached).env) == Pending(w.env) {
      WorkedPending(v, NotifyResume, cached);
      WorkedPending(u, UserReturnNotify, cached);
    }
  }

  lemma NotifiedUses(w: Work, cached: set<Flag>)
    ensures Pending(Notified(w, cached).env) <= Pending(w.env)
  {
    WorkedUses(w, SigPending, cached);
    WorkedUses(Worked(w, SigPending, cached), NotifyResume, cached);
    WorkedUses(Worked(Worked(w, SigPending, cached), NotifyResume, cached), UserReturnNotify, cached);
  }

  /** A pass in which nothing is raised clears all loop flags. */
  lemma PassedPending(w: Work)
    ensures Pending(Passed(w).env) <= Pending(w.env)
    ensures Pending(Passed(w).env) == Pending(w.env) ==> Passed(w).flags == w.flags - LOOP_FLAGS
  {
    var v := Scheduled(w, w.flags);
    ScheduledPending(w, w.flags);
    NotifiedUses(v, w.flags);
    MomentPending(Notified(v, w.flags));
    if Pending(Passed(w).env) == Pending(w.env) {
      NotifiedPending(v, w.flags);
      assert Passed(w).flags == w.flags - {NeedResched, Uprobe, PatchPending} - {SigPending, NotifyResume, UserReturnNotify};
    }
  }

  /** The loop: its end, reached after one pass and one more for each pass that left work behind. */
  function LoopEnd(w: Work): (r: Work)
    ensures r.flags * LOOP_FLAGS == {}
    decreases Pending(w.env)
  {
    var p := Passed(w);
    PassedPending(w);
    if p.flags * LOOP_FLAGS == {} then p else LoopEnd(p)
  }

  /** prepare_exit_to_usermode. */
  function Left(w: Work): (r: Work)
    ensures r.flags * LOOP_FLAGS == {}
  {
    if w.flags * LOOP_FLAGS != {} then LoopEnd(w) else w
  }

  // ---- What is raised arrives ----

  /** Everything that some entry raises. */
  ghost function Union(env: seq<set<Flag>>): set<Flag> {
    set i, f | 0 <= i < |env| && f in env[i] :: f
  }

  /** From v to w the first entries of the environment were used up, and outside the loop flags exactly what they
      raised has been added. */
  ghost predicate Arrives(v: Work, w: Work) {
    && |w.env| <= |v.env| && w.env == v.env[|v.env| - |w.env|..]
    && w.flags - LOOP_FLAGS == (v.flags + Union(v.env[..|v.env| - |w.env|])) - LOOP_FLAGS
  }

  lemma UnionSplit(a: seq<set<Flag>>, b: seq<set<Flag>>)
    ensures Union(a + b) == Union(a) + Union(b)
  {
    forall f
      ensures f in Union(a + b) <==> f in Union(a) || f in Union(b)
    {
      if i :| 0 <= i < |a| && f in a[i] { assert f in (a + b)[i]; }
      if i :| 0 <= i < |b| && f in b[i] { assert f in (a + b)[|a| + i]; }
    }
  }

  lemma ArrivesTwice(v: Work, w: Work, x: Work)
    requires Arrives(v, w) && Arrives(w, x)
    ensures Arrives(v, x)
  {
    var a, b := v.env[..|v.env| - |w.env|], w.env[..|w.env| - |x.env|];
    assert v.env[..|v.env| - |x.env|] == a + b;
    UnionSplit(a, b);
    assert (w.flags + Union(b)) - LOOP_FLAGS == (w.flags - LOOP_FLAGS) + (Union(b) - LOOP_FLAGS);
    assert (v.flags + Union(a + b)) - LOOP_FLAGS == (v.flags + Union(a)) - LOOP_FLAGS + (Union(b) - LOOP_FLAGS);
  }

  lemma WorkedArrives(w: Work, f: Flag, cached: set<Flag>)
    requires f in LOOP_FLAGS
    ensures Arrives(w, Moment(w)) && Arrives(w, Worked(w, f, cached))
  {
    if w.env != [] {
      assert Union([w.env[0]]) == w.env[0] by { assert [w.env[0]][0] == w.env[0]; }
      assert w.env[..1] == [w.env[0]];
    }
  }

  lemma WorkedMore(v: Work, w: Work, f: Flag, cached: set<Flag>)
    requires Arrives(v, w) && f in LOOP_FLAGS
    ensures Arrives(v, Worked(w, f, cached)) && Arrives(v, Moment(w))
  {
    WorkedArrives(w, f, cached);
    ArrivesTwice(v, w, Worked(w, f, cached));
    ArrivesTwice(v, w, Moment(w));
  }

  lemma PassedArrives(w: Work)
    ensures Arrives(w, Passed(w))
  {
    var cached := w.flags;
    var a := Worked(w, NeedResched, cached);
    var b := Worked(a, Uprobe, cached);
    var c := Worked(b, PatchPending, cached);
    var d := Worked(c, SigPending, cached);
    var e := Worked(d, NotifyResume, cached);
    WorkedArrives(w, NeedResched, cached);
    WorkedMore(w, a, Uprobe, cached);
    WorkedMore(w, b, PatchPending, cached);
    WorkedMore(w, c, SigPending, cached);
    WorkedMore(w, d, NotifyResume, cached);
    WorkedMore(w, e, UserReturnNotify, cached);
    WorkedMore(w, Worked(e, UserReturnNotify, cached), Uprobe, {});
  }

  /** A pass has seven moments with interrupts on. */
  lemma PassedUses(w: Work)
    ensures |Passed(w).env| == if |w.env| >= 7 then |w.env| - 7 else 0
  {
  }

  lemma {:induction false} LoopEndArrives(w: Work)
    ensures Arrives(w, LoopEnd(w))
    ensures w.env != [] ==> |LoopEnd(w).env| < |w.env|
    decreases Pending(w.env)
  {
    var p := Passed(w);
    PassedPending(w);
    PassedArrives(w);
    PassedUses(w);
    if p.flags * LOOP_FLAGS == {} {
    } else {
      LoopEndArrives(p);
      ArrivesTwice(w, p, LoopEnd(p));
    }
  }

  lemma NoLoopFlag(flags: set<Flag>)
    ensures flags * LOOP_FLAGS == {} <==>
              flags !! {NeedResched, Uprobe, PatchPending, SigPending, NotifyResume, UserReturnNotify}
    ensures flags * LOOP_FLAGS == {} ==> flags - LOOP_FLAGS == flags
  {
    forall f | flags * LOOP_FLAGS == {} && f in LOOP_FLAGS
      ensures f !in flags
    {
      assert f in flags ==> f in flags * LOOP_FLAGS;
    }
  }

  lemma LeftArrives(w: Work)
    ensures Arrives(w, Left(w))
  {
    if w.flags * LOOP_FLAGS != {} {
      LoopEndArrives(w);
    } else {
      assert w.env[..0] == [] && Union([]) == {};
      assert w.flags + {} == w.flags;
    }
  }

  /** From v to w the first entries of the environment were used up, and every flag that was set or that they raised
      is set, apart from the loop flags, of which none is. */
  ghost predicate Settles(v: Work, w: Work) {
    var k := |v.env| - |w.env|;
    && 0 <= k && w.env == v.env[k..]
    && w.flags == (v.flags + Union(v.env[..k]))
         - {NeedResched, Uprobe, PatchPending, SigPending, NotifyResume, UserReturnNotify}
  }

  lemma NoneLeft(v: Work, w: Work)
    requires Arrives(v, w) && w.flags * LOOP_FLAGS == {}
    ensures Settles(v, w)
  {
    NoLoopFlag(w.flags);
  }

  /** Where the way out ends; and without loop flags at the start nothing happens at all. */
  lemma LeftExactly(w: Work)
    ensures Settles(w, Left(w))
    ensures Left(w).env == w.env <==> (w.env == []
              || w.flags !! {NeedResched, Uprobe, PatchPending, SigPending, NotifyResume, UserReturnNotify})
  {
    NoLoopFlag(w.flags);
    LeftArrives(w);
    NoneLeft(w, Left(w));
    if w.flags * LOOP_FLAGS != {} {
      LoopEndArrives(w);
    }
  }

  // ---- The account of raised flags ----

  ghost predicate HandledAfter(log: seq<Event>, i: nat, f: Flag) {
    exists j :: i < j < |log| && log[j] == Handled(f)
  }

  /** Every loop flag raised so far is still set or was handled afterwards. */
  ghost predicate NothingLost(log: seq<Event>, flags: set<Flag>) {
    forall i: nat, f :: i < |log| && log[i].Raised? && f in log[i].flags && f in LOOP_FLAGS ==>
      f in flags || HandledAfter(log, i, f)
  }

  /** Appending any event keeps the account, provided the flags follow it. */
  lemma LogEvent(log: seq<Event>, flags: set<Flag>, e: Event, after: set<Flag>)
    requires NothingLost(log, flags)
    requires match e
             case Raised(more) => flags + more <= after
             case Handled(f) => flags - {f} <= after
             case _ => flags <= after
    ensures NothingLost(log + [e], after)
  {
    var t := log + [e];
    forall i: nat, f | i < |t| && t[i].Raised? && f in t[i].flags && f in LOOP_FLAGS && f !in after
      ensures HandledAfter(t, i, f)
    {
      if f in flags {
        assert t[|log|] == Handled(f);
      } else {
        assert HandledAfter(log, i, f);
        var j :| i < j < |log| && log[j] == Handled(f);
        assert t[j] == Handled(f);
      }
    }
  }

  function Preparations(log: seq<Event>): nat {
    if log == [] then 0 else Preparations(log[..|log| - 1]) + if log[|log| - 1].Prepared? then 1 else 0
  }

  function ExitWorks(log: seq<Event>): nat {
    if log == [] then 0 else ExitWorks(log[..|log| - 1]) + if log[|log| - 1].ExitWork? then 1 else 0
  }

  /** What the environment raised, in order. */
  function Raises(log: seq<Event>): seq<set<Flag>> {
    if log == [] then []
    else
      var e := log[|log| - 1];
      Raises(log[..|log| - 1]) + if e.Raised? then [e.flags] else []
  }

  /** Which handlers ran, in order. */
  function Handles(log: seq<Event>): seq<Flag> {
    if log == [] then []
    else
      var e := log[|log| - 1];
      Handles(log[..|log| - 1]) + if e.Handled? then [e.flag] else []
  }

  lemma Logged(log: seq<Event>, e: Event)
    ensures Raises(log + [e]) == Raises(log) + if e.Raised? then [e.flags] else []
    ensures Handles(log + [e]) == Handles(log) + if e.Handled? then [e.flag] else []
    ensures Preparations(log + [e]) == Preparations(log) + if e.Prepared? then 1 else 0
    ensures ExitWorks(log + [e]) == ExitWorks(log) + if e.ExitWork? then 1 else 0
  {
    assert (log + [e])[..|log|] == log;
  }

  lemma {:induction false} RaisedWhere(log: seq<Event>, k: nat) returns (i: nat)
    requires k < |Raises(log)|
    ensures i < |log| && log[i] == Raised(Raises(log)[k]) && Raises(log[..i]) == Raises(log)[..k]
  {
    var front := log[..|log| - 1];
    if k < |Raises(front)| {
      i := RaisedWhere(front, k);
      assert front[..i] == log[..i];
    } else {
      i := |log| - 1;
    }
  }

  class Thread {
    var flags: set<Flag>
    var status: set<StatusBit>
    /** Interrupts are on. */
    var irqs: bool
    /** What the environment will still raise, one entry for each moment with interrupts on. */
    var env: seq<set<Flag>>
    ghost var log: seq<Event>
    /** All that the environment had to raise from the start on. */
    ghost const given: seq<set<Flag>>

    /** No raised flag is lost, and what was raised so far is exactly what the environment no longer holds. */
    ghost predicate Valid()
      reads this
    {
      NothingLost(log, flags) && Raises(log) + env == given
    }

    constructor (flags: set<Flag>, status: set<StatusBit>, irqs: bool, env: seq<set<Flag>>)
      ensures Valid() && this.flags == flags && this.status == status && this.irqs == irqs
      ensures this.env == env && given == env && log == []
    {
      this.flags, this.status, this.irqs := flags, status, irqs;
      this.env, given, log := env, env, [];
    }

    function Now(): Work
      reads this
    {
      Work(flags, env)
    }

    /** An event that leaves the flags alone. */
    ghost method Record(e: Event)
      requires Valid() && (e.ExitWork? || e.Prepared?)
      modifies this`log
      ensures Valid() && log != [] && log[|log| - 1] == e
      ensures Preparations(log) == old(Preparations(log)) + if e.Prepared? then 1 else 0
      ensures ExitWorks(log) == old(ExitWorks(log)) + if e.ExitWork? then 1 else 0
    {
      LogEvent(log, flags, e, flags);
      Logged(log, e);
      log := log + [e];
    }

    /** A moment with interrupts on. */
    method Interrupts()
      requires Valid() && irqs
      modifies this`flags, this`env, this`log
      ensures Valid() && Now() == Moment(old(Now()))
      ensures if old(env) == [] then env == [] && flags == old(flags)
              else env == old(env)[1..] && flags == old(flags) + old(env)[0]
      ensures Raises(log) + env == old(Raises(log) + env) && Handles(log) == old(Handles(log))
      ensures Preparations(log) == old(Preparations(log)) && ExitWorks(log) == old(ExitWorks(log))
    {
      if env != [] {
        LogEvent(log, flags, Raised(env[0]), flags + env[0]);
        Logged(log, Raised(env[0]));
        flags := flags + env[0];
        log := log + [Raised(env[0])];
        env := env[1..];
      }
    }

    /** `if (cached_flags & F) handler();` where the handler clears F. */
    method WorkOn(f: Flag, cached: set<Flag>)
      requires Valid() && irqs
      modifies this`flags, this`env, this`log
      ensures Valid() && Now() == Worked(old(Now()), f, cached)
      ensures Handles(log) == old(Handles(log)) + if f in cached then [f] else []
      ensures Preparations(log) == old(Preparations(log)) && ExitWorks(log) == old(ExitWorks(log))
    {
      Interrupts();
      if f in cached {
        LogEvent(log, flags, Handled(f), flags - {f});
        Logged(log, Handled(f));
        flags := flags - {f};
        log := log + [Handled(f)];
      }
    }

    /** The loop body from local_irq_enable to local_irq_disable. */
    method WorkPass(cached: set<Flag>)
      requires Valid() && !irqs && cached == flags
      modifies this`flags, this`env, this`log, this`irqs
      ensures Valid() && !irqs && Now() == Passed(old(Now()))
      ensures Handles(log) == old(Handles(log))
                + (if NeedResched in cached then [NeedResched] else []) + (if Uprobe in cached then [Uprobe] else [])
                + (if PatchPending in cached then [PatchPending] else [])
                + (if SigPending in cached then [SigPending] else [])
                + (if NotifyResume in cached then [NotifyResume] else [])
                + (if UserReturnNotify in cached then [UserReturnNotify] else [])
      ensures Preparations(log) == old(Preparations(log)) && ExitWorks(log) == old(ExitWorks(log))
    {
      irqs := true;
      WorkOn(NeedResched, cached);
      WorkOn(Uprobe, cached);
      WorkOn(PatchPending, cached);
      WorkOn(SigPending, cached);
      WorkOn(NotifyResume, cached);
      WorkOn(UserReturnNotify, cached);
      Interrupts();
      irqs := false;
    }

    /** Leaves with interrupts off and no loop flag set. If the environment raises flags at most k times,
        the body runs at most k + 1 times. */
    method ExitToUsermodeLoop(cachedFlags: set<Flag>) returns (ghost passes: nat)
      requires Valid() && !irqs && cachedFlags == flags
      modifies this`flags, this`env, this`log, this`irqs
      ensures Valid() && !irqs && Now() == LoopEnd(old(Now())) && flags * LOOP_FLAGS == {}
      ensures flags !! {NeedResched, Uprobe, PatchPending, SigPending, NotifyResume, UserReturnNotify}
      ensures Arrives(old(Now()), Now()) && Raises(log) + env == old(Raises(log) + env)
      ensures 1 <= passes <= old(Pending(env)) + 1
      ensures Preparations(log) == old(Preparations(log)) && ExitWorks(log) == old(ExitWorks(log))
    {
      var cached := cachedFlags;
      passes := 0;
      ghost var start := Now();
      while true
        invariant Valid() && !irqs && cached == flags
        invariant LoopEnd(Now()) == LoopEnd(start)
        invariant passes + Pending(env) <= old(Pending(env))
        invariant Preparations(log) == old(Preparations(log)) && ExitWorks(log) == old(ExitWorks(log))
        decreases Pending(env)
      {
        passes := passes + 1;
        PassedPending(Now());
        WorkPass(cached);
        cached := flags;
        if cached * LOOP_FLAGS == {} {
          LoopEndArrives(start);
          NoLoopFlag(flags);
          return;
        }
      }
    }

    /** Called with interrupts off. */
    method PrepareExitToUsermode()
      requires Valid() && !irqs
      modifies this
      ensures Valid() && !irqs && Now() == Left(old(Now())) && flags * LOOP_FLAGS == {}
      ensures status == old(status) - {Compat, I386RegsPoked}
      ensures log != [] && log[|log| - 1] == Prepared(false)
      ensures Preparations(log) == old(Preparations(log)) + 1 && ExitWorks(log) == old(ExitWorks(log))
    {
      var cached := flags;
      if cached * LOOP_FLAGS != {} {
        ghost var passes := ExitToUsermodeLoop(cached);
      }
      status := status - {Compat, I386RegsPoked};
      Record(Prepared(irqs));
    }

    /** Called with interrupts on. The exit work of the system call is done once if it is asked for. */
    method SyscallReturnSlowpath()
      requires Valid() && irqs
      modifies this
      ensures Valid() && !irqs && Now() == Left(Moment(old(Now()))) && flags * LOOP_FLAGS == {}
      ensures status == old(status) - {Compat, I386RegsPoked}
      ensures log != [] && log[|log| - 1] == Prepared(false)
      ensures Preparations(log) == old(Preparations(log)) + 1
      ensures ExitWorks(log) == old(ExitWorks(log)) + if SyscallExitWork in old(flags) then 1 else 0
    {
      var cached := flags;
      if SyscallExitWork in cached {
        Record(ExitWork(irqs));
      }
      Interrupts();
      irqs := false;
      PrepareExitToUsermode();
    }

    /** Once no loop flag is set, each loop flag in an entry of the environment that was used up was handled after
        it was raised. */
    lemma EveryRaiseWasHandled(k: nat, f: Flag)
      requires Valid() && flags * LOOP_FLAGS == {} && k < |given| - |env| && f in given[k]
      requires f in {NeedResched, Uprobe, PatchPending, SigPending, NotifyResume, UserReturnNotify}
      ensures exists i, j :: 0 <= i < j < |log| && log[i] == Raised(given[k]) && Raises(log[..i]) == given[..k]
                             && log[j] == Handled(f)
    {
      assert Raises(log)[k] == given[k] && Raises(log)[..k] == given[..k];
      var i := RaisedWhere(log, k);
      assert f in flags <==> f in flags * LOOP_FLAGS;
      assert HandledAfter(log, i, f);
    }
  }
}
