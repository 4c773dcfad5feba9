/** Threads in sbx421_block, sbx421_unblock and sbx421_count of project 2/proj2/kernel/proj2.c, one memory
    access at a time, around the mutex lockTable. The table is initialised before the threads start, since
    the code tests `started` outside the lock. */
module Interleaving {
  import opened Errno
  import opened Sandbox
  import opened DirectTable

  /** Where a thread stands. From Entered to Leaving it is between mutex_lock and mutex_unlock. */
  datatype Pc =
    | Idle
    | Called(req: Request)
    | AtLock(req: Request)
    | Entered(req: Request)
    | Tested(req: Request, hit: bool)
    | Bumping(req: Request, temp: nat)
    | SlotWritten(req: Request)
    | CallWritten(req: Request)
    | Leaving(req: Request, code: int)
    | Returned(req: Request, code: int, ticket: int)

  predicate Holding(pc: Pc) {
    pc.Entered? || pc.Tested? || pc.Bumping? || pc.SlotWritten? || pc.CallWritten? || pc.Leaving?
  }

  datatype Holder = Free | HeldBy(thread: nat)

  /** `order` lists the requests in the order in which they got the lock, `codes` their results. */
  datatype State = State(rows: seq<Row>, holder: Holder, threads: seq<Pc>, order: seq<Request>, codes: seq<int>)

  predicate Locks(req: Request) {
    match req
    case Block(caller, proc, _) => Authorised(caller, proc)
    case Unblock(caller, proc, _) => Authorised(caller, proc)
    case Count(caller, proc, _) => caller == 0 && proc > 0
    case Intercept(_, _) => false
  }

  /** The result of a request that returns before it takes the lock. */
  function EarlyCode(req: Request): int {
    if req.Count? && req.caller == 0 then -EINVAL else -EPERM
  }

  predicate Admissible(req: Request) {
    !req.Intercept? && Indexable(req)
  }

  ghost predicate GoodRows(rows: seq<Row>) {
    |rows| == CALLS && forall nr :: 0 <= nr < CALLS ==> GoodRow(rows[nr])
  }

  /** The test that each operation makes first inside the lock. */
  predicate Hit(rows: seq<Row>, req: Request)
    requires !req.Intercept? && Locks(req) && Indexable(req)
    requires req.nr < |rows| && GoodRow(rows[req.nr])
  {
    if req.Block? then rows[req.nr].call != UNUSED && rows[req.nr].hash[Slot(req.proc)] == req.proc
    else Matching(rows[req.nr], req.proc, req.nr)
  }

  /** One step of thread t; `next` is the request it makes when it is idle. A thread that waits for a held
      lock does not move. */
  function Micro(s: State, t: nat, next: Request): State
    requires t < |s.threads| && (Holding(s.threads[t]) ==> Lockable(s.threads[t].req))
    requires Holding(s.threads[t]) ==> s.threads[t].req.nr < |s.rows| && GoodRow(s.rows[s.threads[t].req.nr])
  {
    match s.threads[t]
    case Idle => s.(threads := s.threads[t := Called(next)])
    case Called(req) =>
      s.(threads := s.threads[t := if Locks(req) then AtLock(req) else Returned(req, EarlyCode(req), -1)])
    case AtLock(req) =>
      if s.holder.Free? then s.(holder := HeldBy(t), threads := s.threads[t := Entered(req)], order := s.order + [req])
      else s
    case Entered(req) => s.(threads := s.threads[t := Tested(req, Hit(s.rows, req))])
    case Tested(req, hit) =>
      var row := s.rows[req.nr];
      if req.Block? then
        if hit then s.(threads := s.threads[t := Bumping(req, row.call)])
        else s.(rows := s.rows[req.nr := row.(hash := row.hash[Slot(req.proc) := req.proc])],
                threads := s.threads[t := SlotWritten(req)])
      else if !hit then s.(threads := s.threads[t := Leaving(req, -EEXIST)])
      else if req.Unblock? then s.(rows := s.rows[req.nr := row.(call := UNUSED)], threads := s.threads[t := CallWritten(req)])
      else s.(threads := s.threads[t := Leaving(req, AsInt(row.count))])
    case Bumping(req, temp) =>
      s.(rows := s.rows[req.nr := s.rows[req.nr].(call := Increment(temp))],
         threads := s.threads[t := Leaving(req, -EEXIST)])
    case SlotWritten(req) =>
      s.(rows := s.rows[req.nr := s.rows[req.nr].(call := req.nr)], threads := s.threads[t := CallWritten(req)])
    case CallWritten(req) =>
      var row := s.rows[req.nr];
      var row' := if req.Block? then row.(count := 0) else row.(hash := row.hash[Slot(req.proc) := 0]);
      s.(rows := s.rows[req.nr := row'], threads := s.threads[t := Leaving(req, 0)])
    case Leaving(req, code) =>
      s.(holder := Free, threads := s.threads[t := Returned(req, code, |s.order| - 1)], codes := s.codes + [code])
    case Returned(_, _, _) => s.(threads := s.threads[t := Idle])
  }

  predicate Lockable(req: Request) {
    Admissible(req) && Locks(req)
  }

  // ---- The sequential reference ----

  /** The rows after a request performed alone, and its result. */
  function Alone(rows: seq<Row>, req: Request): (seq<Row>, int)
    requires GoodRows(rows) && Admissible(req)
  {
    var r := Step(AsWritten, Direct(true, rows), req);
    (r.0.rows, r.1)
  }

  ghost predicate AllLockable(order: seq<Request>) {
    forall i :: 0 <= i < |order| ==> Lockable(order[i])
  }

  ghost function Serial(rows: seq<Row>, order: seq<Request>): (r: (seq<Row>, seq<int>))
    requires GoodRows(rows) && AllLockable(order)
    ensures GoodRows(r.0) && |r.1| == |order|
  {
    if order == [] then (rows, [])
    else
      var before := Serial(rows, order[..|order| - 1]);
      var last := Alone(before.0, order[|order| - 1]);
      StepGood(AsWritten, Direct(true, before.0), order[|order| - 1]);
      (last.0, before.1 + [last.1])
  }

  /** What the rows look like while the request of pc runs on rows that were `base` when it got the lock. */
  ghost predicate Midway(base: seq<Row>, rows: seq<Row>, pc: Pc)
    requires GoodRows(base) && Holding(pc) && Lockable(pc.req)
  {
    var req := pc.req;
    var row := base[req.nr];
    match pc
    case Entered(_) => rows == base
    case Tested(_, hit) => rows == base && hit == Hit(base, req)
    case Bumping(_, temp) => rows == base && req.Block? && Hit(base, req) && temp == row.call
    case SlotWritten(_) =>
      req.Block? && !Hit(base, req) && rows == base[req.nr := row.(hash := row.hash[Slot(req.proc) := req.proc])]
    case CallWritten(_) =>
      if req.Block? then
        !Hit(base, req) && rows == base[req.nr := Row(req.nr, row.count, row.hash[Slot(req.proc) := req.proc])]
      else req.Unblock? && Hit(base, req) && rows == base[req.nr := row.(call := UNUSED)]
    case Leaving(_, code) => (rows, code) == Alone(base, req)
    case _ => false
  }

  /** The invariant: at most one thread is inside the lock, the finished requests have had exactly the
      effect of running one after the other in lock order, and the current one is midway. */
  ghost predicate Inv(start: seq<Row>, s: State)
    requires GoodRows(start)
  {
    && AllLockable(s.order)
    && GoodRows(s.rows)
    && (forall t :: 0 <= t < |s.threads| ==> (Holding(s.threads[t]) <==> s.holder == HeldBy(t)))
    && (forall t :: 0 <= t < |s.threads| && s.threads[t] != Idle ==> Admissible(s.threads[t].req))
    && (forall t :: 0 <= t < |s.threads| && (Holding(s.threads[t]) || s.threads[t].AtLock?) ==> Locks(s.threads[t].req))
    && (match s.holder
        case Free => (s.rows, s.codes) == Serial(start, s.order)
        case HeldBy(t) =>
          && t < |s.threads| && s.order != [] && Holding(s.threads[t]) && Lockable(s.threads[t].req)
          && s.order[|s.order| - 1] == s.threads[t].req
          && s.codes == Serial(start, s.order[..|s.order| - 1]).1
          && Midway(Serial(start, s.order[..|s.order| - 1]).0, s.rows, s.threads[t]))
    && (forall t :: 0 <= t < |s.threads| && s.threads[t].Returned? ==> Answered(s, s.threads[t]))
    && TicketsDistinct(s.threads)
  }

  /** The thread has returned from a request that had the lock. */
  predicate Served(pc: Pc) {
    pc.Returned? && Locks(pc.req)
  }

  /** No turn answers for two threads. */
  ghost predicate TicketsDistinct(threads: seq<Pc>) {
    forall t, u :: 0 <= t < u < |threads| && Served(threads[t]) && Served(threads[u]) ==>
      threads[t].ticket != threads[u].ticket
  }

  /** A returned thread has the result of its own turn, or the early result. */
  ghost predicate Answered(s: State, pc: Pc)
    requires pc.Returned?
  {
    if Locks(pc.req) then
      0 <= pc.ticket < |s.codes| && pc.ticket < |s.order| && s.order[pc.ticket] == pc.req && s.codes[pc.ticket] == pc.code
    else pc.ticket == -1 && pc.code == EarlyCode(pc.req)
  }

  // ---- Every step keeps the invariant ----

  /** A step of a thread outside the lock that touches nothing shared. */
  lemma OutsideMove(start: seq<Row>, s: State, t: nat, pc: Pc)
    requires GoodRows(start) && Inv(start, s) && t < |s.threads|
    requires !Holding(s.threads[t]) && !Holding(pc)
    requires pc != Idle ==> Admissible(pc.req)
    requires pc.AtLock? ==> Locks(pc.req)
    requires pc.Returned? ==> !Locks(pc.req) && Answered(s, pc)
    ensures Inv(start, s.(threads := s.threads[t := pc]))
  {
    var s' := s.(threads := s.threads[t := pc]);
    forall u | 0 <= u < |s'.threads| && s'.threads[u].Returned?
      ensures Answered(s', s'.threads[u])
    {
      assert u != t ==> Answered(s, s.threads[u]);
    }
  }

  lemma Acquire(start: seq<Row>, s: State, t: nat, req: Request)
    requires GoodRows(start) && Inv(start, s) && t < |s.threads|
    requires s.threads[t] == AtLock(req) && s.holder == Free
    ensures Inv(start, s.(holder := HeldBy(t), threads := s.threads[t := Entered(req)], order := s.order + [req]))
  {
    var s' := s.(holder := HeldBy(t), threads := s.threads[t := Entered(req)], order := s.order + [req]);
    assert s'.order[..|s'.order| - 1] == s.order;
    forall u | 0 <= u < |s'.threads| && s'.threads[u].Returned?
      ensures Answered(s', s'.threads[u])
    {
      assert Answered(s, s.threads[u]);
    }
  }

  /** One step inside the lock brings the rows from one stage of the request to the next. */
  lemma MidwayStep(base: seq<Row>, s: State, t: nat, next: Request)
    requires GoodRows(base) && GoodRows(s.rows) && t < |s.threads|
    requires Holding(s.threads[t]) && !s.threads[t].Leaving? && Lockable(s.threads[t].req)
    requires Midway(base, s.rows, s.threads[t])
    ensures var s' := Micro(s, t, next);
            && GoodRows(s'.rows) && Holding(s'.threads[t]) && s'.threads[t].req == s.threads[t].req
            && s' == s.(rows := s'.rows, threads := s.threads[t := s'.threads[t]])
            && Midway(base, s'.rows, s'.threads[t])
  {
    var req, s' := s.threads[t].req, Micro(s, t, next);
    assert GoodRow(base[req.nr]);
    assert base[req.nr := base[req.nr]] == base;
    if s'.threads[t].Leaving? {
      assert s'.rows == Alone(base, req).0;
    }
  }

  lemma InsideMove(start: seq<Row>, s: State, t: nat, next: Request)
    requires GoodRows(start) && Inv(start, s) && t < |s.threads|
    requires Holding(s.threads[t]) && !s.threads[t].Leaving?
    ensures Inv(start, Micro(s, t, next))
  {
    var base := Serial(start, s.order[..|s.order| - 1]).0;
    MidwayStep(base, s, t, next);
    var s' := Micro(s, t, next);
    forall u | 0 <= u < |s'.threads| && s'.threads[u].Returned?
      ensures Answered(s', s'.threads[u])
    {
      assert Answered(s, s.threads[u]);
    }
  }

  /** The results stay where they are when more are added. */
  lemma StillAnswered(s: State, s': State, pc: Pc)
    requires pc.Returned? && Answered(s, pc) && s.codes <= s'.codes && s.order <= s'.order
    ensures Answered(s', pc)
  {
  }

  lemma TurnEnds(start: seq<Row>, s: State, t: nat)
    requires GoodRows(start) && Inv(start, s) && t < |s.threads| && s.threads[t].Leaving?
    ensures s.holder == HeldBy(t) && |s.order| == |s.codes| + 1 && s.order[|s.codes|] == s.threads[t].req
    ensures (s.rows, s.codes + [s.threads[t].code]) == Serial(start, s.order)
  {
    var before, req := Serial(start, s.order[..|s.order| - 1]), s.threads[t].req;
    assert (s.rows, s.threads[t].code) == Alone(before.0, req);
    assert Serial(start, s.order) == (Alone(before.0, req).0, before.1 + [Alone(before.0, req).1]);
  }

  lemma Release(start: seq<Row>, s: State, t: nat, next: Request)
    requires GoodRows(start) && Inv(start, s) && t < |s.threads| && s.threads[t].Leaving?
    ensures Inv(start, Micro(s, t, next))
  {
    var s' := Micro(s, t, next);
    TurnEnds(start, s, t);
    assert forall u :: 0 <= u < |s.threads| && Served(s.threads[u]) ==> Answered(s, s.threads[u]);
    assert TicketsDistinct(s'.threads);
    forall u | 0 <= u < |s'.threads| && s'.threads[u].Returned?
      ensures Answered(s', s'.threads[u])
    {
      if u != t { StillAnswered(s, s', s.threads[u]); }
    }
  }

  lemma MicroKeepsInv(start: seq<Row>, s: State, t: nat, next: Request)
    requires GoodRows(start) && Inv(start, s) && t < |s.threads| && Admissible(next)
    ensures Holding(s.threads[t]) ==> Lockable(s.threads[t].req)
    ensures Inv(start, Micro(s, t, next))
    ensures |Micro(s, t, next).threads| == |s.threads|
  {
    match s.threads[t] {
      case Idle => OutsideMove(start, s, t, Called(next));
      case Called(req) =>
        OutsideMove(start, s, t, if Locks(req) then AtLock(req) else Returned(req, EarlyCode(req), -1));
      case AtLock(req) => if s.holder.Free? { Acquire(start, s, t, req); }
      case Returned(_, _, _) => OutsideMove(start, s, t, Idle);
      case Leaving(_, _) => Release(start, s, t, next);
      case _ => InsideMove(start, s, t, next);
    }
  }

  // ---- Every interleaving ----

  /** One entry of a schedule: which thread steps, and the request it makes if it is idle. */
  datatype Turn = Turn(thread: nat, next: Request)

  ghost predicate Playable(schedule: seq<Turn>, threads: nat) {
    forall i :: 0 <= i < |schedule| ==> schedule[i].thread < threads && Admissible(schedule[i].next)
  }

  function Begun(rows: seq<Row>, threads: nat): State {
    State(rows, Free, seq(threads, _ => Idle), [], [])
  }

  /** The state after a schedule. */
  ghost function Play(rows: seq<Row>, threads: nat, schedule: seq<Turn>): (s: State)
    requires GoodRows(rows) && Playable(schedule, threads)
    ensures Inv(rows, s) && |s.threads| == threads
  {
    if schedule == [] then Begun(rows, threads)
    else
      var front, last := schedule[..|schedule| - 1], schedule[|schedule| - 1];
      var s := Play(rows, threads, front);
      MicroKeepsInv(rows, s, last.thread, last.next);
      Micro(s, last.thread, last.next)
  }

  /** After every interleaving no two threads are inside the lock, a thread that returned does not hold it
      and has the result that its request gets, in a turn of its own, when all requests run one after the other
      in the order in which they got the lock, and when the lock is free the rows are those of that sequential
      run. */
  lemma InterleavingIsSerial(rows: seq<Row>, threads: nat, schedule: seq<Turn>)
    requires GoodRows(rows) && Playable(schedule, threads)
    ensures var s := Play(rows, threads, schedule);
            && AllLockable(s.order)
            && (forall t, u :: 0 <= t < u < threads ==> !(Holding(s.threads[t]) && Holding(s.threads[u])))
            && (s.holder == Free ==> s.rows == Serial(rows, s.order).0)
            && (forall t :: 0 <= t < threads && s.threads[t].Returned? ==> s.holder != HeldBy(t))
            && TicketsDistinct(s.threads)
            && (forall t :: 0 <= t < threads && s.threads[t].Returned? ==>
                  if Locks(s.threads[t].req)
                  then 0 <= s.threads[t].ticket < |s.order| && s.order[s.threads[t].ticket] == s.threads[t].req
                       && Serial(rows, s.order).1[s.threads[t].ticket] == s.threads[t].code
                  else s.threads[t].code == EarlyCode(s.threads[t].req))
  {
    var s := Play(rows, threads, schedule);
    CodesArePrefix(rows, s);
    forall t | 0 <= t < threads && s.threads[t].Returned?
      ensures if Locks(s.threads[t].req)
              then 0 <= s.threads[t].ticket < |s.order| && s.order[s.threads[t].ticket] == s.threads[t].req
                   && Serial(rows, s.order).1[s.threads[t].ticket] == s.threads[t].code
              else s.threads[t].code == EarlyCode(s.threads[t].req)
    {
      assert Answered(s, s.threads[t]);
    }
  }

  lemma CodesArePrefix(start: seq<Row>, s: State)
    requires GoodRows(start) && Inv(start, s)
    ensures |s.codes| <= |s.order| && forall i :: 0 <= i < |s.codes| ==> s.codes[i] == Serial(start, s.order).1[i]
  {
  }

  /** A request that returns without the lock returns the same when it runs alone, and changes nothing. */
  lemma EarlyIsAlone(rows: seq<Row>, req: Request)
    requires GoodRows(rows) && Admissible(req) && !Locks(req)
    ensures Alone(rows, req) == (rows, EarlyCode(req))
  {
  }

  // ---- Turns follow the order of real time ----

  /** One step only adds turns and results. */
  lemma MicroGrows(start: seq<Row>, s: State, t: nat, next: Request)
    requires GoodRows(start) && Inv(start, s) && t < |s.threads| && Admissible(next)
    ensures Holding(s.threads[t]) ==> Lockable(s.threads[t].req)
    ensures s.order <= Micro(s, t, next).order && s.codes <= Micro(s, t, next).codes
  {
  }

  /** Thread u has had no turn among the first n. */
  ghost predicate TurnNotBefore(s: State, u: nat, n: nat)
    requires u < |s.threads|
  {
    && n <= |s.order|
    && (Served(s.threads[u]) ==> s.threads[u].ticket >= n)
    && (Holding(s.threads[u]) ==> |s.order| > n)
  }

  /** State s comes after s0, and thread u, idle in s0, had no turn up to then. */
  ghost predicate Follows(s0: State, s: State, u: nat)
    requires u < |s.threads|
  {
    s0.order <= s.order && s0.codes <= s.codes && TurnNotBefore(s, u, |s0.order|)
  }

  lemma FollowsNext(start: seq<Row>, s0: State, s: State, t: nat, next: Request, u: nat)
    requires GoodRows(start) && Inv(start, s) && t < |s.threads| && Admissible(next)
    requires u < |s.threads| && Follows(s0, s, u)
    ensures Holding(s.threads[t]) ==> Lockable(s.threads[t].req)
    ensures u < |Micro(s, t, next).threads| && Follows(s0, Micro(s, t, next), u)
  {
    MicroGrows(start, s, t, next);
    MicroTurn(start, s, t, next);
  }

  /** A thread that has just been served leaves the lock in the latest turn, and one inside the lock was inside
      before or has just taken a new turn. */
  lemma MicroTurn(start: seq<Row>, s: State, t: nat, next: Request)
    requires GoodRows(start) && Inv(start, s) && t < |s.threads| && Admissible(next)
    ensures Holding(s.threads[t]) ==> Lockable(s.threads[t].req)
    ensures var s' := Micro(s, t, next);
            && |s'.threads| == |s.threads|
            && (forall u :: 0 <= u < |s.threads| && u != t ==> s'.threads[u] == s.threads[u])
            && (Served(s'.threads[t]) ==> Holding(s.threads[t]) && s'.threads[t].ticket == |s.order| - 1)
            && (Holding(s'.threads[t]) ==> Holding(s.threads[t]) || |s'.order| == |s.order| + 1)
  {
  }

  lemma PlayNext(rows: seq<Row>, threads: nat, schedule: seq<Turn>)
    requires GoodRows(rows) && Playable(schedule, threads) && schedule != []
    ensures var s, last := Play(rows, threads, schedule[..|schedule| - 1]), schedule[|schedule| - 1];
            && (Holding(s.threads[last.thread]) ==> Lockable(s.threads[last.thread].req))
            && Play(rows, threads, schedule) == Micro(s, last.thread, last.next)
  {
    MicroKeepsInv(rows, Play(rows, threads, schedule[..|schedule| - 1]), schedule[|schedule| - 1].thread,
                  schedule[|schedule| - 1].next);
  }

  lemma PlayMore(rows: seq<Row>, threads: nat, schedule: seq<Turn>, turn: Turn, s0: State, u: nat)
    requires GoodRows(rows) && Playable(schedule, threads) && u < threads
    requires turn.thread < threads && Admissible(turn.next) && Follows(s0, Play(rows, threads, schedule), u)
    ensures Playable(schedule + [turn], threads) && Follows(s0, Play(rows, threads, schedule + [turn]), u)
  {
    assert (schedule + [turn])[..|schedule|] == schedule;
    PlayNext(rows, threads, schedule + [turn]);
    FollowsNext(rows, s0, Play(rows, threads, schedule), turn.thread, turn.next, u);
  }

  lemma StartsFollowing(start: seq<Row>, s: State, u: nat)
    requires GoodRows(start) && Inv(start, s) && u < |s.threads| && s.threads[u].Idle?
    ensures Follows(s, s, u)
  {
  }

  lemma SplitLast<T>(a: seq<T>, b: seq<T>)
    requires b != []
    ensures a + b == (a + b[..|b| - 1]) + [b[|b| - 1]]
  {
  }

  lemma {:induction false} StillFollows(rows: seq<Row>, threads: nat, a: seq<Turn>, b: seq<Turn>, s0: State, u: nat)
    requires GoodRows(rows) && Playable(a, threads) && Playable(b, threads) && u < threads
    requires Follows(s0, Play(rows, threads, a), u)
    ensures Playable(a + b, threads) && Follows(s0, Play(rows, threads, a + b), u)
  {
    if b == [] {
      assert a + b == a;
    } else {
      StillFollows(rows, threads, a, b[..|b| - 1], s0, u);
      SplitLast(a, b);
      PlayMore(rows, threads, a + b[..|b| - 1], b[|b| - 1], s0, u);
    }
  }

  /** Turns and results are only added as a schedule goes on, and an idle thread gets later turns only. */
  lemma TurnsFollow(rows: seq<Row>, threads: nat, a: seq<Turn>, b: seq<Turn>, u: nat)
    requires GoodRows(rows) && Playable(a, threads) && Playable(b, threads) && u < threads
    requires Play(rows, threads, a).threads[u].Idle?
    ensures Playable(a + b, threads) && Follows(Play(rows, threads, a), Play(rows, threads, a + b), u)
  {
    StartsFollowing(rows, Play(rows, threads, a), u);
    StillFollows(rows, threads, a, b, Play(rows, threads, a), u);
  }

  /** A request that has returned comes before every request that is made afterwards: if thread t has been served
      when thread u is still idle, whatever u is served later gets a later turn. */
  lemma EarlierReturnsFirst(rows: seq<Row>, threads: nat, a: seq<Turn>, b: seq<Turn>, t: nat, u: nat)
    requires GoodRows(rows) && Playable(a, threads) && Playable(b, threads) && t < threads && u < threads
    ensures Playable(a + b, threads)
    ensures var early, late := Play(rows, threads, a), Play(rows, threads, a + b);
            Served(early.threads[t]) && early.threads[u].Idle? && Served(late.threads[u]) ==>
              early.threads[t].ticket < late.threads[u].ticket
  {
    var early := Play(rows, threads, a);
    if Served(early.threads[t]) && early.threads[u].Idle? {
      TurnsFollow(rows, threads, a, b, u);
      assert Answered(early, early.threads[t]);
    }
  }

  // ---- Nothing gets stuck ----

  /** How many steps of its own a thread still needs to return. */
  function Remaining(pc: Pc): nat {
    match pc
    case Idle => 0
    case Called(_) => 7
    case AtLock(_) => 6
    case Entered(_) => 5
    case Tested(_, _) => 4
    case SlotWritten(_) => 3
    case Bumping(_, _) => 2
    case CallWritten(_) => 2
    case Leaving(_, _) => 1
    case Returned(_, _, _) => 0
  }

  function Total(threads: seq<Pc>): nat {
    if threads == [] then 0 else Total(threads[..|threads| - 1]) + Remaining(threads[|threads| - 1])
  }

  lemma {:induction false} TotalUpdate(threads: seq<Pc>, t: nat, pc: Pc)
    requires t < |threads|
    ensures Total(threads[t := pc]) == Total(threads) - Remaining(threads[t]) + Remaining(pc)
  {
    var n := |threads| - 1;
    if t == n {
      assert threads[t := pc][..n] == threads[..n];
    } else {
      TotalUpdate(threads[..n], t, pc);
      assert threads[t := pc][..n] == threads[..n][t := pc];
    }
  }

  lemma {:induction false} TotalBound(threads: seq<Pc>)
    ensures Total(threads) <= 7 * |threads|
    ensures Total(threads) > 0 ==> exists t :: 0 <= t < |threads| && Remaining(threads[t]) > 0
  {
    if threads != [] {
      TotalBound(threads[..|threads| - 1]);
    }
  }

  /** A pending thread that does not wait for a held lock comes closer to its return with the request it made, and
      the other threads stay where they are. */
  lemma MicroProgress(start: seq<Row>, s: State, t: nat, next: Request)
    requires GoodRows(start) && Inv(start, s) && t < |s.threads| && Remaining(s.threads[t]) > 0
    requires s.threads[t].AtLock? ==> s.holder.Free?
    ensures Holding(s.threads[t]) ==> Lockable(s.threads[t].req)
    ensures var pc := Micro(s, t, next).threads[t];
            && Micro(s, t, next).threads == s.threads[t := pc]
            && Remaining(pc) < Remaining(s.threads[t]) && !pc.Idle? && pc.req == s.threads[t].req
  {
  }

  /** Every request that is under way in s has returned in s'; a thread without one is as it was. */
  ghost predicate Completes(s: State, s': State) {
    && |s.threads| == |s'.threads|
    && forall t :: 0 <= t < |s.threads| ==>
         if Remaining(s.threads[t]) == 0 then s'.threads[t] == s.threads[t]
         else s'.threads[t].Returned? && s'.threads[t].req == s.threads[t].req
  }

  /** A pending thread that can move: whoever is inside the lock, or any if nobody is. */
  lemma Runnable(start: seq<Row>, s: State) returns (t: nat)
    requires GoodRows(start) && Inv(start, s) && Total(s.threads) > 0
    ensures t < |s.threads| && Remaining(s.threads[t]) > 0 && (s.threads[t].AtLock? ==> s.holder.Free?)
  {
    if s.holder.HeldBy? {
      t := s.holder.thread;
    } else {
      TotalBound(s.threads);
      t :| t < |s.threads| && Remaining(s.threads[t]) > 0;
    }
  }

  /** From s to s' one thread has moved, and comes closer to its return. */
  ghost predicate Moved(s: State, s': State) {
    exists t :: 0 <= t < |s.threads| && |s'.threads| == |s.threads| && s'.threads == s.threads[t := s'.threads[t]]
                && Remaining(s'.threads[t]) < Remaining(s.threads[t]) && !s'.threads[t].Idle?
                && s'.threads[t].req == s.threads[t].req
  }

  lemma MovedTotal(s: State, s': State)
    requires Moved(s, s')
    ensures Total(s'.threads) < Total(s.threads)
  {
    var t :| 0 <= t < |s.threads| && |s'.threads| == |s.threads| && s'.threads == s.threads[t := s'.threads[t]]
             && Remaining(s'.threads[t]) < Remaining(s.threads[t]) && !s'.threads[t].Idle?
             && s'.threads[t].req == s.threads[t].req;
    TotalUpdate(s.threads, t, s'.threads[t]);
  }

  lemma MovedCompletes(s: State, s1: State, s2: State)
    requires Moved(s, s1) && Completes(s1, s2)
    ensures Completes(s, s2)
  {
  }

  lemma MoveOne(rows: seq<Row>, threads: nat, a: seq<Turn>) returns (turn: Turn)
    requires GoodRows(rows) && Playable(a, threads) && Total(Play(rows, threads, a).threads) > 0
    ensures Playable(a + [turn], threads) && Moved(Play(rows, threads, a), Play(rows, threads, a + [turn]))
  {
    var s := Play(rows, threads, a);
    var t := Runnable(rows, s);
    turn := Turn(t, s.threads[t].req);
    assert (a + [turn])[..|a|] == a;
    PlayNext(rows, threads, a + [turn]);
    MicroProgress(rows, s, t, turn.next);
  }

  lemma Regroup<T>(a: seq<T>, x: T, b: seq<T>)
    ensures a + ([x] + b) == a + [x] + b
  {
  }

  lemma {:induction false} Finish(rows: seq<Row>, threads: nat, a: seq<Turn>) returns (b: seq<Turn>)
    requires GoodRows(rows) && Playable(a, threads)
    ensures Playable(a + b, threads) && |b| <= Total(Play(rows, threads, a).threads)
    ensures Completes(Play(rows, threads, a), Play(rows, threads, a + b))
    decreases Total(Play(rows, threads, a).threads)
  {
    if Total(Play(rows, threads, a).threads) == 0 {
      b := [];
      assert a + b == a;
      NothingPending(Play(rows, threads, a).threads);
    } else {
      var turn := MoveOne(rows, threads, a);
      var s, s1 := Play(rows, threads, a), Play(rows, threads, a + [turn]);
      MovedTotal(s, s1);
      var rest := Finish(rows, threads, a + [turn]);
      MovedCompletes(s, s1, Play(rows, threads, a + [turn] + rest));
      b := [turn] + rest;
      Regroup(a, turn, rest);
    }
  }

  lemma {:induction false} NothingPending(threads: seq<Pc>)
    requires Total(threads) == 0
    ensures forall t :: 0 <= t < |threads| ==> Remaining(threads[t]) == 0
  {
    if threads != [] {
      NothingPending(threads[..|threads| - 1]);
    }
  }

  /** From every state that any interleaving reaches, at most seven steps for each thread let every request that is
      under way return: the lock never leaves threads waiting for each other. */
  lemma EveryRequestCanReturn(rows: seq<Row>, threads: nat, a: seq<Turn>)
    requires GoodRows(rows) && Playable(a, threads)
    ensures exists b: seq<Turn> :: |b| <= 7 * threads && Playable(a + b, threads)
                                   && Completes(Play(rows, threads, a), Play(rows, threads, a + b))
  {
    var b := Finish(rows, threads, a);
    TotalBound(Play(rows, threads, a).threads);
  }

  lemma MicroOutside(s: State, t: nat, next: Request)
    requires t < |s.threads| && (s.threads[t].Idle? || s.threads[t].Returned?)
    ensures Micro(s, t, next).threads == s.threads[t := if s.threads[t].Idle? then Called(next) else Idle]
  {
  }

  /** A thread outside every call makes its request or, having returned, becomes idle. */
  lemma PlayOne(rows: seq<Row>, threads: nat, a: seq<Turn>, u: nat, next: Request)
    requires GoodRows(rows) && Playable(a, threads) && u < threads && Admissible(next)
    requires Play(rows, threads, a).threads[u].Idle? || Play(rows, threads, a).threads[u].Returned?
    ensures Playable(a + [Turn(u, next)], threads)
    ensures Play(rows, threads, a + [Turn(u, next)]).threads[u]
         == if Play(rows, threads, a).threads[u].Idle? then Called(next) else Idle
  {
    assert (a + [Turn(u, next)])[..|a|] == a;
    PlayNext(rows, threads, a + [Turn(u, next)]);
    MicroOutside(Play(rows, threads, a), u, next);
  }

  /** Whenever an idle thread makes a request, it can return from it, within seven steps for each thread. */
  lemma MadeRequestCanReturn(rows: seq<Row>, threads: nat, a: seq<Turn>, u: nat, next: Request)
    returns (b: seq<Turn>)
    requires GoodRows(rows) && Playable(a, threads) && u < threads && Admissible(next)
    requires Play(rows, threads, a).threads[u].Idle?
    ensures |b| <= 7 * threads && Playable(a + [Turn(u, next)], threads) && Playable(a + [Turn(u, next)] + b, threads)
    ensures var pc := Play(rows, threads, a + [Turn(u, next)] + b).threads[u];
            pc.Returned? && pc.req == next
  {
    PlayOne(rows, threads, a, u, next);
    b := Finish(rows, threads, a + [Turn(u, next)]);
    TotalBound(Play(rows, threads, a + [Turn(u, next)]).threads);
  }
}
