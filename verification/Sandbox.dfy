/** What the sandbox of project 2 is for: a map from blocked (uid, system call) pairs to how often the
    pair was refused. Both tables under project 2/proj2/kernel are measured against it. */
module Sandbox {
  /** permList has one row for each of the system calls 0..436. */
  const CALLS: nat := 437

  /** One more than the largest unsigned long. */
  const ULONG: int := 0x1_0000_0000_0000_0000

  /** x + 1 on an unsigned long, which wraps round. */
  function Increment(x: nat): nat {
    if x + 1 == ULONG then 0 else x + 1
  }

  /** sbx421_block, sbx421_unblock and sbx421_count by `caller`, and findder for a system call. */
  datatype Request =
    | Block(caller: nat, proc: int, nr: nat)
    | Unblock(caller: nat, proc: int, nr: nat)
    | Count(caller: nat, proc: int, nr: nat)
    | Intercept(uid: nat, nr: nat)

  datatype Answer = Done | Duplicate | Missing | Denied | Invalid | Value(count: int) | Refused | Allowed

  /** A caller may change its own entries, and root everyone's. */
  predicate Authorised(caller: nat, proc: int) {
    caller == proc || caller == 0
  }

  /** The code indexes a row only with these arguments in range: there is no check of nr anywhere, and a
      negative proc from root gives a negative slot. */
  predicate Indexable(req: Request) {
    match req
    case Block(caller, proc, nr) => Authorised(caller, proc) ==> proc >= 0 && nr < CALLS
    case Unblock(caller, proc, nr) => Authorised(caller, proc) ==> proc >= 0 && nr < CALLS
    case Count(caller, proc, nr) => caller == 0 && proc > 0 ==> nr < CALLS
    case Intercept(_, nr) => nr < CALLS
  }

  type Blocked = map<(int, int), nat>

  /** The intended effect of a request. */
  function Intended(m: Blocked, req: Request): (Blocked, Answer) {
    match req
    case Block(caller, proc, nr) =>
      if !Authorised(caller, proc) then (m, Denied)
      else if (proc, nr) in m then (m, Duplicate)
      else (m[(proc, nr) := 0], Done)
    case Unblock(caller, proc, nr) =>
      if !Authorised(caller, proc) then (m, Denied)
      else if (proc, nr) in m then (m - {(proc, nr)}, Done)
      else (m, Missing)
    case Count(caller, proc, nr) =>
      if caller != 0 then (m, Denied)
      else if proc <= 0 then (m, Invalid)
      else if (proc, nr) in m then (m, Value(m[(proc, nr)]))
      else (m, Missing)
    case Intercept(uid, nr) =>
      if (uid, nr) in m then (m[(uid, nr) := Increment(m[(uid, nr)])], Refused) else (m, Allowed)
  }

  /** The map after a run of requests from the empty table. */
  function IntendedAfter(run: seq<Request>): Blocked {
    if run == [] then map[] else Intended(IntendedAfter(run[..|run| - 1]), run[|run| - 1]).0
  }

  ghost predicate AllIndexable(run: seq<Request>) {
    forall i :: 0 <= i < |run| ==> Indexable(run[i])
  }

  /** How often the pair was refused since it was last blocked by its own uid or root, or -1 if it is not blocked. */
  function Refusals(run: seq<Request>, proc: int, nr: nat): int {
    if run == [] then -1
    else
      var past := Refusals(run[..|run| - 1], proc, nr);
      match run[|run| - 1]
      case Block(caller, p, n) => if p == proc && n == nr && (caller == p || caller == 0) && past < 0 then 0 else past
      case Unblock(caller, p, n) => if p == proc && n == nr && (caller == p || caller == 0) then -1 else past
      case Count(_, _, _) => past
      case Intercept(uid, n) => if uid == proc && n == nr && past >= 0 then past + 1 else past
  }

  /** After every run the map has exactly the pairs that were blocked and not unblocked since, each with the number
      of its refusals since then in an unsigned long. */
  lemma {:induction false} IntendedExactly(run: seq<Request>, proc: int, nr: nat)
    ensures (proc, nr) in IntendedAfter(run) <==> Refusals(run, proc, nr) >= 0
    ensures (proc, nr) in IntendedAfter(run) ==>
              IntendedAfter(run)[(proc, nr)] == Refusals(run, proc, nr) % 0x1_0000_0000_0000_0000
  {
    if run == [] {
    } else {
      IntendedExactly(run[..|run| - 1], proc, nr);
    }
  }

  /** Unblocking right after a successful block restores the map. */
  lemma BlockThenUnblock(m: Blocked, caller: nat, proc: int, nr: nat)
    requires Intended(m, Block(caller, proc, nr)).1 == Done
    ensures Intended(Intended(m, Block(caller, proc, nr)).0, Unblock(caller, proc, nr)) == (m, Done)
  {
    assert m[(proc, nr) := 0] - {(proc, nr)} == m;
  }
}
