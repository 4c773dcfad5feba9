/** What findder's answer says about the history of proj2.c's table, and the table as an object. */
module DirectHistory {
  import opened Errno
  import opened Sandbox
  import opened DirectTable

  /** The return code of request number k. */
  ghost function CodeAt(run: seq<Request>, k: nat): int
    requires AllIndexable(run) && k < |run|
  {
    Step(AsWritten, After(AsWritten, run[..k]), run[k]).1
  }

  /** The return codes of a run. */
  ghost function Codes(run: seq<Request>): (codes: seq<int>)
    requires AllIndexable(run)
    ensures |codes| == |run|
  {
    if run == [] then [] else Codes(run[..|run| - 1]) + [CodeAt(run, |run| - 1)]
  }

  lemma CodesNext(run: seq<Request>, k: nat)
    requires AllIndexable(run) && k < |run|
    ensures Codes(run[..k + 1]) == Codes(run[..k]) + [Step(AsWritten, After(AsWritten, run[..k]), run[k]).1]
  {
    assert run[..k + 1][..k] == run[..k];
  }

  /** Request number k is a block or unblock that succeeded on slot i of row nr. */
  ghost predicate WritesSlot(run: seq<Request>, k: nat, nr: nat, i: nat)
    requires AllIndexable(run) && k < |run|
  {
    && CodeAt(run, k) == 0
    && match run[k]
       case Block(_, proc, n) => n == nr && proc >= 0 && Slot(proc) == i
       case Unblock(_, proc, n) => n == nr && proc >= 0 && Slot(proc) == i
       case _ => false
  }

  /** Request number k is a block or unblock of call nr that succeeded, or a duplicate block of it. */
  ghost predicate TouchesRow(run: seq<Request>, k: nat, nr: nat)
    requires AllIndexable(run) && k < |run|
  {
    match run[k]
    case Block(_, _, n) => n == nr && CodeAt(run, k) in {0, -EEXIST}
    case Unblock(_, _, n) => n == nr && CodeAt(run, k) == 0
    case _ => false
  }

  /** The latest of the first n requests that wrote slot i of row nr, or -1. */
  ghost function LastWrite(run: seq<Request>, n: nat, nr: nat, i: nat): (k: int)
    requires AllIndexable(run) && n <= |run|
    ensures -1 <= k < n
    ensures k >= 0 ==> WritesSlot(run, k, nr, i)
  {
    if n == 0 then -1 else if WritesSlot(run, n - 1, nr, i) then n - 1 else LastWrite(run, n - 1, nr, i)
  }

  /** The latest of the first n requests that touched row nr, or -1. */
  ghost function LastTouch(run: seq<Request>, n: nat, nr: nat): (k: int)
    requires AllIndexable(run) && n <= |run|
    ensures -1 <= k < n
    ensures k >= 0 ==> TouchesRow(run, k, nr)
  {
    if n == 0 then -1 else if TouchesRow(run, n - 1, nr) then n - 1 else LastTouch(run, n - 1, nr)
  }

  lemma {:induction false} NoWriteSince(run: seq<Request>, n: nat, nr: nat, i: nat)
    requires AllIndexable(run) && n <= |run|
    ensures forall k :: LastWrite(run, n, nr, i) < k < n ==> !WritesSlot(run, k, nr, i)
  {
    if n > 0 && !WritesSlot(run, n - 1, nr, i) {
      NoWriteSince(run, n - 1, nr, i);
      var last := LastWrite(run, n - 1, nr, i);
      assert LastWrite(run, n, nr, i) == last;
    }
  }

  lemma {:induction false} NoTouchSince(run: seq<Request>, n: nat, nr: nat)
    requires AllIndexable(run) && n <= |run|
    ensures forall k :: LastTouch(run, n, nr) < k < n ==> !TouchesRow(run, k, nr)
  {
    if n == 0 || TouchesRow(run, n - 1, nr) {
    } else {
      NoTouchSince(run, n - 1, nr);
    }
  }

  /** The uid that the history leaves in slot i of row nr. */
  ghost function HistoryUid(run: seq<Request>, n: nat, nr: nat, i: nat): int
    requires AllIndexable(run) && n <= |run|
  {
    var k := LastWrite(run, n, nr, i);
    if k >= 0 && run[k].Block? then run[k].proc else 0
  }

  /** The latest request that touched row nr is a successful block. */
  ghost predicate RowLive(run: seq<Request>, n: nat, nr: nat)
    requires AllIndexable(run) && n <= |run|
  {
    var k := LastTouch(run, n, nr);
    k >= 0 && run[k].Block? && CodeAt(run, k) == 0
  }

  /** The `call` word of a row and its history: once started it stays between nr and the unused mark. */
  ghost predicate CallTracked(d: Direct, nr: nat, live: bool)
    requires Good(d) && nr < CALLS
  {
    if d.started then nr <= d.rows[nr].call <= UNUSED && (d.rows[nr].call == nr <==> live)
    else !live && d.rows[nr].call == 0 && forall i: nat :: i < SLOTS ==> d.rows[nr].hash[i] == 0
  }

  /** How a row follows from its history. */
  ghost predicate Tracked(run: seq<Request>, n: nat, nr: nat)
    requires AllIndexable(run) && n <= |run| && nr < CALLS
  {
    var d := After(AsWritten, run[..n]);
    && (forall i: nat :: i < SLOTS ==> d.rows[nr].hash[i] == HistoryUid(run, n, nr, i))
    && CallTracked(d, nr, RowLive(run, n, nr))
  }

  /** What one request leaves in slot i of row nr. */
  lemma SlotStep(d: Direct, req: Request, nr: nat, i: nat)
    requires Good(d) && Indexable(req) && nr < CALLS && i < SLOTS
    ensures var r := Step(AsWritten, d, req);
            Good(r.0) &&
            r.0.rows[nr].hash[i] ==
              match req
              case Block(_, proc, n) => if r.1 == 0 && n == nr && proc >= 0 && Slot(proc) == i then proc else d.rows[nr].hash[i]
              case Unblock(_, proc, n) => if r.1 == 0 && n == nr && proc >= 0 && Slot(proc) == i then 0 else d.rows[nr].hash[i]
              case _ => d.rows[nr].hash[i]
  {
  }

  lemma SlotNext(run: seq<Request>, n: nat, nr: nat, i: nat)
    requires AllIndexable(run) && n < |run| && nr < CALLS && i < SLOTS && Tracked(run, n, nr)
    ensures After(AsWritten, run[..n + 1]).rows[nr].hash[i] == HistoryUid(run, n + 1, nr, i)
  {
    var d := After(AsWritten, run[..n]);
    PrefixAfter(AsWritten, run, n);
    SlotStep(d, run[n], nr, i);
    assert d.rows[nr].hash[i] == HistoryUid(run, n, nr, i);
    var w := WritesSlot(run, n, nr, i);
  }

  lemma CallStep(d: Direct, req: Request, nr: nat, live: bool)
    requires Good(d) && Indexable(req) && nr < CALLS && CallTracked(d, nr, live)
    ensures var r := Step(AsWritten, d, req);
            var live' := match req
              case Block(_, _, n) => if n == nr && r.1 in {0, -EEXIST} then r.1 == 0 else live
              case Unblock(_, _, n) => if n == nr && r.1 == 0 then false else live
              case _ => live;
            Good(r.0) && CallTracked(r.0, nr, live')
  {
    match req {
      case Block(caller, proc, k) =>
        var b := Begin(d);
        if Authorised(caller, proc) && k == nr {
          assert b.rows[nr].call == (if d.started then d.rows[nr].call else UNUSED);
        }
      case Unblock(caller, proc, k) =>
      case Count(_, _, _) =>
      case Intercept(_, _) =>
    }
  }

  lemma CallNext(run: seq<Request>, n: nat, nr: nat)
    requires AllIndexable(run) && n < |run| && nr < CALLS && Tracked(run, n, nr)
    ensures CallTracked(After(AsWritten, run[..n + 1]), nr, RowLive(run, n + 1, nr))
  {
    PrefixAfter(AsWritten, run, n);
    CallStep(After(AsWritten, run[..n]), run[n], nr, RowLive(run, n, nr));
    var t := TouchesRow(run, n, nr);
  }

  lemma {:induction false} HistoryTracks(run: seq<Request>, n: nat, nr: nat)
    requires AllIndexable(run) && n <= |run| && nr < CALLS
    ensures Tracked(run, n, nr)
  {
    if n == 0 {
      assert run[..0] == [];
    } else {
      HistoryTracks(run, n - 1, nr);
      CallNext(run, n - 1, nr);
      forall i: nat | i < SLOTS
        ensures After(AsWritten, run[..n]).rows[nr].hash[i] == HistoryUid(run, n, nr, i)
      {
        SlotNext(run, n - 1, nr, i);
      }
    }
  }

  /** The latest successful block or unblock of the uid's slot was a block of that uid, and the latest request that
      touched its row was a successful block. */
  ghost predicate UserRefused(run: seq<Request>, uid: nat, nr: nat)
    requires AllIndexable(run) && uid > 0 && nr < CALLS
  {
    var k := LastWrite(run, |run|, nr, Slot(uid));
    k >= 0 && run[k].Block? && run[k].proc == uid && RowLive(run, |run|, nr)
  }

  /** After any run, findder refuses a non-root uid exactly when the latest successful block or unblock
      of its slot was a block of that uid and the latest request that touched its row was a successful
      block. */
  lemma RefusedExactly(run: seq<Request>, uid: nat, nr: nat)
    requires AllIndexable(run) && uid > 0 && nr < CALLS
    ensures Blocks(After(AsWritten, run), uid, nr)
       <==> UserRefused(run, uid, nr)
  {
    HistoryTracks(run, |run|, nr);
    assert run[..|run|] == run;
    var d, i := After(AsWritten, run), Slot(uid);
    assert d.rows[nr].hash[i] == HistoryUid(run, |run|, nr, i);
  }

  /** A refusal always goes back to a block of that very uid, issued by itself or by root. */
  lemma RefusalWasRequested(run: seq<Request>, uid: nat, nr: nat)
    requires AllIndexable(run) && uid > 0 && nr < CALLS && Blocks(After(AsWritten, run), uid, nr)
    ensures var k := LastWrite(run, |run|, nr, Slot(uid));
            && 0 <= k && run[k].Block? && run[k].proc == uid && run[k].nr == nr
            && (run[k].caller == uid || run[k].caller == 0)
            && forall j :: k < j < |run| ==> !WritesSlot(run, j, nr, Slot(uid))
  {
    RefusedExactly(run, uid, nr);
    NoWriteSince(run, |run|, nr, Slot(uid));
  }

  /** The rows refuse a non-root uid exactly when the history of the run says so. */
  ghost predicate FollowsHistory(rows: seq<Row>, run: seq<Request>, uid: nat, nr: nat)
    requires AllIndexable(run)
  {
    uid > 0 && nr < CALLS ==>
      nr < |rows| && GoodRow(rows[nr])
      && (Matching(rows[nr], uid, nr) <==>
            HistoryUid(run, |run|, nr, Slot(uid)) == uid && RowLive(run, |run|, nr))
  }

  lemma RunFollowsHistory(run: seq<Request>, uid: nat, nr: nat)
    requires AllIndexable(run)
    ensures FollowsHistory(After(AsWritten, run).rows, run, uid, nr)
  {
    if uid > 0 && nr < CALLS {
      RefusedExactly(run, uid, nr);
    }
  }

  ghost predicate AllFollow(rows: seq<Row>, run: seq<Request>)
    requires AllIndexable(run)
  {
    forall uid: nat, nr: nat :: FollowsHistory(rows, run, uid, nr)
  }

  lemma AllFollowHistory(run: seq<Request>)
    requires AllIndexable(run)
    ensures AllFollow(After(AsWritten, run).rows, run)
  {
    forall uid: nat, nr: nat
      ensures FollowsHistory(After(AsWritten, run).rows, run, uid, nr)
    {
      RunFollowsHistory(run, uid, nr);
    }
  }

  /** Some request of the run was a block, an unblock or a count. */
  ghost predicate Begun(run: seq<Request>) {
    exists k :: 0 <= k < |run| && !run[k].Intercept?
  }

  lemma {:induction false} StartedExactly(run: seq<Request>)
    requires AllIndexable(run)
    ensures After(AsWritten, run).started <==> Begun(run)
  {
    if run == [] {
    } else {
      var front := run[..|run| - 1];
      StartedExactly(front);
      if k :| 0 <= k < |run| && !run[k].Intercept? {
        assert k < |front| ==> !front[k].Intercept?;
      }
      if k :| 0 <= k < |front| && !front[k].Intercept? {
        assert !run[k].Intercept?;
      }
    }
  }

  /** The latest touch of the row was a successful block and slot 0 holds no user; before the first block, unblock
      or count, the call is number 0. */
  ghost predicate RootRefused(run: seq<Request>, nr: nat)
    requires AllIndexable(run) && nr < CALLS
  {
    if Begun(run) then RowLive(run, |run|, nr) && HistoryUid(run, |run|, nr, 0) == 0 else nr == 0
  }

  /** After any run, findder refuses root exactly when the latest touch of the row was a successful block and
      slot 0 holds no user; before the first block, unblock or count, exactly for call number 0. */
  lemma RootRefusedExactly(run: seq<Request>, nr: nat)
    requires AllIndexable(run) && nr < CALLS
    ensures Blocks(After(AsWritten, run), 0, nr)
       <==> RootRefused(run, nr)
  {
    HistoryTracks(run, |run|, nr);
    StartedExactly(run);
    assert run[..|run|] == run;
    var d := After(AsWritten, run);
    assert d.rows[nr].hash[0] == HistoryUid(run, |run|, nr, 0);
  }

  // ---- Every return code from the history ----

  /** The `call` word that the first n requests leave in row nr once the table is initialised: 999 is unused, a
      successful block writes nr, a duplicate one adds one, and a successful unblock writes 999. */
  ghost function CallWord(run: seq<Request>, n: nat, nr: nat): int
    requires AllIndexable(run) && n <= |run|
  {
    if n == 0 then 999
    else if !TouchesRow(run, n - 1, nr) then CallWord(run, n - 1, nr)
    else if run[n - 1].Unblock? then 999
    else if CodeAt(run, n - 1) == 0 then nr
    else CallWord(run, n - 1, nr) + 1
  }

  /** How often findder refused call nr since its row was last blocked or the table was initialised. */
  ghost function CountWord(run: seq<Request>, n: nat, nr: nat): nat
    requires AllIndexable(run) && n <= |run|
  {
    if n == 0 || !Begun(run[..n - 1]) then 0
    else match run[n - 1]
      case Block(_, _, k) => if k == nr && CodeAt(run, n - 1) == 0 then 0 else CountWord(run, n - 1, nr)
      case Intercept(_, k) => CountWord(run, n - 1, nr) + if k == nr && CodeAt(run, n - 1) == 1 then 1 else 0
      case _ => CountWord(run, n - 1, nr)
  }

  /** What one request does to the two words of row nr. */
  lemma WordsStep(d: Direct, req: Request, nr: nat)
    requires Good(d) && Indexable(req) && nr < CALLS
    ensures var r := Step(AsWritten, d, req);
            var call, count := if d.started then d.rows[nr].call else 999, if d.started then d.rows[nr].count else 0;
            && Good(r.0) && (r.0.started <==> d.started || !req.Intercept?)
            && match req
               case Block(_, _, n) =>
                 && r.0.rows[nr].call == (if n != nr || r.1 == -1 then call else if r.1 == 0 then nr else Increment(call))
                 && r.0.rows[nr].count == (if n == nr && r.1 == 0 then 0 else count)
                 && (n == nr && r.1 != -1 ==> r.1 == 0 || (r.1 == -17 && call != 999))
               case Unblock(_, _, n) =>
                 r.0.rows[nr].call == (if n == nr && r.1 == 0 then 999 else call) && r.0.rows[nr].count == count
               case Count(_, _, _) => r.0.rows[nr].call == call && r.0.rows[nr].count == count
               case Intercept(_, n) =>
                 && r.0.rows[nr].call == d.rows[nr].call
                 && r.0.rows[nr].count == (if n == nr && r.1 == 1 then Increment(d.rows[nr].count) else d.rows[nr].count)
  {
  }

  /** What the words of row nr are after the first n requests. */
  ghost predicate WordsFollow(run: seq<Request>, n: nat, nr: nat)
    requires AllIndexable(run) && n <= |run| && nr < CALLS
  {
    var d := After(AsWritten, run[..n]);
    && (d.started <==> Begun(run[..n])) && nr <= CallWord(run, n, nr) <= 999
    && if d.started then d.rows[nr].call == CallWord(run, n, nr) && d.rows[nr].count == CountWord(run, n, nr) % ULONG
       else CallWord(run, n, nr) == 999 && CountWord(run, n, nr) == 0
  }

  lemma CallWordNext(run: seq<Request>, n: nat, nr: nat)
    requires AllIndexable(run) && n < |run| && nr < CALLS && WordsFollow(run, n, nr)
    ensures var d := After(AsWritten, run[..n + 1]);
            && nr <= CallWord(run, n + 1, nr) <= 999
            && if d.started then d.rows[nr].call == CallWord(run, n + 1, nr) else CallWord(run, n + 1, nr) == 999
  {
    var d := After(AsWritten, run[..n]);
    PrefixAfter(AsWritten, run, n);
    WordsStep(d, run[n], nr);
    assert CodeAt(run, n) == Step(AsWritten, d, run[n]).1;
  }

  lemma IncrementRemainder(x: nat)
    ensures Increment(x % ULONG) == (x + 1) % ULONG
  {
  }

  lemma CountWordNext(run: seq<Request>, n: nat, nr: nat)
    requires AllIndexable(run) && n < |run| && nr < CALLS && WordsFollow(run, n, nr)
    ensures var d := After(AsWritten, run[..n + 1]);
            if d.started then d.rows[nr].count == CountWord(run, n + 1, nr) % ULONG else CountWord(run, n + 1, nr) == 0
  {
    var d := After(AsWritten, run[..n]);
    PrefixAfter(AsWritten, run, n);
    WordsStep(d, run[n], nr);
    assert CodeAt(run, n) == Step(AsWritten, d, run[n]).1;
    IncrementRemainder(CountWord(run, n, nr));
  }

  lemma {:induction false} HistoryWords(run: seq<Request>, n: nat, nr: nat)
    requires AllIndexable(run) && n <= |run| && nr < CALLS
    ensures WordsFollow(run, n, nr)
  {
    StartedExactly(run[..n]);
    if n > 0 {
      HistoryWords(run, n - 1, nr);
      CallWordNext(run, n - 1, nr);
      CountWordNext(run, n - 1, nr);
    }
  }

  /** The slot of proc in row nr holds it, and the row is in use for call nr. */
  ghost predicate Found(run: seq<Request>, n: nat, proc: nat, nr: nat)
    requires AllIndexable(run) && n <= |run|
  {
    CallWord(run, n, nr) == nr && HistoryUid(run, n, nr, proc % 32) == proc
  }

  /** What request number k returns, from what the requests before it returned. */
  ghost predicate CodeFollows(run: seq<Request>, k: nat)
    requires AllIndexable(run) && k < |run|
  {
    var code := CodeAt(run, k);
    match run[k]
    case Block(caller, proc, nr) =>
      code == if caller != proc && caller != 0 then -1
              else if CallWord(run, k, nr) != 999 && HistoryUid(run, k, nr, proc % 32) == proc then -17 else 0
    case Unblock(caller, proc, nr) =>
      code == if caller != proc && caller != 0 then -1 else if Found(run, k, proc, nr) then 0 else -17
    case Count(caller, proc, nr) =>
      if caller != 0 then code == -1 else if proc <= 0 then code == -22
      else if Found(run, k, proc, nr) then Counts(CountWord(run, k, nr) % 0x1_0000_0000_0000_0000, code) else code == -17
    case Intercept(uid, nr) =>
      code == if Begun(run[..k]) then (if Found(run, k, uid, nr) then 1 else 0) else if uid == 0 && nr == 0 then 1 else 0
  }

  lemma FoundExactly(run: seq<Request>, k: nat, proc: nat, nr: nat)
    requires AllIndexable(run) && k <= |run| && nr < CALLS
    ensures var d := After(AsWritten, run[..k]);
            && (d.started <==> Begun(run[..k])) && Begin(d).rows[nr].call == CallWord(run, k, nr)
            && Begin(d).rows[nr].hash[proc % 32] == d.rows[nr].hash[proc % 32] == HistoryUid(run, k, nr, proc % 32)
            && Begin(d).rows[nr].count == CountWord(run, k, nr) % 0x1_0000_0000_0000_0000
            && (!d.started ==> d.rows[nr].call == 0 && d.rows[nr].hash[proc % 32] == 0)
  {
    HistoryWords(run, k, nr);
    HistoryTracks(run, k, nr);
    var d := After(AsWritten, run[..k]);
    assert d.rows[nr].hash[proc % 32] == HistoryUid(run, k, nr, proc % 32);
  }

  /** Throughout every run the return codes are those that follow from the codes returned before. */
  lemma CodesByHistory(run: seq<Request>, k: nat)
    requires AllIndexable(run) && k < |run|
    ensures CodeFollows(run, k)
  {
    match run[k] {
      case Block(caller, proc, nr) => if Authorised(caller, proc) { FoundExactly(run, k, proc, nr); }
      case Unblock(caller, proc, nr) => if Authorised(caller, proc) { FoundExactly(run, k, proc, nr); }
      case Count(caller, proc, nr) =>
        if caller == 0 && proc > 0 {
          FoundExactly(run, k, proc, nr);
          AsIntExactly(CountWord(run, k, nr) % 0x1_0000_0000_0000_0000, CodeAt(run, k));
        }
      case Intercept(uid, nr) => FoundExactly(run, k, uid, nr);
    }
  }

  ghost predicate AllCodesFollow(run: seq<Request>, codes: seq<int>)
    requires AllIndexable(run)
  {
    |codes| == |run| && forall k :: 0 <= k < |run| ==> codes[k] == CodeAt(run, k) && CodeFollows(run, k)
  }

  lemma {:induction false} CodesListed(run: seq<Request>, k: nat)
    requires AllIndexable(run) && k < |run|
    ensures Codes(run)[k] == CodeAt(run, k)
  {
    var front := run[..|run| - 1];
    if k < |front| {
      CodesListed(front, k);
      assert front[..k] == run[..k];
    }
  }

  lemma CodesFollow(run: seq<Request>)
    requires AllIndexable(run)
    ensures AllCodesFollow(run, Codes(run))
  {
    forall k: nat | k < |run|
      ensures Codes(run)[k] == CodeAt(run, k) && CodeFollows(run, k)
    {
      CodesListed(run, k);
      CodesByHistory(run, k);
    }
  }

  // ---- Concrete runs on which the code as written goes wrong ----

  lemma TwoSteps(a: Request, b: Request)
    requires Indexable(a) && Indexable(b)
    ensures AllIndexable([a, b])
    ensures After(AsWritten, [a, b]) == Step(AsWritten, Step(AsWritten, Loaded(), a).0, b).0
    ensures IntendedAfter([a, b]) == Intended(Intended(map[], a).0, b).0
  {
    assert [a, b][..1] == [a];
    assert [a][..0] == [];
    assert After(AsWritten, [a]) == Step(AsWritten, Loaded(), a).0;
    assert IntendedAfter([a]) == Intended(map[], a).0;
  }

  /** Asking twice for the same block lifts it: line 57 adds one to `call`. */
  lemma SecondBlockLifts(uid: nat, nr: nat)
    requires uid > 0 && nr < CALLS
    ensures var run := [Block(uid, uid, nr), Block(uid, uid, nr)];
            AllIndexable(run) && (uid, nr) in IntendedAfter(run) && !Blocks(After(AsWritten, run), uid, nr)
  {
    TwoSteps(Block(uid, uid, nr), Block(uid, uid, nr));
  }

  /** A block of a uid in the same slot silently replaces the earlier one. */
  lemma CollisionEvicts(uid: nat, nr: nat)
    requires uid > 0 && nr < CALLS
    ensures var run := [Block(0, uid, nr), Block(0, uid + SLOTS, nr)];
            AllIndexable(run) && (uid, nr) in IntendedAfter(run) && !Blocks(After(AsWritten, run), uid, nr)
  {
    TwoSteps(Block(0, uid, nr), Block(0, uid + SLOTS, nr));
    assert Slot(uid + SLOTS) == Slot(uid);
  }

  /** Blocking any uid whose slot is not 0 refuses the call to root. */
  lemma BlockRefusesRoot(uid: nat, nr: nat)
    requires uid > 0 && Slot(uid) != 0 && nr < CALLS
    ensures var run := [Block(0, uid, nr), Count(0, uid, nr)];
            AllIndexable(run) && (0, nr) !in IntendedAfter(run) && Blocks(After(AsWritten, run), 0, nr)
  {
    TwoSteps(Block(0, uid, nr), Count(0, uid, nr));
  }

  // ---- The table and its lock as an object ----

  class SysTables {
    var started: bool
    const permList: array<Row>
    /** lockTable is held. */
    var locked: bool

    ghost predicate Valid()
      reads this, permList
    {
      permList.Length == CALLS && Good(State())
    }

    ghost function State(): Direct
      reads this, permList
    {
      Direct(started, permList[..])
    }

    constructor ()
      ensures Valid() && fresh(permList) && State() == Loaded() && !locked
    {
      started, locked := false, false;
      permList := new Row[CALLS](_ => Row(0, 0, seq(SLOTS, _ => 0)));
    }

    method InitalizeHash()
      requires Valid()
      modifies permList
      ensures Valid()
      ensures permList[..] == Begin(Direct(false, old(permList[..]))).rows
      ensures forall nr :: 0 <= nr < 437 ==> permList[nr] == Row(999, 0, old(permList[nr].hash))
    {
      var countm := 0;
      while countm <= 436
        invariant 0 <= countm <= CALLS
        invariant permList[..countm] == Begin(Direct(false, old(permList[..]))).rows[..countm]
        invariant permList[countm..] == old(permList[countm..])
      {
        permList[countm] := permList[countm].(call := UNUSED, count := 0);
        countm := countm + 1;
      }
    }

    /** The `started` test that opens block, unblock and count. */
    method Start()
      requires Valid()
      modifies this`started, permList
      ensures Valid() && State() == Begin(old(State()))
    {
      if !started {
        InitalizeHash();
        started := true;
      }
    }

    method Block(caller: nat, proc: int, nr: nat) returns (code: int)
      requires Valid() && !locked && Indexable(Request.Block(caller, proc, nr))
      modifies this, permList
      ensures Valid() && !locked
      ensures State() == Step(AsWritten, old(State()), Request.Block(caller, proc, nr)).0
      ensures code == Step(AsWritten, old(State()), Request.Block(caller, proc, nr)).1
    {
      Start();
      if caller == proc || caller == 0 {
        var index := proc % SLOTS;
        locked := true;
        if permList[nr].call != UNUSED && permList[nr].hash[index] == proc {
          permList[nr] := permList[nr].(call := Increment(permList[nr].call));
          locked := false;
          return -EEXIST;
        }
        permList[nr] := permList[nr].(hash := permList[nr].hash[index := proc]);
        permList[nr] := permList[nr].(call := nr);
        permList[nr] := permList[nr].(count := 0);
        locked := false;
      } else {
        return -EPERM;
      }
      return 0;
    }

    method Unblock(caller: nat, proc: int, nr: nat) returns (code: int)
      requires Valid() && !locked && Indexable(Request.Unblock(caller, proc, nr))
      modifies this, permList
      ensures Valid() && !locked
      ensures State() == Step(AsWritten, old(State()), Request.Unblock(caller, proc, nr)).0
      ensures code == Step(AsWritten, old(State()), Request.Unblock(caller, proc, nr)).1
    {
      Start();
      if caller == proc || caller == 0 {
        var index := proc % SLOTS;
        locked := true;
        if permList[nr].call == nr && permList[nr].hash[index] == proc {
          permList[nr] := permList[nr].(call := UNUSED);
          permList[nr] := permList[nr].(hash := permList[nr].hash[index := 0]);
          locked := false;
          return 0;
        }
        locked := false;
      } else {
        return -EPERM;
      }
      return -EEXIST;
    }

    method Count(caller: nat, proc: int, nr: nat) returns (code: int)
      requires Valid() && !locked && Indexable(Request.Count(caller, proc, nr))
      modifies this, permList
      ensures Valid() && !locked
      ensures State() == Step(AsWritten, old(State()), Request.Count(caller, proc, nr)).0
      ensures code == Step(AsWritten, old(State()), Request.Count(caller, proc, nr)).1
      ensures old(started) && caller == 0 && proc > 0 && Blocks(old(State()), proc, nr) ==>
                Counts(old(permList[nr].count), code)
    {
      Start();
      if caller == 0 {
        if proc != 0 && proc > 0 {
          var index := proc % SLOTS;
          locked := true;
          if permList[nr].call == nr && permList[nr].hash[index] == proc {
            var temp := AsInt(permList[nr].count);
            AsIntExactly(permList[nr].count, temp);
            locked := false;
            return temp;
          }
          locked := false;
          return -EEXIST;
        } else {
          return -EINVAL;
        }
      } else {
        return -EPERM;
      }
    }

    /** Neither initialises the table nor takes the lock. */
    method Findder(uid: nat, nr: nat) returns (answer: int)
      requires Valid() && nr < CALLS
      modifies permList
      ensures Valid()
      ensures State() == Step(AsWritten, old(State()), Intercept(uid, nr)).0
      ensures answer == if Blocks(old(State()), uid, nr) then 1 else 0
    {
      var index := uid % SLOTS;
      if permList[nr].call == nr && permList[nr].hash[index] == uid {
        permList[nr] := permList[nr].(count := Increment(permList[nr].count));
        return 1;
      }
      return 0;
    }

    method Act(req: Request) returns (code: int)
      requires Valid() && !locked && Indexable(req)
      modifies this, permList
      ensures Valid() && !locked
      ensures (State(), code) == Step(AsWritten, old(State()), req)
    {
      match req {
        case Block(caller, proc, nr) => code := Block(caller, proc, nr);
        case Unblock(caller, proc, nr) => code := Unblock(caller, proc, nr);
        case Count(caller, proc, nr) => code := Count(caller, proc, nr);
        case Intercept(uid, nr) => code := Findder(uid, nr);
      }
    }

    /** Any run on the freshly loaded table: every call returns what the model says, and afterwards the slots and
        call words refuse exactly the uids that the history of the run says. */
    method Run(run: seq<Request>) returns (codes: seq<int>)
      requires Valid() && !locked && State() == Loaded() && AllIndexable(run)
      modifies this, permList
      ensures Valid() && !locked && State() == After(AsWritten, run)
      ensures codes == Codes(run) && AllCodesFollow(run, codes)
      ensures AllFollow(permList[..], run)
    {
      codes := [];
      assert run[..0] == [];
      for k := 0 to |run|
        invariant Valid() && !locked && State() == After(AsWritten, run[..k])
        invariant codes == Codes(run[..k])
      {
        PrefixAfter(AsWritten, run, k);
        CodesNext(run, k);
        var code := Act(run[k]);
        codes := codes + [code];
      }
      assert run[..|run|] == run;
      AllFollowHistory(run);
      CodesFollow(run);
    }
  }
}
