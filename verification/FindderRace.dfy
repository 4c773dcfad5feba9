/** findder of project 2/proj2/kernel/proj2.c takes no lock: any number of other requests, other calls of
    findder among them, may finish between its load of the count and its store. When does that look as if
    findder had run in one piece? */
module FindderRace {
  import opened Sandbox
  import opened DirectTable
  import opened Interleaving

  // ---- Requests one after the other on an initialised table ----

  /** A request in one piece: the rows and its result. */
  function One(rows: seq<Row>, req: Request): (seq<Row>, int)
    requires GoodRows(rows) && Indexable(req)
  {
    var r := Step(AsWritten, Direct(true, rows), req);
    (r.0.rows, r.1)
  }

  /** Requests of any kind one after the other: the rows and the results. */
  ghost function Outcome(rows: seq<Row>, order: seq<Request>): (r: (seq<Row>, seq<int>))
    requires GoodRows(rows) && AllIndexable(order)
    ensures GoodRows(r.0) && |r.1| == |order|
  {
    if order == [] then (rows, [])
    else
      var before := Outcome(rows, order[..|order| - 1]);
      var last := One(before.0, order[|order| - 1]);
      StepGood(AsWritten, Direct(true, before.0), order[|order| - 1]);
      (last.0, before.1 + [last.1])
  }

  /** On requests that take the lock this is the sequential run that every interleaving amounts to. */
  lemma {:induction false} OutcomeIsSerial(rows: seq<Row>, order: seq<Request>)
    requires GoodRows(rows) && AllLockable(order)
    ensures AllIndexable(order) && Outcome(rows, order) == Serial(rows, order)
  {
    if order == [] {
    } else {
      OutcomeIsSerial(rows, order[..|order| - 1]);
    }
  }

  // ---- findder torn apart, and findder in one piece ----

  function Counted(rows: seq<Row>, nr: nat, count: nat): seq<Row>
    requires nr < |rows|
  {
    rows[nr := rows[nr].(count := count)]
  }

  /** findder finds the pair and loads the count, `order` runs, and findder stores: the rows, the results of
      `order`, and findder's answer. */
  ghost function Torn(rows: seq<Row>, order: seq<Request>, uid: nat, nr: nat): (seq<Row>, seq<int>, int)
    requires GoodRows(rows) && AllIndexable(order) && nr < CALLS
  {
    var others := Outcome(rows, order);
    (Counted(others.0, nr, Increment(rows[nr].count)), others.1, 1)
  }

  /** findder in one piece: the rows and its answer. */
  function Whole(rows: seq<Row>, uid: nat, nr: nat): (seq<Row>, int)
    requires nr < |rows| && GoodRow(rows[nr])
  {
    if Matching(rows[nr], uid, nr) then (Counted(rows, nr, Increment(rows[nr].count)), 1) else (rows, 0)
  }

  /** That is the step of the table's model. */
  lemma WholeIsStep(rows: seq<Row>, uid: nat, nr: nat)
    requires GoodRows(rows) && nr < CALLS
    ensures Step(AsWritten, Direct(true, rows), Intercept(uid, nr))
         == (Direct(true, Whole(rows, uid, nr).0), Whole(rows, uid, nr).1)
  {
  }

  /** findder in one piece between the requests `a` and the requests `b`. */
  ghost function Placed(rows: seq<Row>, a: seq<Request>, b: seq<Request>, uid: nat, nr: nat)
    : (seq<Row>, seq<int>, int)
    requires GoodRows(rows) && AllIndexable(a) && AllIndexable(b) && nr < CALLS
  {
    var before := Outcome(rows, a);
    var findder := Whole(before.0, uid, nr);
    var behind := Outcome(findder.0, b);
    (behind.0, before.1 + behind.1, findder.1)
  }

  // ---- What the requests do to the count of a row ----

  /** The request is a block of call nr that succeeds, which sets the count back to 0. */
  predicate Resets(rows: seq<Row>, req: Request, nr: nat)
    requires GoodRows(rows) && Indexable(req)
  {
    req.Block? && req.nr == nr && One(rows, req).1 == 0
  }

  /** The request is a call of findder that refuses call nr, which counts. */
  predicate Refuses(rows: seq<Row>, req: Request, nr: nat)
    requires GoodRows(rows) && Indexable(req)
  {
    req.Intercept? && req.nr == nr && One(rows, req).1 == 1
  }

  /** The position of the last request of `order` that resets row nr, or -1. */
  ghost function LastReset(rows: seq<Row>, order: seq<Request>, nr: nat): (r: int)
    requires GoodRows(rows) && AllIndexable(order)
    ensures -1 <= r < |order|
  {
    if order == [] then -1
    else
      var front, n := order[..|order| - 1], |order| - 1;
      if Resets(Outcome(rows, front).0, order[n], nr) then n else LastReset(rows, front, nr)
  }

  /** How often `order` refuses call nr after that, in an unsigned long. */
  ghost function Tally(rows: seq<Row>, order: seq<Request>, nr: nat): (t: nat)
    requires GoodRows(rows) && AllIndexable(order)
    ensures t < ULONG
  {
    if order == [] then 0
    else
      var front, req := order[..|order| - 1], order[|order| - 1];
      var now := Outcome(rows, front).0;
      if Resets(now, req, nr) then 0
      else if Refuses(now, req, nr) then Increment(Tally(rows, front, nr))
      else Tally(rows, front, nr)
  }

  /** a + b in an unsigned long. */
  function Plus(a: nat, b: nat): nat
    requires a < ULONG && b < ULONG
  {
    if a + b >= ULONG then a + b - ULONG else a + b
  }

  // ---- Runs in two parts ----

  lemma OneMore(rows: seq<Row>, order: seq<Request>, req: Request, nr: nat)
    requires GoodRows(rows) && AllIndexable(order) && Indexable(req)
    ensures AllIndexable(order + [req])
    ensures var before := Outcome(rows, order);
            var last := One(before.0, req);
            && Outcome(rows, order + [req]).0 == last.0 && Outcome(rows, order + [req]).1 == before.1 + [last.1]
            && LastReset(rows, order + [req], nr) ==
                 (if Resets(before.0, req, nr) then |order| else LastReset(rows, order, nr))
            && Tally(rows, order + [req], nr) ==
                 (if Resets(before.0, req, nr) then 0
                  else if Refuses(before.0, req, nr) then Increment(Tally(rows, order, nr))
                  else Tally(rows, order, nr))
  {
    assert (order + [req])[..|order|] == order;
  }

  lemma {:induction false} OutcomeSplit(rows: seq<Row>, a: seq<Request>, b: seq<Request>, nr: nat)
    requires GoodRows(rows) && AllIndexable(a) && AllIndexable(b)
    ensures AllIndexable(a + b)
    ensures var first := Outcome(rows, a);
            var second := Outcome(first.0, b);
            Outcome(rows, a + b).0 == second.0 && Outcome(rows, a + b).1 == first.1 + second.1
    ensures var now := Outcome(rows, a).0;
            var second := LastReset(now, b, nr);
            && LastReset(rows, a + b, nr) == (if second >= 0 then |a| + second else LastReset(rows, a, nr))
            && Tally(rows, a + b, nr) ==
                 (if second >= 0 then Tally(now, b, nr) else Plus(Tally(rows, a, nr), Tally(now, b, nr)))
  {
    if b == [] {
      assert a + b == a;
      assert Outcome(rows, a).1 + [] == Outcome(rows, a).1;
    } else {
      var front, req := b[..|b| - 1], b[|b| - 1];
      assert b == front + [req];
      Associates(a, front, [req]);
      var first := Outcome(rows, a);
      var middle := Outcome(first.0, front);
      OutcomeSplit(rows, a, front, nr);
      OneMore(rows, a + front, req, nr);
      OneMore(first.0, front, req, nr);
      Associates(first.1, middle.1, [One(middle.0, req).1]);
    }
  }

  lemma Associates<T>(a: seq<T>, b: seq<T>, c: seq<T>)
    ensures (a + b) + c == a + (b + c)
  {
  }

  lemma PlacedSplit(rows: seq<Row>, a: seq<Request>, b: seq<Request>, c: seq<Request>, uid: nat, nr: nat)
    requires GoodRows(rows) && AllIndexable(a) && AllIndexable(b) && AllIndexable(c) && nr < CALLS
    ensures AllIndexable(a + b)
    ensures var first := Outcome(rows, a);
            var p, q := Placed(first.0, b, c, uid, nr), Placed(rows, a + b, c, uid, nr);
            q.0 == p.0 && q.1 == first.1 + p.1 && q.2 == p.2
  {
    OutcomeSplit(rows, a, b, nr);
    var first, both := Outcome(rows, a), Outcome(rows, a + b);
    var middle := Outcome(first.0, b);
    assert both.0 == middle.0;
    var last := Outcome(Whole(middle.0, uid, nr).0, c);
    Associates(first.1, middle.1, last.1);
  }

  // ---- One request on rows that differ in one count ----

  /** How the rows after a request depend on the count of row nr. */
  ghost predicate Recounted(rows: seq<Row>, req: Request, nr: nat, count: nat)
    requires GoodRows(rows) && Indexable(req) && nr < CALLS
  {
    var plain, other := One(rows, req), One(Counted(rows, nr, count), req);
    && |plain.0| == CALLS
    && (Resets(rows, req, nr) ==> other.0 == plain.0 && plain.0[nr].count == 0)
    && (Refuses(rows, req, nr) ==>
          other.0 == Counted(plain.0, nr, Increment(count)) && plain.0[nr].count == Increment(rows[nr].count))
    && (!Resets(rows, req, nr) && !Refuses(rows, req, nr) ==>
          other.0 == Counted(plain.0, nr, count) && plain.0[nr].count == rows[nr].count)
    && (rows[nr].call != nr ==> other.1 == plain.1)
  }

  lemma RecountedHere(rows: seq<Row>, req: Request, nr: nat, count: nat)
    requires GoodRows(rows) && Indexable(req) && nr < CALLS && req.nr == nr
    ensures Recounted(rows, req, nr, count)
  {
    var plain, other := One(rows, req), One(Counted(rows, nr, count), req);
    StepGood(AsWritten, Direct(true, rows), req);
    assert Counted(rows, nr, count)[nr := other.0[nr]] == rows[nr := other.0[nr]];
    assert forall i :: 0 <= i < CALLS && i != nr ==> plain.0[i] == rows[i] == other.0[i];
  }

  lemma RecountedElsewhere(rows: seq<Row>, req: Request, nr: nat, count: nat)
    requires GoodRows(rows) && Indexable(req) && nr < CALLS && req.nr != nr
    ensures Recounted(rows, req, nr, count)
  {
    var plain, other := One(rows, req), One(Counted(rows, nr, count), req);
    StepGood(AsWritten, Direct(true, rows), req);
    assert plain.0[nr] == rows[nr] && other.0[nr] == Counted(rows, nr, count)[nr];
    assert forall i :: 0 <= i < CALLS && i != nr ==> plain.0[i] == other.0[i];
  }

  /** A request and the count of a row: a reset forgets it, a refusal adds one, anything else leaves it. */
  lemma OneOfRecount(rows: seq<Row>, req: Request, nr: nat, count: nat)
    requires GoodRows(rows) && Indexable(req) && nr < CALLS
    ensures Resets(Counted(rows, nr, count), req, nr) == Resets(rows, req, nr)
    ensures Refuses(Counted(rows, nr, count), req, nr) == Refuses(rows, req, nr)
    ensures Recounted(rows, req, nr, count)
  {
    if req.nr == nr { RecountedHere(rows, req, nr, count); } else { RecountedElsewhere(rows, req, nr, count); }
  }

  /** The rows agree in everything but the count. */
  predicate Same(row: Row, other: Row) {
    row.call == other.call && row.hash == other.hash
  }

  lemma ResetChanges(rows: seq<Row>, req: Request, nr: nat)
    requires GoodRows(rows) && Indexable(req) && nr < CALLS && Resets(rows, req, nr)
    ensures |One(rows, req).0| == CALLS && One(rows, req).0[nr].call == nr && !Same(One(rows, req).0[nr], rows[nr])
  {
  }

  /** From a row in use, a request that does not reset it leaves it alone or puts it out of use, and then
      findder refuses nothing. */
  lemma OneWithoutReset(rows: seq<Row>, req: Request, nr: nat)
    requires GoodRows(rows) && Indexable(req) && nr < CALLS && !Resets(rows, req, nr)
    requires nr <= rows[nr].call <= UNUSED
    ensures |One(rows, req).0| == CALLS
    ensures var row := One(rows, req).0[nr];
            if rows[nr].call == nr then Same(row, rows[nr]) || nr < row.call <= UNUSED
            else nr < row.call <= UNUSED && !Refuses(rows, req, nr)
  {
  }

  /** A request that changes the row neither counts nor reports its count. */
  lemma ChangedCode(rows: seq<Row>, req: Request, nr: nat, count: nat)
    requires GoodRows(rows) && Indexable(req) && nr < CALLS
    requires |One(rows, req).0| == CALLS && !Same(One(rows, req).0[nr], rows[nr])
    ensures One(Counted(rows, nr, count), req).1 == One(rows, req).1 && !Refuses(rows, req, nr)
  {
  }

  lemma IncrementPlus(a: nat, b: nat)
    requires a < ULONG && b < ULONG
    ensures Increment(Plus(a, b)) == Plus(a, Increment(b)) == Plus(Increment(a), b)
  {
  }

  // ---- Runs on rows that differ in one count ----

  /** The count that the row would have had it started with `count`. */
  ghost function CountAfter(rows: seq<Row>, order: seq<Request>, nr: nat, count: nat): nat
    requires GoodRows(rows) && AllIndexable(order) && count < ULONG
  {
    Plus(if LastReset(rows, order, nr) >= 0 then 0 else count, Tally(rows, order, nr))
  }

  /** The start count is forgotten at the first reset and otherwise travels along under the refusals. */
  lemma {:induction false} OutcomeOfRecount(rows: seq<Row>, order: seq<Request>, nr: nat, count: nat)
    requires GoodRows(rows) && AllIndexable(order) && nr < CALLS && rows[nr].count < ULONG && count < ULONG
    ensures LastReset(Counted(rows, nr, count), order, nr) == LastReset(rows, order, nr)
    ensures Tally(Counted(rows, nr, count), order, nr) == Tally(rows, order, nr)
    ensures Outcome(rows, order).0[nr].count == CountAfter(rows, order, nr, rows[nr].count)
    ensures Outcome(Counted(rows, nr, count), order).0
         == Counted(Outcome(rows, order).0, nr, CountAfter(rows, order, nr, count))
  {
    if order == [] {
    } else {
      var front, req := order[..|order| - 1], order[|order| - 1];
      var now := Outcome(rows, front).0;
      OutcomeOfRecount(rows, front, nr, count);
      OneOfRecount(now, req, nr, CountAfter(rows, front, nr, count));
      var start := if LastReset(rows, front, nr) >= 0 then 0 else count;
      var own := if LastReset(rows, front, nr) >= 0 then 0 else rows[nr].count;
      IncrementPlus(start, Tally(rows, front, nr));
      IncrementPlus(own, Tally(rows, front, nr));
    }
  }

  /** While the row is out of use nobody sees or raises its count, and then it is reset or stays out of use. */
  lemma {:induction false} UnusedCodes(rows: seq<Row>, order: seq<Request>, nr: nat, count: nat)
    requires GoodRows(rows) && AllIndexable(order) && nr < CALLS && nr < rows[nr].call <= UNUSED
    requires rows[nr].count < ULONG && count < ULONG
    ensures Outcome(Counted(rows, nr, count), order).1 == Outcome(rows, order).1
    ensures LastReset(rows, order, nr) < 0 ==>
              Tally(rows, order, nr) == 0 && nr < Outcome(rows, order).0[nr].call <= UNUSED
  {
    if order == [] {
    } else {
      var front, req := order[..|order| - 1], order[|order| - 1];
      var now := Outcome(rows, front).0;
      UnusedCodes(rows, front, nr, count);
      OutcomeOfRecount(rows, front, nr, count);
      OneOfRecount(now, req, nr, CountAfter(rows, front, nr, count));
      if LastReset(rows, front, nr) < 0 {
        if !Resets(now, req, nr) { OneWithoutReset(now, req, nr); }
      } else {
        assert Counted(now, nr, now[nr].count) == now;
      }
    }
  }

  /** Behind a reset the `call` word lies between the call's number and the unused mark. */
  lemma {:induction false} UsedBehindReset(rows: seq<Row>, order: seq<Request>, nr: nat)
    requires GoodRows(rows) && AllIndexable(order) && nr < CALLS && LastReset(rows, order, nr) >= 0
    ensures nr <= Outcome(rows, order).0[nr].call <= UNUSED
  {
    var front, req := order[..|order| - 1], order[|order| - 1];
    var now := Outcome(rows, front).0;
    if Resets(now, req, nr) {
      ResetChanges(now, req, nr);
    } else {
      UsedBehindReset(rows, front, nr);
      OneWithoutReset(now, req, nr);
    }
  }

  /** The pair is blocked right after the last reset of its row. */
  ghost predicate BlockedAtReset(rows: seq<Row>, order: seq<Request>, uid: nat, nr: nat)
    requires GoodRows(rows) && AllIndexable(order) && nr < CALLS
  {
    order != [] &&
    var front, n := order[..|order| - 1], |order| - 1;
    if Resets(Outcome(rows, front).0, order[n], nr) then Matching(Outcome(rows, order).0[nr], uid, nr)
    else BlockedAtReset(rows, front, uid, nr)
  }

  /** If the pair is blocked behind the last reset, it was blocked right after that reset. */
  lemma {:induction false} MatchedAtReset(rows: seq<Row>, order: seq<Request>, uid: nat, nr: nat)
    requires GoodRows(rows) && AllIndexable(order) && nr < CALLS && LastReset(rows, order, nr) >= 0
    requires Matching(Outcome(rows, order).0[nr], uid, nr)
    ensures BlockedAtReset(rows, order, uid, nr)
  {
    var front, req := order[..|order| - 1], order[|order| - 1];
    var now := Outcome(rows, front).0;
    if Resets(now, req, nr) {
    } else {
      UsedBehindReset(rows, front, nr);
      OneWithoutReset(now, req, nr);
      MatchedAtReset(rows, front, uid, nr);
    }
  }

  lemma {:induction false} BlockedAtResetSplit(rows: seq<Row>, a: seq<Request>, b: seq<Request>, uid: nat, nr: nat)
    requires GoodRows(rows) && AllIndexable(a) && AllIndexable(b) && nr < CALLS
    requires LastReset(Outcome(rows, a).0, b, nr) < 0
    ensures AllIndexable(a + b) && (BlockedAtReset(rows, a + b, uid, nr) <==> BlockedAtReset(rows, a, uid, nr))
  {
    if b == [] {
      assert a + b == a;
    } else {
      var front, req := b[..|b| - 1], b[|b| - 1];
      assert (a + b)[..|a + b| - 1] == a + front && (a + b)[|a + b| - 1] == req;
      OutcomeSplit(rows, a, front, nr);
      BlockedAtResetSplit(rows, a, front, uid, nr);
    }
  }

  /** The first request changes the row in more than the count. */
  ghost predicate ChangesFirst(rows: seq<Row>, order: seq<Request>, nr: nat)
    requires GoodRows(rows) && AllIndexable(order) && nr < CALLS
  {
    order != [] && |One(rows, order[0]).0| == CALLS && !Same(One(rows, order[0]).0[nr], rows[nr])
  }

  /** Through `a` the row stays as it is, and `b` is empty or changes it at once. */
  ghost predicate CutAtChange(rows: seq<Row>, a: seq<Request>, b: seq<Request>, nr: nat)
    requires GoodRows(rows) && AllIndexable(a) && AllIndexable(b) && nr < CALLS
  {
    && Same(Outcome(rows, a).0[nr], rows[nr]) && LastReset(rows, a, nr) < 0
    && (b != [] ==> ChangesFirst(Outcome(rows, a).0, b, nr))
  }

  lemma StillSame(rows: seq<Row>, a: seq<Request>, req: Request, nr: nat)
    requires GoodRows(rows) && AllIndexable(a) && Indexable(req) && nr < CALLS && CutAtChange(rows, a, [], nr)
    ensures AllIndexable(a + [req])
    ensures CutAtChange(rows, a + [req], [], nr) || CutAtChange(rows, a, [req], nr)
  {
    var now := Outcome(rows, a).0;
    StepGood(AsWritten, Direct(true, now), req);
    if Resets(now, req, nr) { ResetChanges(now, req, nr); }
    OneMore(rows, a, req, nr);
  }

  lemma StillChanges(rows: seq<Row>, a: seq<Request>, b: seq<Request>, req: Request, nr: nat)
    requires GoodRows(rows) && AllIndexable(a) && AllIndexable(b) && Indexable(req) && nr < CALLS
    requires CutAtChange(rows, a, b, nr) && b != []
    ensures AllIndexable(b + [req]) && CutAtChange(rows, a, b + [req], nr)
  {
    assert (b + [req])[0] == b[0];
  }

  /** The longest beginning of `order` through which the row stays as it is, and the rest. */
  lemma {:induction false} FirstChange(rows: seq<Row>, order: seq<Request>, nr: nat)
    returns (a: seq<Request>, b: seq<Request>)
    requires GoodRows(rows) && AllIndexable(order) && nr < CALLS
    ensures order == a + b && AllIndexable(a) && AllIndexable(b) && CutAtChange(rows, a, b, nr)
  {
    if order == [] {
      a, b := [], [];
    } else {
      var front, req := order[..|order| - 1], order[|order| - 1];
      assert order == front + [req];
      a, b := FirstChange(rows, front, nr);
      Associates(a, b, [req]);
      if b != [] {
        StillChanges(rows, a, b, req, nr);
        b := b + [req];
      } else {
        assert a + b == a && b + [req] == [req];
        StillSame(rows, a, req, nr);
        if CutAtChange(rows, a, [req], nr) {
          b := [req];
        } else {
          a := a + [req];
        }
      }
    }
  }

  // ---- Where findder can be placed ----

  lemma OneRequest(rows: seq<Row>, req: Request, nr: nat)
    requires GoodRows(rows) && Indexable(req)
    ensures Outcome(rows, [req]).0 == One(rows, req).0 && Outcome(rows, [req]).1 == [One(rows, req).1]
    ensures LastReset(rows, [req], nr) == if Resets(rows, req, nr) then 0 else -1
    ensures !Refuses(rows, req, nr) ==> Tally(rows, [req], nr) == 0
  {
    var none: seq<Request> := [];
    assert [req] == none + [req];
    OneMore(rows, none, req, nr);
  }

  /** Where the row is about to change, nobody sees or raises the count before the next reset. */
  lemma BeforeChange(rows: seq<Row>, req: Request, rest: seq<Request>, nr: nat, count: nat)
    requires GoodRows(rows) && Indexable(req) && AllIndexable(rest) && nr < CALLS && rows[nr].call == nr
    requires rows[nr].count < ULONG && count < ULONG
    requires |One(rows, req).0| == CALLS && !Same(One(rows, req).0[nr], rows[nr])
    ensures AllIndexable([req] + rest)
    ensures Outcome(Counted(rows, nr, count), [req] + rest).1 == Outcome(rows, [req] + rest).1
    ensures LastReset(rows, [req] + rest, nr) < 0 ==> Tally(rows, [req] + rest, nr) == 0
  {
    var other := Counted(rows, nr, count);
    OneRequest(rows, req, nr);
    OneRequest(other, req, nr);
    OutcomeSplit(rows, [req], rest, nr);
    OutcomeSplit(other, [req], rest, nr);
    OneOfRecount(rows, req, nr, count);
    ChangedCode(rows, req, nr, count);
    if !Resets(rows, req, nr) {
      OneWithoutReset(rows, req, nr);
      StepGood(AsWritten, Direct(true, rows), req);
      UnusedCodes(One(rows, req).0, rest, nr, count);
    }
  }

  lemma UnseenBeforeChange(rows: seq<Row>, order: seq<Request>, nr: nat, count: nat)
    requires GoodRows(rows) && AllIndexable(order) && nr < CALLS && rows[nr].call == nr
    requires rows[nr].count < ULONG && count < ULONG
    requires order != [] ==> ChangesFirst(rows, order, nr)
    ensures Outcome(Counted(rows, nr, count), order).1 == Outcome(rows, order).1
    ensures LastReset(rows, order, nr) < 0 ==> Tally(rows, order, nr) == 0
  {
    if order == [] {
    } else {
      assert order == [order[0]] + order[1..];
      BeforeChange(rows, order[0], order[1..], nr, count);
    }
  }

  /** findder right before the row changes: only the final count can tell. */
  lemma WholeBeforeChange(rows: seq<Row>, order: seq<Request>, uid: nat, nr: nat)
    requires GoodRows(rows) && AllIndexable(order) && nr < CALLS && Matching(rows[nr], uid, nr)
    requires rows[nr].count < ULONG && (order != [] ==> ChangesFirst(rows, order, nr))
    ensures var plain, other := Outcome(rows, order), Outcome(Whole(rows, uid, nr).0, order);
            && other.1 == plain.1
            && (LastReset(rows, order, nr) >= 0 ==> other.0 == plain.0)
            && (LastReset(rows, order, nr) < 0 ==>
                  Tally(rows, order, nr) == 0 && other.0 == Counted(plain.0, nr, Increment(rows[nr].count)))
  {
    OutcomeOfRecount(rows, order, nr, Increment(rows[nr].count));
    UnseenBeforeChange(rows, order, nr, Increment(rows[nr].count));
    SameCount(Outcome(rows, order).0, nr);
  }

  lemma SameCount(rows: seq<Row>, nr: nat)
    requires nr < |rows|
    ensures Counted(rows, nr, rows[nr].count) == rows
  {
  }

  /** findder between a and b, when b is empty or changes the row at once. */
  lemma PlacedAtCut(rows: seq<Row>, a: seq<Request>, b: seq<Request>, uid: nat, nr: nat)
    requires GoodRows(rows) && AllIndexable(a) && AllIndexable(b) && nr < CALLS && CutAtChange(rows, a, b, nr)
    requires Matching(rows[nr], uid, nr) && rows[nr].count < ULONG
    ensures var now := Outcome(rows, a).0;
            var plain, p := Outcome(now, b), Placed(rows, a, b, uid, nr);
            && p.1 == Outcome(rows, a).1 + plain.1 && p.2 == 1
            && (LastReset(now, b, nr) >= 0 ==> p.0 == plain.0)
            && (LastReset(now, b, nr) < 0 ==>
                  Tally(now, b, nr) == 0 && p.0 == Counted(plain.0, nr, Increment(Plus(rows[nr].count, Tally(rows, a, nr)))))
  {
    OutcomeOfRecount(rows, a, nr, 0);
    WholeBeforeChange(Outcome(rows, a).0, b, uid, nr);
  }

  /** There is a place at which findder finds the pair and, apart from the final count, nobody can tell. */
  lemma PlaceBeforeChange(rows: seq<Row>, order: seq<Request>, uid: nat, nr: nat)
    returns (a: seq<Request>, b: seq<Request>)
    requires GoodRows(rows) && AllIndexable(order) && nr < CALLS && Matching(rows[nr], uid, nr)
    requires rows[nr].count < ULONG
    ensures order == a + b && AllIndexable(a) && AllIndexable(b)
    ensures var others, p := Outcome(rows, order), Placed(rows, a, b, uid, nr);
            && p.1 == others.1 && p.2 == 1
            && p.0 == if LastReset(rows, order, nr) >= 0 then others.0
                      else Counted(others.0, nr, Increment(Plus(rows[nr].count, Tally(rows, order, nr))))
  {
    a, b := FirstChange(rows, order, nr);
    OutcomeSplit(rows, a, b, nr);
    PlacedAtCut(rows, a, b, uid, nr);
  }

  // ---- The benign races ----

  /** The race looks as if findder had run in one piece. Without a reset in between: nothing was refused, or a
      whole cycle of an unsigned long. With one, counting the refusals behind the last reset: one more than
      findder had loaded, or as many, and then the pair has to be blocked right after that reset. */
  ghost predicate Benign(rows: seq<Row>, order: seq<Request>, uid: nat, nr: nat)
    requires GoodRows(rows) && AllIndexable(order) && nr < CALLS
  {
    var r, t := LastReset(rows, order, nr), Tally(rows, order, nr);
    if r < 0 then t == 0
    else t == Increment(rows[nr].count) || (t == rows[nr].count && BlockedAtReset(rows, order, uid, nr))
  }

  /** The last reset splits the requests: it is the last of the first part, and the second part has none. */
  lemma {:induction false} AtLastReset(rows: seq<Row>, order: seq<Request>, uid: nat, nr: nat)
    returns (a: seq<Request>, b: seq<Request>)
    requires GoodRows(rows) && AllIndexable(order) && LastReset(rows, order, nr) >= 0 && nr < CALLS
    ensures order == a + b && AllIndexable(a) && AllIndexable(b)
    ensures LastReset(rows, a, nr) >= 0 && Tally(rows, a, nr) == 0
    ensures LastReset(Outcome(rows, a).0, b, nr) < 0
    ensures BlockedAtReset(rows, order, uid, nr) <==> Matching(Outcome(rows, a).0[nr], uid, nr)
  {
    var front, req := order[..|order| - 1], order[|order| - 1];
    assert order == front + [req];
    if Resets(Outcome(rows, front).0, req, nr) {
      a, b := order, [];
    } else {
      var rest;
      a, rest := AtLastReset(rows, front, uid, nr);
      StillNoReset(rows, a, rest, req, nr);
      Associates(a, rest, [req]);
      b := rest + [req];
    }
  }

  lemma StillNoReset(rows: seq<Row>, a: seq<Request>, b: seq<Request>, req: Request, nr: nat)
    requires GoodRows(rows) && AllIndexable(a) && AllIndexable(b) && AllIndexable(a + b) && Indexable(req)
    requires LastReset(Outcome(rows, a).0, b, nr) < 0 && !Resets(Outcome(rows, a + b).0, req, nr)
    ensures AllIndexable(b + [req]) && LastReset(Outcome(rows, a).0, b + [req], nr) < 0
  {
    OutcomeSplit(rows, a, b, nr);
    OneMore(Outcome(rows, a).0, b, req, nr);
  }

  lemma BenignIsPlaced(rows: seq<Row>, order: seq<Request>, uid: nat, nr: nat)
    returns (a: seq<Request>, b: seq<Request>)
    requires GoodRows(rows) && AllIndexable(order) && nr < CALLS && Matching(rows[nr], uid, nr)
    requires rows[nr].count < ULONG && Benign(rows, order, uid, nr)
    ensures order == a + b && AllIndexable(a) && AllIndexable(b)
    ensures Placed(rows, a, b, uid, nr) == Torn(rows, order, uid, nr)
  {
    if LastReset(rows, order, nr) < 0 {
      a, b := PlaceBeforeChange(rows, order, uid, nr);
    } else if Tally(rows, order, nr) == Increment(rows[nr].count) {
      a, b := PlaceBeforeChange(rows, order, uid, nr);
      OutcomeOfRecount(rows, order, nr, 0);
      assert Counted(Outcome(rows, order).0, nr, Tally(rows, order, nr)) == Outcome(rows, order).0;
    } else {
      var first, second := AtLastReset(rows, order, uid, nr);
      OutcomeSplit(rows, first, second, nr);
      a, b := PlacedBehindReset(rows, first, second, uid, nr);
    }
  }

  /** A place behind the last reset that fits the second part fits the whole. */
  lemma FitsWhole(rows: seq<Row>, a: seq<Request>, b: seq<Request>, c: seq<Request>, uid: nat, nr: nat)
    requires GoodRows(rows) && AllIndexable(a) && AllIndexable(b) && AllIndexable(c) && nr < CALLS
    requires var base := Outcome(rows, a).0;
             var p, others := Placed(base, b, c, uid, nr), Outcome(base, b + c);
             p.0 == Counted(others.0, nr, Increment(rows[nr].count)) && p.1 == others.1 && p.2 == 1
    ensures AllIndexable(a + b) && AllIndexable(a + (b + c))
    ensures Placed(rows, a + b, c, uid, nr) == Torn(rows, a + (b + c), uid, nr)
  {
    PlacedSplit(rows, a, b, c, uid, nr);
    OutcomeSplit(rows, a, b + c, nr);
  }

  lemma PlacedBehindReset(rows: seq<Row>, first: seq<Request>, second: seq<Request>, uid: nat, nr: nat)
    returns (a: seq<Request>, b: seq<Request>)
    requires GoodRows(rows) && AllIndexable(first) && AllIndexable(second) && nr < CALLS && rows[nr].count < ULONG
    requires LastReset(rows, first, nr) >= 0 && Tally(rows, first, nr) == 0
    requires LastReset(Outcome(rows, first).0, second, nr) < 0
    requires Tally(Outcome(rows, first).0, second, nr) == rows[nr].count
    requires Matching(Outcome(rows, first).0[nr], uid, nr)
    ensures first + second == a + b && AllIndexable(a) && AllIndexable(b) && AllIndexable(first + second)
    ensures Placed(rows, a, b, uid, nr) == Torn(rows, first + second, uid, nr)
  {
    OutcomeOfRecount(rows, first, nr, 0);
    var c, d := PlaceBeforeChange(Outcome(rows, first).0, second, uid, nr);
    FitsWhole(rows, first, c, d, uid, nr);
    Associates(first, c, d);
    a, b := first + c, d;
  }

  // ---- A place makes the race benign ----

  lemma IncrementOnce(a: nat, b: nat)
    requires a < ULONG && b < ULONG && Increment(a) == Increment(b)
    ensures a == b
  {
  }

  lemma PlacedBeforeReset(rows: seq<Row>, a: seq<Request>, b: seq<Request>, uid: nat, nr: nat)
    requires GoodRows(rows) && AllIndexable(a) && AllIndexable(b) && nr < CALLS && rows[nr].count < ULONG
    requires LastReset(Outcome(rows, a).0, b, nr) >= 0 && Placed(rows, a, b, uid, nr).2 == 1
    ensures Placed(rows, a, b, uid, nr).0[nr].count == Tally(Outcome(rows, a).0, b, nr)
  {
    var now := Outcome(rows, a).0;
    OutcomeOfRecount(rows, a, nr, 0);
    OutcomeOfRecount(now, b, nr, Increment(now[nr].count));
  }

  lemma CountSplit(rows: seq<Row>, a: seq<Request>, b: seq<Request>, nr: nat, count: nat)
    requires GoodRows(rows) && AllIndexable(a) && AllIndexable(b) && count < ULONG
    requires LastReset(Outcome(rows, a).0, b, nr) < 0
    ensures AllIndexable(a + b)
    ensures CountAfter(rows, a + b, nr, count) == Plus(CountAfter(rows, a, nr, count), Tally(Outcome(rows, a).0, b, nr))
  {
    OutcomeSplit(rows, a, b, nr);
  }

  lemma PlacedAfterReset(rows: seq<Row>, a: seq<Request>, b: seq<Request>, uid: nat, nr: nat)
    requires GoodRows(rows) && AllIndexable(a) && AllIndexable(b) && nr < CALLS && rows[nr].count < ULONG
    requires LastReset(Outcome(rows, a).0, b, nr) < 0 && Placed(rows, a, b, uid, nr).2 == 1
    ensures AllIndexable(a + b)
    ensures Placed(rows, a, b, uid, nr).0[nr].count == Increment(CountAfter(rows, a + b, nr, rows[nr].count))
  {
    var now := Outcome(rows, a).0;
    CountSplit(rows, a, b, nr, rows[nr].count);
    OutcomeOfRecount(rows, a, nr, 0);
    OutcomeOfRecount(now, b, nr, Increment(now[nr].count));
    IncrementPlus(now[nr].count, Tally(now, b, nr));
  }

  /** The count of the torn rows, when findder fits between a and b. */
  lemma PlacedCount(rows: seq<Row>, a: seq<Request>, b: seq<Request>, uid: nat, nr: nat)
    requires GoodRows(rows) && AllIndexable(a) && AllIndexable(b) && nr < CALLS && rows[nr].count < ULONG
    requires AllIndexable(a + b) && Placed(rows, a, b, uid, nr) == Torn(rows, a + b, uid, nr)
    ensures if LastReset(Outcome(rows, a).0, b, nr) >= 0 then Tally(Outcome(rows, a).0, b, nr) == Increment(rows[nr].count)
            else CountAfter(rows, a + b, nr, rows[nr].count) == rows[nr].count
  {
    assert Torn(rows, a + b, uid, nr).0[nr].count == Increment(rows[nr].count);
    if LastReset(Outcome(rows, a).0, b, nr) >= 0 {
      PlacedBeforeReset(rows, a, b, uid, nr);
    } else {
      PlacedAfterReset(rows, a, b, uid, nr);
      IncrementOnce(CountAfter(rows, a + b, nr, rows[nr].count), rows[nr].count);
    }
  }

  lemma PlacedIsBenign(rows: seq<Row>, a: seq<Request>, b: seq<Request>, uid: nat, nr: nat)
    requires GoodRows(rows) && AllIndexable(a) && AllIndexable(b) && nr < CALLS && rows[nr].count < ULONG
    requires AllIndexable(a + b) && Placed(rows, a, b, uid, nr) == Torn(rows, a + b, uid, nr)
    ensures Benign(rows, a + b, uid, nr)
  {
    PlacedCount(rows, a, b, uid, nr);
    OutcomeSplit(rows, a, b, nr);
    if LastReset(Outcome(rows, a).0, b, nr) < 0 && LastReset(rows, a, nr) >= 0 {
      MatchedAtReset(rows, a, uid, nr);
      BlockedAtResetSplit(rows, a, b, uid, nr);
    }
  }

  /** Whatever requests finish between findder's load and its store, findder's own among them, the outcome is
      that of findder in one piece at some place among those requests, exactly when the race is benign. */
  lemma RaceIsSerialExactly(rows: seq<Row>, order: seq<Request>, uid: nat, nr: nat)
    requires GoodRows(rows) && AllIndexable(order) && nr < CALLS && Matching(rows[nr], uid, nr)
    requires rows[nr].count < ULONG
    ensures (exists k :: 0 <= k <= |order| && Placed(rows, order[..k], order[k..], uid, nr) == Torn(rows, order, uid, nr))
       <==> Benign(rows, order, uid, nr)
  {
    if Benign(rows, order, uid, nr) {
      var a, b := BenignIsPlaced(rows, order, uid, nr);
      assert order[..|a|] == a && order[|a|..] == b;
    } else if k :| 0 <= k <= |order| && Placed(rows, order[..k], order[k..], uid, nr) == Torn(rows, order, uid, nr) {
      assert order == order[..k] + order[k..];
      PlacedIsBenign(rows, order[..k], order[k..], uid, nr);
    }
  }

  /** The lost increment: one other refusal of the row between load and store, of any blocked uid, and no place
      fits, whatever the count. */
  lemma LostIncrement(rows: seq<Row>, uid: nat, other: nat, nr: nat, k: nat)
    requires GoodRows(rows) && nr < CALLS && Matching(rows[nr], uid, nr) && Matching(rows[nr], other, nr)
    requires rows[nr].count < ULONG && k <= 1
    ensures var order := [Intercept(other, nr)];
            Placed(rows, order[..k], order[k..], uid, nr) != Torn(rows, order, uid, nr)
  {
    var req := Intercept(other, nr);
    var none: seq<Request> := [];
    assert [req] == none + [req];
    OneMore(rows, none, req, nr);
    RaceIsSerialExactly(rows, [req], uid, nr);
  }

  /** If the pair is unblocked and blocked again in between, no place fits any count but 0 and the greatest. */
  lemma FindderIsNotSerial(rows: seq<Row>, uid: nat, nr: nat, k: nat)
    requires GoodRows(rows) && nr < CALLS && Matching(rows[nr], uid, nr) && 0 < rows[nr].count < ULONG - 1
    requires k <= 2
    ensures var order := [Unblock(0, uid, nr), Block(0, uid, nr)];
            AllIndexable(order) && Placed(rows, order[..k], order[k..], uid, nr) != Torn(rows, order, uid, nr)
  {
    var a, b := Unblock(0, uid, nr), Block(0, uid, nr);
    OneRequest(rows, a, nr);
    OneMore(rows, [a], b, nr);
    assert [a] + [b] == [a, b];
    assert One(rows, a).0[nr].call == UNUSED;
    RaceIsSerialExactly(rows, [a, b], uid, nr);
  }
}
