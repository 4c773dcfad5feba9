/** The direct-mapped table of project 2/proj2/kernel/proj2.c, exactly as written: one row per system
    call with 32 uid slots, one `call` word and one `count` shared by the whole row. */
module DirectTable {
  import opened Errno
  import opened Arithmetic
  import opened Sandbox

  const SLOTS: nat := 32

  /** The value of `call` that marks a row as unused. */
  const UNUSED: nat := 999

  datatype Row = Row(call: nat, count: nat, hash: seq<int>)

  predicate GoodRow(row: Row) {
    |row.hash| == SLOTS
  }

  datatype Direct = Direct(started: bool, rows: seq<Row>)

  ghost predicate Good(d: Direct) {
    |d.rows| == CALLS && forall nr :: 0 <= nr < CALLS ==> GoodRow(d.rows[nr])
  }

  /** Two ways to read proj2.c. `AsWritten` follows every line. `OwnSlot` changes two of them: a duplicate
      block counts in `count`, as the comment on line 57 says, and an unblock clears its own slot only. */
  datatype Reading = AsWritten | OwnSlot

  /** Static storage starts out zeroed. */
  function Loaded(): Direct {
    Direct(false, seq(CALLS, _ => Row(0, 0, seq(SLOTS, _ => 0))))
  }

  /** The `started` test at the head of block, unblock and count. */
  function Begin(d: Direct): Direct {
    if d.started then d
    else Direct(true, seq(|d.rows|, i requires 0 <= i < |d.rows| => d.rows[i].(call := UNUSED, count := 0)))
  }

  function Slot(proc: int): (i: nat)
    requires proc >= 0
    ensures i < SLOTS
  {
    proc % SLOTS
  }

  function BlockRow(reading: Reading, row: Row, proc: int, nr: nat): (Row, int)
    requires GoodRow(row) && proc >= 0
  {
    if row.call != UNUSED && row.hash[Slot(proc)] == proc
    then (if reading.AsWritten? then row.(call := Increment(row.call)) else row.(count := Increment(row.count)),
          -EEXIST)
    else (Row(nr, 0, row.hash[Slot(proc) := proc]), 0)
  }

  predicate Matching(row: Row, proc: int, nr: nat)
    requires GoodRow(row) && proc >= 0
  {
    row.call == nr && row.hash[Slot(proc)] == proc
  }

  function UnblockRow(reading: Reading, row: Row, proc: int, nr: nat): (Row, int)
    requires GoodRow(row) && proc >= 0
  {
    if Matching(row, proc, nr)
    then (row.(call := if reading.AsWritten? then UNUSED else row.call, hash := row.hash[Slot(proc) := 0]), 0)
    else (row, -EEXIST)
  }

  /** `int temp = count`: the low 32 bits as a signed number. */
  function AsInt(count: int): int {
    var low := count % 0x1_0000_0000;
    if low < 0x8000_0000 then low else low - 0x1_0000_0000
  }

  /** The return code of sbx421_count for a count in an unsigned long: the int congruent to it modulo 2^32, which is
      the count itself below 2^31. */
  predicate Counts(count: nat, code: int) {
    && -0x8000_0000 <= code < 0x8000_0000 && (code - count) % 0x1_0000_0000 == 0
    && (count < 0x8000_0000 ==> code == count)
  }

  lemma AsIntExactly(count: nat, code: int)
    ensures Counts(count, AsInt(count))
    ensures Counts(count, code) ==> code == AsInt(count)
  {
    var low, q := count % 0x1_0000_0000, count / 0x1_0000_0000;
    var turns := if low < 0x8000_0000 then q else q + 1;
    assert AsInt(count) - count == 0x1_0000_0000 * -turns;
    ModUnique(AsInt(count) - count, 0x1_0000_0000, -turns, 0);
    if Counts(count, code) {
      var k := (code - count) / 0x1_0000_0000;
      assert code - AsInt(count) == 0x1_0000_0000 * (k + turns);
    }
  }

  /** Two uids share a slot exactly when they are congruent modulo 32, and uids below 32 have their own. */
  lemma SlotExactly(a: nat, b: nat)
    ensures Slot(a) == Slot(b) <==> (a - b) % 32 == 0
    ensures a < 32 ==> Slot(a) == a
  {
    var p, q := a / 32, b / 32;
    assert a == 32 * p + Slot(a) && b == 32 * q + Slot(b);
    assert a - b == 32 * (p - q) + (Slot(a) - Slot(b));
  }

  /** One request: the new table and the return code (for findder 1 or 0). */
  function Step(reading: Reading, d: Direct, req: Request): (Direct, int)
    requires Good(d) && Indexable(req)
  {
    match req
    case Block(caller, proc, nr) =>
      var b := Begin(d);
      if !Authorised(caller, proc) then (b, -EPERM)
      else var r := BlockRow(reading, b.rows[nr], proc, nr); (b.(rows := b.rows[nr := r.0]), r.1)
    case Unblock(caller, proc, nr) =>
      var b := Begin(d);
      if !Authorised(caller, proc) then (b, -EPERM)
      else var r := UnblockRow(reading, b.rows[nr], proc, nr); (b.(rows := b.rows[nr := r.0]), r.1)
    case Count(caller, proc, nr) =>
      var b := Begin(d);
      (b, if caller != 0 then -EPERM
          else if proc <= 0 then -EINVAL
          else if Matching(b.rows[nr], proc, nr) then AsInt(b.rows[nr].count)
          else -EEXIST)
    case Intercept(uid, nr) =>
      if Matching(d.rows[nr], uid, nr)
      then (d.(rows := d.rows[nr := d.rows[nr].(count := Increment(d.rows[nr].count))]), 1)
      else (d, 0)
  }

  lemma StepGood(reading: Reading, d: Direct, req: Request)
    requires Good(d) && Indexable(req)
    ensures Good(Step(reading, d, req).0)
  {
  }

  /** findder's answer for a uid. */
  predicate Blocks(d: Direct, uid: nat, nr: nat)
    requires Good(d) && nr < CALLS
  {
    Matching(d.rows[nr], uid, nr)
  }

  // ---- When does the table agree with the intended map? ----

  /** findder answers for every non-root uid as the map says. Uid 0 looks like an empty slot, so it is
      left out here; RootLooksBlocked says what it gets instead. */
  ghost predicate Agrees(d: Direct, m: Blocked)
    requires Good(d)
  {
    forall uid: nat, nr: nat :: uid > 0 && nr < CALLS ==> (Blocks(d, uid, nr) <==> (uid, nr) in m)
  }

  /** Some non-root uid is blocked for nr. */
  ghost predicate Occupied(m: Blocked, nr: nat) {
    exists q: nat :: q > 0 && (q, nr) in m
  }

  /** Another non-root uid is blocked for nr. */
  ghost predicate Shared(m: Blocked, proc: int, nr: nat) {
    exists q: nat :: q > 0 && q != proc && (q, nr) in m
  }

  /** Another non-root uid that uses the slot of proc is blocked for nr. */
  ghost predicate Collides(m: Blocked, proc: int, nr: nat)
    requires proc >= 0
  {
    exists q: nat :: q > 0 && q != proc && (q, nr) in m && Slot(q) == Slot(proc)
  }

  /** The requests after which the code still agrees with the map, stated on the map alone. */
  ghost predicate Harmless(reading: Reading, m: Blocked, req: Request)
    requires Indexable(req)
  {
    match req
    case Block(caller, proc, nr) =>
      Authorised(caller, proc) ==>
        if reading.OwnSlot? then !Collides(m, proc, nr)
        else if proc == 0 then !Occupied(m, nr)
        else (proc, nr) !in m && !Collides(m, proc, nr)
    case Unblock(caller, proc, nr) =>
      Authorised(caller, proc) && reading.AsWritten? ==>
        if proc == 0 then !Occupied(m, nr) || Collides(m, 0, nr)
        else (proc, nr) in m ==> !Shared(m, proc, nr)
    case Count(_, _, _) => true
    case Intercept(_, _) => true
  }

  /** Row nr stores exactly the non-root uids that the map blocks for nr. */
  ghost predicate RowMirrors(row: Row, m: Blocked, nr: nat)
    requires GoodRow(row)
  {
    && (forall i :: 0 <= i < SLOTS && row.hash[i] != 0 ==>
          row.hash[i] > 0 && Slot(row.hash[i]) == i && (row.hash[i], nr) in m)
    && (forall q: nat :: q > 0 && (q, nr) in m ==> row.hash[Slot(q)] == q && row.call == nr)
  }

  /** The table stores exactly the non-root pairs of the map. */
  ghost predicate Mirrors(d: Direct, m: Blocked) {
    && Good(d)
    && (forall nr: nat :: nr < CALLS ==> RowMirrors(d.rows[nr], m, nr))
    && (!d.started ==> m == map[])
  }

  lemma MirrorsAgrees(d: Direct, m: Blocked)
    requires Mirrors(d, m)
    ensures Agrees(d, m)
  {
    forall uid: nat, nr: nat | uid > 0 && nr < CALLS
      ensures Blocks(d, uid, nr) <==> (uid, nr) in m
    {
      assert RowMirrors(d.rows[nr], m, nr);
    }
  }

  lemma BeginMirrors(d: Direct, m: Blocked)
    requires Mirrors(d, m)
    ensures Mirrors(Begin(d), m)
  {
    forall nr: nat | nr < CALLS
      ensures RowMirrors(Begin(d).rows[nr], m, nr)
    {
      assert RowMirrors(d.rows[nr], m, nr);
    }
  }

  /** Changing the map for one system call leaves the other rows mirrored. */
  lemma OtherRowsMirror(d: Direct, m: Blocked, m': Blocked, row: Row, nr: nat)
    requires Mirrors(d, m) && d.started && nr < CALLS
    requires forall q: int, k: int :: k != nr ==> ((q, k) in m <==> (q, k) in m')
    requires GoodRow(row) && RowMirrors(row, m', nr)
    ensures Mirrors(d.(rows := d.rows[nr := row]), m')
  {
    var rows := d.rows[nr := row];
    forall k: nat | k < CALLS
      ensures RowMirrors(rows[k], m', k)
    {
      assert RowMirrors(d.rows[k], m, k);
    }
  }

  lemma BlockRowExact(reading: Reading, row: Row, m: Blocked, proc: nat, nr: nat)
    requires GoodRow(row) && RowMirrors(row, m, nr) && nr < CALLS
    ensures var r := BlockRow(reading, row, proc, nr).0;
            var m' := Intended(m, Block(0, proc, nr)).0;
            GoodRow(r)
            && (Harmless(reading, m, Block(0, proc, nr)) ==> RowMirrors(r, m', nr))
            && (!Harmless(reading, m, Block(0, proc, nr)) ==>
                  exists q: nat :: q > 0 && (q, nr) in m' && !Matching(r, q, nr))
  {
    var r := BlockRow(reading, row, proc, nr).0;
    var m' := Intended(m, Block(0, proc, nr)).0;
    if !Harmless(reading, m, Block(0, proc, nr)) {
      if proc > 0 && (proc, nr) in m && reading.AsWritten? {
        assert !Matching(r, proc, nr);
      } else if Collides(m, proc, nr) {
        var q: nat :| q > 0 && q != proc && (q, nr) in m && Slot(q) == Slot(proc);
        assert row.hash[Slot(proc)] == q;
        assert !Matching(r, q, nr);
        assert (q, nr) in m';
      } else {
        var q: nat :| q > 0 && (q, nr) in m;
        assert row.call == nr && row.hash[Slot(q)] == q;
        assert row.hash[0] == 0;
        assert !Matching(r, q, nr);
        assert (q, nr) in m';
      }
    }
  }

  lemma UnblockRowExact(reading: Reading, row: Row, m: Blocked, proc: nat, nr: nat)
    requires GoodRow(row) && RowMirrors(row, m, nr) && nr < CALLS
    ensures var r := UnblockRow(reading, row, proc, nr).0;
            var m' := Intended(m, Unblock(0, proc, nr)).0;
            GoodRow(r)
            && (Harmless(reading, m, Unblock(0, proc, nr)) ==> RowMirrors(r, m', nr))
            && (!Harmless(reading, m, Unblock(0, proc, nr)) ==>
                  exists q: nat :: q > 0 && (q, nr) in m' && !Matching(r, q, nr))
  {
    var r := UnblockRow(reading, row, proc, nr).0;
    var m' := Intended(m, Unblock(0, proc, nr)).0;
    if !Harmless(reading, m, Unblock(0, proc, nr)) {
      if proc > 0 {
        var q: nat :| q > 0 && q != proc && (q, nr) in m;
        assert row.call == nr && row.hash[Slot(proc)] == proc;
        assert r.call == UNUSED;
        assert !Matching(r, q, nr);
        assert (q, nr) in m';
      } else {
        var q: nat :| q > 0 && (q, nr) in m;
        assert row.call == nr && row.hash[Slot(q)] == q;
        assert row.hash[0] == 0;
        assert r.call == UNUSED;
        assert !Matching(r, q, nr);
        assert (q, nr) in m';
      }
    }
  }

  lemma BlockStepExact(reading: Reading, d: Direct, m: Blocked, caller: nat, proc: int, nr: nat)
    requires Mirrors(d, m) && d.started && Indexable(Block(caller, proc, nr)) && Authorised(caller, proc)
    ensures var req := Block(caller, proc, nr);
            var d', m' := Step(reading, d, req).0, Intended(m, req).0;
            Good(d') && (if Harmless(reading, m, req) then Mirrors(d', m') else !Agrees(d', m'))
  {
    var req := Block(caller, proc, nr);
    var d', m' := Step(reading, d, req).0, Intended(m, req).0;
    assert RowMirrors(d.rows[nr], m, nr);
    BlockRowExact(reading, d.rows[nr], m, proc, nr);
    var r := BlockRow(reading, d.rows[nr], proc, nr).0;
    assert m' == Intended(m, Block(0, proc, nr)).0;
    if Harmless(reading, m, req) {
      OtherRowsMirror(d, m, m', r, nr);
    } else {
      var q: nat :| q > 0 && (q, nr) in m' && !Matching(r, q, nr);
      assert !Blocks(d', q, nr);
    }
  }

  lemma UnblockStepExact(reading: Reading, d: Direct, m: Blocked, caller: nat, proc: int, nr: nat)
    requires Mirrors(d, m) && d.started && Indexable(Unblock(caller, proc, nr)) && Authorised(caller, proc)
    ensures var req := Unblock(caller, proc, nr);
            var d', m' := Step(reading, d, req).0, Intended(m, req).0;
            Good(d') && (if Harmless(reading, m, req) then Mirrors(d', m') else !Agrees(d', m'))
  {
    var req := Unblock(caller, proc, nr);
    var d', m' := Step(reading, d, req).0, Intended(m, req).0;
    assert RowMirrors(d.rows[nr], m, nr);
    UnblockRowExact(reading, d.rows[nr], m, proc, nr);
    var r := UnblockRow(reading, d.rows[nr], proc, nr).0;
    assert m' == Intended(m, Unblock(0, proc, nr)).0;
    if Harmless(reading, m, req) {
      OtherRowsMirror(d, m, m', r, nr);
    } else {
      var q: nat :| q > 0 && (q, nr) in m' && !Matching(r, q, nr);
      assert !Blocks(d', q, nr);
    }
  }

  /** One request on a table that mirrors the map: it still mirrors the map exactly when the request is
      harmless, and otherwise findder gives a wrong answer at once. */
  lemma StepExact(reading: Reading, d: Direct, m: Blocked, req: Request)
    requires Mirrors(d, m) && Indexable(req)
    ensures var d', m' := Step(reading, d, req).0, Intended(m, req).0;
            Good(d') && (if Harmless(reading, m, req) then Mirrors(d', m') else !Agrees(d', m'))
  {
    BeginMirrors(d, m);
    match req {
      case Block(caller, proc, nr) =>
        if Authorised(caller, proc) { BlockStepExact(reading, Begin(d), m, caller, proc, nr); }
      case Unblock(caller, proc, nr) =>
        if Authorised(caller, proc) { UnblockStepExact(reading, Begin(d), m, caller, proc, nr); }
      case Count(caller, proc, nr) =>
      case Intercept(uid, nr) =>
        var d', m' := Step(reading, d, req).0, Intended(m, req).0;
        forall k: nat | k < CALLS
          ensures RowMirrors(d'.rows[k], m', k)
        {
          assert RowMirrors(d.rows[k], m, k);
        }
    }
  }

  // ---- Whole runs ----

  ghost function After(reading: Reading, run: seq<Request>): (d: Direct)
    requires AllIndexable(run)
    ensures Good(d)
  {
    if run == [] then Loaded()
    else
      StepGood(reading, After(reading, run[..|run| - 1]), run[|run| - 1]);
      Step(reading, After(reading, run[..|run| - 1]), run[|run| - 1]).0
  }

  /** Request number k of the run is harmless where it occurs. */
  ghost predicate HarmlessAt(reading: Reading, run: seq<Request>, k: nat)
    requires AllIndexable(run) && k < |run|
  {
    Harmless(reading, IntendedAfter(run[..k]), run[k])
  }

  /** After k requests findder answers for every non-root uid as the intended map does. */
  ghost predicate AgreesAt(reading: Reading, run: seq<Request>, k: nat)
    requires AllIndexable(run) && k <= |run|
  {
    Agrees(After(reading, run[..k]), IntendedAfter(run[..k]))
  }

  ghost predicate MirrorsAt(reading: Reading, run: seq<Request>, k: nat)
    requires AllIndexable(run) && k <= |run|
  {
    Mirrors(After(reading, run[..k]), IntendedAfter(run[..k]))
  }

  lemma PrefixAfter(reading: Reading, run: seq<Request>, k: nat)
    requires AllIndexable(run) && k < |run|
    ensures After(reading, run[..k + 1]) == Step(reading, After(reading, run[..k]), run[k]).0
    ensures IntendedAfter(run[..k + 1]) == Intended(IntendedAfter(run[..k]), run[k]).0
  {
    assert run[..k + 1][..k] == run[..k];
  }

  lemma MirrorsNext(reading: Reading, run: seq<Request>, k: nat)
    requires AllIndexable(run) && k < |run| && MirrorsAt(reading, run, k)
    ensures if HarmlessAt(reading, run, k) then MirrorsAt(reading, run, k + 1) else !AgreesAt(reading, run, k + 1)
  {
    PrefixAfter(reading, run, k);
    StepExact(reading, After(reading, run[..k]), IntendedAfter(run[..k]), run[k]);
  }

  lemma MirrorsAtLoad(reading: Reading, run: seq<Request>)
    requires AllIndexable(run)
    ensures MirrorsAt(reading, run, 0)
  {
    assert run[..0] == [];
  }

  lemma {:induction false} HarmlessRunMirrors(reading: Reading, run: seq<Request>, k: nat)
    requires AllIndexable(run) && k <= |run|
    requires forall i :: 0 <= i < k ==> HarmlessAt(reading, run, i)
    ensures MirrorsAt(reading, run, k)
  {
    if k == 0 {
      MirrorsAtLoad(reading, run);
    } else {
      HarmlessRunMirrors(reading, run, k - 1);
      MirrorsNext(reading, run, k - 1);
    }
  }

  /** The first position at which a property fails. */
  lemma FirstFailure(p: nat -> bool, n: nat) returns (k: nat)
    requires !p(n)
    ensures k <= n && !p(k) && forall i :: 0 <= i < k ==> p(i)
  {
    k := 0;
    while p(k)
      invariant k <= n && forall i :: 0 <= i < k ==> p(i)
      decreases n - k
    {
      k := k + 1;
    }
  }

  /** The code answers for every non-root uid as the intended map does, throughout a run, exactly when
      every request of the run is harmless. */
  lemma RunExact(reading: Reading, run: seq<Request>)
    requires AllIndexable(run)
    ensures (forall k :: 0 <= k <= |run| ==> AgreesAt(reading, run, k))
       <==> (forall k :: 0 <= k < |run| ==> HarmlessAt(reading, run, k))
  {
    if n: nat :| n < |run| && !HarmlessAt(reading, run, n) {
      var p := (i: nat) => i < |run| ==> HarmlessAt(reading, run, i);
      var k := FirstFailure(p, n);
      forall i | 0 <= i < k
        ensures HarmlessAt(reading, run, i)
      {
        assert p(i);
      }
      HarmlessRunMirrors(reading, run, k);
      MirrorsNext(reading, run, k);
      assert !AgreesAt(reading, run, k + 1);
    } else {
      forall k: nat | k <= |run|
        ensures AgreesAt(reading, run, k)
      {
        HarmlessRunMirrors(reading, run, k);
        MirrorsAgrees(After(reading, run[..k]), IntendedAfter(run[..k]));
      }
    }
  }

  /** On a table that mirrors the map, root is refused exactly when somebody else is blocked for the call
      and nobody blocked uses slot 0. */
  lemma RootLooksBlocked(d: Direct, m: Blocked, nr: nat)
    requires Mirrors(d, m) && nr < CALLS && Occupied(m, nr)
    ensures Blocks(d, 0, nr) <==> !Collides(m, 0, nr)
  {
    assert RowMirrors(d.rows[nr], m, nr);
    var q: nat :| q > 0 && (q, nr) in m;
    assert d.rows[nr].hash[Slot(q)] == q && d.rows[nr].call == nr;
  }

  /** Before the first block, unblock or count, call number 0 is refused to root. */
  lemma RootBlockedAtLoad(uid: nat, nr: nat)
    requires nr < CALLS
    ensures Blocks(Loaded(), uid, nr) <==> uid == 0 && nr == 0
  {
  }

  /** The return code of proj2.c's functions for an intended answer. */
  function Encode(answer: Answer): int {
    match answer
    case Done => 0
    case Duplicate => -EEXIST
    case Missing => -EEXIST
    case Denied => -EPERM
    case Invalid => -EINVAL
    case Value(count) => AsInt(count)
    case Refused => 1
    case Allowed => 0
  }

  function Subject(req: Request): int {
    match req
    case Block(_, proc, _) => proc
    case Unblock(_, proc, _) => proc
    case Count(_, proc, _) => proc
    case Intercept(uid, _) => uid
  }

  // ---- Counts: one count per row instead of one per pair ----

  ghost predicate CountsAgree(d: Direct, m: Blocked)
    requires Good(d)
  {
    forall q: nat, nr: nat :: q > 0 && nr < CALLS && (q, nr) in m ==> d.rows[nr].count == m[(q, nr)]
  }

  ghost predicate AllZero(m: Blocked, nr: nat) {
    forall q: nat :: q > 0 && (q, nr) in m ==> m[(q, nr)] == 0
  }

  /** The requests after which the answers and the counts still agree with the map. */
  ghost predicate HarmlessToCounts(reading: Reading, m: Blocked, req: Request)
    requires Indexable(req)
  {
    Harmless(reading, m, req) &&
    match req
    case Block(caller, proc, nr) =>
      Authorised(caller, proc) ==> if proc == 0 then !Occupied(m, nr) else (proc, nr) !in m && AllZero(m, nr)
    case Unblock(_, _, _) => true
    case Count(_, _, _) => true
    case Intercept(uid, nr) =>
      if uid == 0 then !Occupied(m, nr) || Collides(m, 0, nr)
      else (uid, nr) in m ==> !Shared(m, uid, nr)
  }

  lemma BlockKeepsCounts(reading: Reading, d: Direct, m: Blocked, caller: nat, proc: int, nr: nat)
    requires Mirrors(d, m) && CountsAgree(d, m) && Indexable(Block(caller, proc, nr)) && Authorised(caller, proc)
    requires HarmlessToCounts(reading, m, Block(caller, proc, nr))
    ensures var req := Block(caller, proc, nr);
            Good(Step(reading, d, req).0) && CountsAgree(Step(reading, d, req).0, Intended(m, req).0)
  {
    var req := Block(caller, proc, nr);
    var d', m' := Step(reading, d, req).0, Intended(m, req).0;
    assert RowMirrors(d.rows[nr], m, nr);
    forall q: nat, k: nat | q > 0 && k < CALLS && (q, k) in m'
      ensures d'.rows[k].count == m'[(q, k)]
    {
      if k != nr {
        assert (q, k) in m;
        assert d.started;
      } else {
        assert m'[(q, k)] == 0;
      }
    }
  }

  lemma BlockBreaksCounts(reading: Reading, d: Direct, m: Blocked, caller: nat, proc: int, nr: nat)
    requires Mirrors(d, m) && CountsAgree(d, m) && Indexable(Block(caller, proc, nr)) && Authorised(caller, proc)
    requires Harmless(reading, m, Block(caller, proc, nr)) && !HarmlessToCounts(reading, m, Block(caller, proc, nr))
    ensures var req := Block(caller, proc, nr);
            Good(Step(reading, d, req).0) && !CountsAgree(Step(reading, d, req).0, Intended(m, req).0)
  {
    var req := Block(caller, proc, nr);
    var d', m' := Step(reading, d, req).0, Intended(m, req).0;
    assert RowMirrors(d.rows[nr], m, nr);
    var q: nat :| q > 0 && (q, nr) in m && (proc > 0 && (proc, nr) !in m ==> m[(q, nr)] != 0);
    assert d.started && d.rows[nr].count == m[(q, nr)];
    assert (q, nr) in m' && m'[(q, nr)] == m[(q, nr)];
    assert d'.rows[nr].count != m'[(q, nr)];
  }

  lemma UnblockCounts(reading: Reading, d: Direct, m: Blocked, caller: nat, proc: int, nr: nat)
    requires Mirrors(d, m) && CountsAgree(d, m) && Indexable(Unblock(caller, proc, nr))
    ensures var req := Unblock(caller, proc, nr);
            Good(Step(reading, d, req).0) && CountsAgree(Step(reading, d, req).0, Intended(m, req).0)
  {
    var req := Unblock(caller, proc, nr);
    var d', m' := Step(reading, d, req).0, Intended(m, req).0;
    forall q: nat, k: nat | q > 0 && k < CALLS && (q, k) in m'
      ensures d'.rows[k].count == m'[(q, k)]
    {
      assert (q, k) in m;
      assert d.started;
    }
  }

  lemma InterceptCounts(reading: Reading, d: Direct, m: Blocked, uid: nat, nr: nat)
    requires Mirrors(d, m) && CountsAgree(d, m) && nr < CALLS
    ensures var req := Intercept(uid, nr);
            Good(Step(reading, d, req).0)
            && (HarmlessToCounts(reading, m, req) <==> CountsAgree(Step(reading, d, req).0, Intended(m, req).0))
  {
    var req := Intercept(uid, nr);
    var d', m' := Step(reading, d, req).0, Intended(m, req).0;
    assert RowMirrors(d.rows[nr], m, nr);
    if HarmlessToCounts(reading, m, req) {
      forall q: nat, k: nat | q > 0 && k < CALLS && (q, k) in m'
        ensures d'.rows[k].count == m'[(q, k)]
      {
        assert (q, k) in m;
      }
    } else {
      var q: nat :| q > 0 && q != uid && (q, nr) in m;
      assert m'[(q, nr)] == m[(q, nr)] == d.rows[nr].count;
      assert Matching(d.rows[nr], uid, nr);
      assert d'.rows[nr].count != d.rows[nr].count;
    }
  }

  /** The same exactness with counts included. */
  lemma StepCountExact(reading: Reading, d: Direct, m: Blocked, req: Request)
    requires Mirrors(d, m) && CountsAgree(d, m) && Indexable(req)
    ensures Good(Step(reading, d, req).0)
    ensures HarmlessToCounts(reading, m, req) <==>
              Agrees(Step(reading, d, req).0, Intended(m, req).0)
              && CountsAgree(Step(reading, d, req).0, Intended(m, req).0)
  {
    StepExact(reading, d, m, req);
    if Harmless(reading, m, req) {
      MirrorsAgrees(Step(reading, d, req).0, Intended(m, req).0);
      match req {
        case Block(caller, proc, nr) =>
          if Authorised(caller, proc) {
            if HarmlessToCounts(reading, m, req) {
              BlockKeepsCounts(reading, d, m, caller, proc, nr);
            } else {
              BlockBreaksCounts(reading, d, m, caller, proc, nr);
            }
          }
        case Unblock(caller, proc, nr) => UnblockCounts(reading, d, m, caller, proc, nr);
        case Count(caller, proc, nr) =>
        case Intercept(uid, nr) => InterceptCounts(reading, d, m, uid, nr);
      }
    }
  }

  ghost predicate HarmlessToCountsAt(reading: Reading, run: seq<Request>, k: nat)
    requires AllIndexable(run) && k < |run|
  {
    HarmlessToCounts(reading, IntendedAfter(run[..k]), run[k])
  }

  /** After k requests findder answers and counts as the intended map does. */
  ghost predicate CountsAgreeAt(reading: Reading, run: seq<Request>, k: nat)
    requires AllIndexable(run) && k <= |run|
  {
    AgreesAt(reading, run, k) && CountsAgree(After(reading, run[..k]), IntendedAfter(run[..k]))
  }

  lemma CountsNext(reading: Reading, run: seq<Request>, k: nat)
    requires AllIndexable(run) && k < |run| && MirrorsAt(reading, run, k) && CountsAgreeAt(reading, run, k)
    ensures HarmlessToCountsAt(reading, run, k) <==> CountsAgreeAt(reading, run, k + 1)
  {
    PrefixAfter(reading, run, k);
    StepCountExact(reading, After(reading, run[..k]), IntendedAfter(run[..k]), run[k]);
  }

  lemma {:induction false} HarmlessRunCounts(reading: Reading, run: seq<Request>, k: nat)
    requires AllIndexable(run) && k <= |run|
    requires forall i :: 0 <= i < k ==> HarmlessToCountsAt(reading, run, i)
    ensures MirrorsAt(reading, run, k) && CountsAgreeAt(reading, run, k)
  {
    if k == 0 {
      MirrorsAtLoad(reading, run);
      MirrorsAgrees(After(reading, run[..0]), IntendedAfter(run[..0]));
      assert IntendedAfter(run[..0]) == map[];
    } else {
      HarmlessRunCounts(reading, run, k - 1);
      assert HarmlessToCountsAt(reading, run, k - 1);
      MirrorsNext(reading, run, k - 1);
      CountsNext(reading, run, k - 1);
    }
  }

  /** The code answers and counts for every non-root uid as the intended map does, throughout a run,
      exactly when every request of the run is harmless to the counts. */
  lemma RunCountExact(reading: Reading, run: seq<Request>)
    requires AllIndexable(run)
    ensures (forall k :: 0 <= k <= |run| ==> CountsAgreeAt(reading, run, k))
       <==> (forall k :: 0 <= k < |run| ==> HarmlessToCountsAt(reading, run, k))
  {
    if n: nat :| n < |run| && !HarmlessToCountsAt(reading, run, n) {
      var p := (i: nat) => i < |run| ==> HarmlessToCountsAt(reading, run, i);
      var k := FirstFailure(p, n);
      forall i | 0 <= i < k
        ensures HarmlessToCountsAt(reading, run, i)
      {
        assert p(i);
      }
      HarmlessRunCounts(reading, run, k);
      CountsNext(reading, run, k);
      assert !CountsAgreeAt(reading, run, k + 1);
    } else {
      forall k: nat | k <= |run|
        ensures CountsAgreeAt(reading, run, k)
      {
        HarmlessRunCounts(reading, run, k);
      }
    }
  }

  // ---- Return codes ----

  /** What a request about a non-root uid should return when m is blocked. */
  ghost predicate RightCode(m: Blocked, req: Request, code: int) {
    match req
    case Block(caller, proc, nr) =>
      code == if caller != proc && caller != 0 then -1 else if (proc, nr) in m then -17 else 0
    case Unblock(caller, proc, nr) =>
      code == if caller != proc && caller != 0 then -1 else if (proc, nr) in m then 0 else -17
    case Count(caller, proc, nr) =>
      if caller != 0 then code == -1 else if (proc, nr) in m then Counts(m[(proc, nr)], code) else code == -17
    case Intercept(uid, nr) => code == if (uid, nr) in m then 1 else 0
  }

  lemma EncodeExactly(m: Blocked, req: Request, code: int)
    requires Subject(req) > 0
    ensures code == Encode(Intended(m, req).1) <==> RightCode(m, req, code)
  {
    if req.Count? && (req.proc, req.nr) in m { AsIntExactly(m[(req.proc, req.nr)], code); }
  }

  /** The return codes for non-root uids are the right ones while the table mirrors the map; only the number that
      count returns needs the counts to agree too. */
  lemma AnswersMatch(reading: Reading, d: Direct, m: Blocked, req: Request)
    requires Mirrors(d, m) && Indexable(req) && Subject(req) > 0
    ensures (Intended(m, req).1.Value? ==> CountsAgree(d, m)) ==> RightCode(m, req, Step(reading, d, req).1)
  {
    EncodeExactly(m, req, Step(reading, d, req).1);
    BeginMirrors(d, m);
    match req {
      case Block(caller, proc, nr) => if Authorised(caller, proc) { assert RowMirrors(Begin(d).rows[nr], m, nr); }
      case Unblock(caller, proc, nr) => if Authorised(caller, proc) { assert RowMirrors(Begin(d).rows[nr], m, nr); }
      case Count(caller, proc, nr) => if caller == 0 { assert RowMirrors(Begin(d).rows[nr], m, nr); }
      case Intercept(uid, nr) => assert RowMirrors(d.rows[nr], m, nr);
    }
  }

  /** Every request about a non-root uid, whatever it is, would now be answered as the map says, apart from the
      number that count returns. */
  ghost predicate AnswersAll(reading: Reading, d: Direct, m: Blocked)
    requires Good(d)
  {
    forall req: Request :: Indexable(req) && Subject(req) > 0 && !Intended(m, req).1.Value? ==>
      RightCode(m, req, Step(reading, d, req).1)
  }

  ghost predicate AnswersAllAt(reading: Reading, run: seq<Request>, k: nat)
    requires AllIndexable(run) && k <= |run|
  {
    AnswersAll(reading, After(reading, run[..k]), IntendedAfter(run[..k]))
  }

  lemma AnswersAgree(reading: Reading, d: Direct, m: Blocked)
    requires Good(d) && AnswersAll(reading, d, m)
    ensures Agrees(d, m)
  {
    forall uid: nat, nr: nat | uid > 0 && nr < CALLS
      ensures Blocks(d, uid, nr) <==> (uid, nr) in m
    {
      assert RightCode(m, Intercept(uid, nr), Step(reading, d, Intercept(uid, nr)).1);
    }
  }

  /** Throughout a run every request about a non-root uid would be answered as intended, exactly when every
      request of the run is harmless. */
  lemma RunAnswersExact(reading: Reading, run: seq<Request>)
    requires AllIndexable(run)
    ensures (forall k :: 0 <= k <= |run| ==> AnswersAllAt(reading, run, k))
       <==> (forall k :: 0 <= k < |run| ==> HarmlessAt(reading, run, k))
  {
    RunExact(reading, run);
    if forall k :: 0 <= k < |run| ==> HarmlessAt(reading, run, k) {
      forall k: nat | k <= |run|
        ensures AnswersAllAt(reading, run, k)
      {
        HarmlessRunMirrors(reading, run, k);
        var d, m := After(reading, run[..k]), IntendedAfter(run[..k]);
        forall req: Request | Indexable(req) && Subject(req) > 0 && !Intended(m, req).1.Value?
          ensures RightCode(m, req, Step(reading, d, req).1)
        {
          AnswersMatch(reading, d, m, req);
        }
      }
    } else if forall k :: 0 <= k <= |run| ==> AnswersAllAt(reading, run, k) {
      forall k: nat | k <= |run|
        ensures AgreesAt(reading, run, k)
      {
        assert AnswersAllAt(reading, run, k);
        AnswersAgree(reading, After(reading, run[..k]), IntendedAfter(run[..k]));
      }
    }
  }

  /** As written, blocking and then unblocking a pair leaves findder answering as before exactly when nobody
      else is blocked for the call. */
  lemma BlockThenUnblockExact(d: Direct, m: Blocked, caller: nat, proc: nat, nr: nat)
    requires Mirrors(d, m) && proc > 0 && nr < CALLS && Authorised(caller, proc) && (proc, nr) !in m
    ensures var d' := Step(AsWritten, d, Block(caller, proc, nr)).0;
            Good(d') && Good(Step(AsWritten, d', Unblock(caller, proc, nr)).0)
            && (Agrees(Step(AsWritten, d', Unblock(caller, proc, nr)).0, m) <==> !Shared(m, proc, nr))
  {
    var a, b := Block(caller, proc, nr), Unblock(caller, proc, nr);
    var d', m' := Step(AsWritten, d, a).0, Intended(m, a).0;
    StepExact(AsWritten, d, m, a);
    StepGood(AsWritten, d', b);
    BlockThenUnblock(m, caller, proc, nr);
    if Harmless(AsWritten, m, a) {
      StepExact(AsWritten, d', m', b);
      if !Shared(m, proc, nr) { MirrorsAgrees(Step(AsWritten, d', b).0, m); }
    } else {
      var q: nat :| q > 0 && q != proc && (q, nr) in m && Slot(q) == Slot(proc);
      assert !Blocks(Step(AsWritten, d', b).0, q, nr);
    }
  }
}
