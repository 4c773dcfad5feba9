/** The chained table of project 2/proj2/kernel/proj2_copy.c: for every system call a table of buckets,
    each a list with one entry per blocked uid. The kernel's hash of a uid is a parameter h. */
module ChainedTable {
  import opened Errno
  import opened Sandbox

  datatype Entry = Entry(proc: int, call: nat, count: nat)

  type Bucket = seq<Entry>

  /** tables[nr][b] is bucket b of system call nr. */
  type Tables = seq<seq<Bucket>>

  // ---- One bucket ----

  /** The position of the first entry for the pair at or after i, or the length of the bucket. */
  function Find(b: Bucket, proc: int, nr: nat, i: nat): (k: nat)
    requires i <= |b|
    ensures i <= k <= |b|
    ensures k < |b| ==> b[k].proc == proc && b[k].call == nr
    ensures forall j :: i <= j < k ==> !(b[j].proc == proc && b[j].call == nr)
    decreases |b| - i
  {
    if i == |b| || (b[i].proc == proc && b[i].call == nr) then i else Find(b, proc, nr, i + 1)
  }

  predicate Listed(b: Bucket, proc: int, nr: nat) {
    Find(b, proc, nr, 0) < |b|
  }

  /** hash_add puts the new entry at the head of its bucket. */
  function Added(b: Bucket, proc: int, nr: nat): Bucket {
    [Entry(proc, nr, 0)] + b
  }

  function Deleted(b: Bucket, k: nat): Bucket
    requires k < |b|
  {
    b[..k] + b[k + 1..]
  }

  function Bumped(b: Bucket, k: nat): Bucket
    requires k < |b|
  {
    b[k := b[k].(count := Increment(b[k].count))]
  }

  /** Bucket number x of call nr: entries of that call and bucket only, at most one for each uid. */
  ghost predicate GoodBucket(h: int -> nat, b: Bucket, nr: nat, x: nat) {
    && (forall i :: 0 <= i < |b| ==> b[i].call == nr && h(b[i].proc) == x)
    && (forall i, j :: 0 <= i < j < |b| ==> b[i].proc != b[j].proc)
  }

  /** The bucket lists exactly the pairs of the map that belong to it, with their counts. */
  ghost predicate BucketRefines(h: int -> nat, b: Bucket, m: Blocked, nr: nat, x: nat) {
    forall p: int :: h(p) == x ==>
      (Listed(b, p, nr) <==> (p, nr) in m)
      && (Listed(b, p, nr) ==> b[Find(b, p, nr, 0)].count == m[(p, nr)])
  }

  lemma FindUnique(h: int -> nat, b: Bucket, nr: nat, x: nat, k: nat)
    requires GoodBucket(h, b, nr, x) && k < |b|
    ensures Find(b, b[k].proc, nr, 0) == k
  {
    var f := Find(b, b[k].proc, nr, 0);
    assert b[k].call == nr;
    assert f <= k;
    assert b[f].proc == b[k].proc;
  }

  lemma NotListed(b: Bucket, proc: int, nr: nat)
    ensures !Listed(b, proc, nr) <==> forall i :: 0 <= i < |b| ==> !(b[i].proc == proc && b[i].call == nr)
  {
    var k := Find(b, proc, nr, 0);
  }

  lemma {:induction false} FindSame(b: Bucket, t: Bucket, proc: int, nr: nat, i: nat)
    requires |b| == |t| && i <= |b|
    requires forall j :: 0 <= j < |b| ==> b[j].proc == t[j].proc && b[j].call == t[j].call
    ensures Find(b, proc, nr, i) == Find(t, proc, nr, i)
    decreases |b| - i
  {
    if i == |b| {
    } else {
      FindSame(b, t, proc, nr, i + 1);
    }
  }

  lemma AddedIsGood(h: int -> nat, b: Bucket, proc: int, nr: nat, x: nat)
    requires GoodBucket(h, b, nr, x) && h(proc) == x && !Listed(b, proc, nr)
    ensures GoodBucket(h, Added(b, proc, nr), nr, x)
  {
    NotListed(b, proc, nr);
    assert forall i :: 1 <= i < |b| + 1 ==> Added(b, proc, nr)[i] == b[i - 1];
  }

  lemma AddedRefines(h: int -> nat, b: Bucket, m: Blocked, proc: int, nr: nat, x: nat)
    requires GoodBucket(h, b, nr, x) && BucketRefines(h, b, m, nr, x) && h(proc) == x && !Listed(b, proc, nr)
    ensures GoodBucket(h, Added(b, proc, nr), nr, x)
    ensures BucketRefines(h, Added(b, proc, nr), m[(proc, nr) := 0], nr, x)
  {
    var t, m' := Added(b, proc, nr), m[(proc, nr) := 0];
    AddedIsGood(h, b, proc, nr, x);
    forall p: int | h(p) == x
      ensures Listed(t, p, nr) <==> (p, nr) in m'
      ensures Listed(t, p, nr) ==> t[Find(t, p, nr, 0)].count == m'[(p, nr)]
    {
      if p == proc {
        FindUnique(h, t, nr, x, 0);
      } else if Listed(b, p, nr) {
        assert t[Find(b, p, nr, 0) + 1] == b[Find(b, p, nr, 0)];
        FindUnique(h, t, nr, x, Find(b, p, nr, 0) + 1);
      } else {
        NotListed(b, p, nr);
        NotListed(t, p, nr);
      }
    }
  }

  lemma DeletedBucket(h: int -> nat, b: Bucket, nr: nat, x: nat, k: nat)
    requires GoodBucket(h, b, nr, x) && k < |b|
    ensures GoodBucket(h, Deleted(b, k), nr, x)
    ensures forall i :: 0 <= i < |b| - 1 ==> Deleted(b, k)[i] == b[if i < k then i else i + 1]
  {
  }

  /** What deleting entry k does to the entry of one uid. */
  lemma DeletedEntry(h: int -> nat, b: Bucket, nr: nat, x: nat, k: nat, p: int)
    requires GoodBucket(h, b, nr, x) && k < |b|
    ensures p == b[k].proc || !Listed(b, p, nr) ==> !Listed(Deleted(b, k), p, nr)
    ensures p != b[k].proc && Listed(b, p, nr) ==>
              Listed(Deleted(b, k), p, nr) && Deleted(b, k)[Find(Deleted(b, k), p, nr, 0)] == b[Find(b, p, nr, 0)]
  {
    var t := Deleted(b, k);
    DeletedBucket(h, b, nr, x, k);
    if p != b[k].proc && Listed(b, p, nr) {
      var f := Find(b, p, nr, 0);
      var g := if f < k then f else f - 1;
      assert t[g] == b[f];
      FindUnique(h, t, nr, x, g);
    } else {
      NotListed(b, p, nr);
      NotListed(t, p, nr);
    }
  }

  lemma DeletedRefines(h: int -> nat, b: Bucket, m: Blocked, proc: int, nr: nat, x: nat)
    requires GoodBucket(h, b, nr, x) && BucketRefines(h, b, m, nr, x) && h(proc) == x && Listed(b, proc, nr)
    ensures GoodBucket(h, Deleted(b, Find(b, proc, nr, 0)), nr, x)
    ensures BucketRefines(h, Deleted(b, Find(b, proc, nr, 0)), m - {(proc, nr)}, nr, x)
  {
    var k := Find(b, proc, nr, 0);
    var t, m' := Deleted(b, k), m - {(proc, nr)};
    DeletedBucket(h, b, nr, x, k);
    forall p: int | h(p) == x
      ensures Listed(t, p, nr) <==> (p, nr) in m'
      ensures Listed(t, p, nr) ==> t[Find(t, p, nr, 0)].count == m'[(p, nr)]
    {
      DeletedEntry(h, b, nr, x, k, p);
    }
  }

  lemma BumpedSameKeys(b: Bucket, k: nat)
    requires k < |b|
    ensures forall i :: 0 <= i < |b| ==> Bumped(b, k)[i].proc == b[i].proc && Bumped(b, k)[i].call == b[i].call
  {
  }

  lemma BumpedRefines(h: int -> nat, b: Bucket, m: Blocked, proc: int, nr: nat, x: nat)
    requires GoodBucket(h, b, nr, x) && BucketRefines(h, b, m, nr, x) && h(proc) == x && Listed(b, proc, nr)
    ensures GoodBucket(h, Bumped(b, Find(b, proc, nr, 0)), nr, x)
    ensures BucketRefines(h, Bumped(b, Find(b, proc, nr, 0)), m[(proc, nr) := Increment(m[(proc, nr)])], nr, x)
  {
    var k := Find(b, proc, nr, 0);
    var t, m' := Bumped(b, k), m[(proc, nr) := Increment(m[(proc, nr)])];
    BumpedSameKeys(b, k);
    forall p: int | h(p) == x
      ensures Listed(t, p, nr) <==> (p, nr) in m'
      ensures Listed(t, p, nr) ==> t[Find(t, p, nr, 0)].count == m'[(p, nr)]
    {
      FindSame(b, t, p, nr, 0);
    }
  }

  // ---- The whole table ----

  ghost predicate Good(h: int -> nat, buckets: nat, t: Tables) {
    && (forall p: int :: h(p) < buckets)
    && |t| == CALLS
    && (forall nr: nat :: nr < CALLS ==> |t[nr]| == buckets)
    && (forall nr: nat, x: nat :: nr < CALLS && x < buckets ==> GoodBucket(h, t[nr][x], nr, x))
  }

  /** The table holds exactly the pairs of the map. */
  ghost predicate Refines(h: int -> nat, buckets: nat, t: Tables, m: Blocked) {
    && Good(h, buckets, t)
    && (forall nr: nat, x: nat :: nr < CALLS && x < buckets ==> BucketRefines(h, t[nr][x], m, nr, x))
  }

  function Put(t: Tables, nr: nat, x: nat, b: Bucket): Tables
    requires nr < |t| && x < |t[nr]|
  {
    t[nr := t[nr][x := b]]
  }

  /** Replacing one bucket while the map changes for one pair leaves every other bucket right. */
  lemma PutRefines(h: int -> nat, buckets: nat, t: Tables, m: Blocked, m': Blocked, proc: int, nr: nat, b: Bucket)
    requires Refines(h, buckets, t, m) && nr < CALLS
    requires forall q: (int, int) :: q != (proc, nr) ==> (q in m <==> q in m') && (q in m ==> m[q] == m'[q])
    requires GoodBucket(h, b, nr, h(proc)) && BucketRefines(h, b, m', nr, h(proc))
    ensures Refines(h, buckets, Put(t, nr, h(proc), b), m')
  {
    var t' := Put(t, nr, h(proc), b);
    forall k: nat, x: nat | k < CALLS && x < buckets
      ensures GoodBucket(h, t'[k][x], k, x) && BucketRefines(h, t'[k][x], m', k, x)
    {
      assert GoodBucket(h, t[k][x], k, x) && BucketRefines(h, t[k][x], m, k, x);
      if k != nr || x != h(proc) {
        assert t'[k][x] == t[k][x];
        forall p: int | h(p) == x
          ensures Listed(t[k][x], p, k) <==> (p, k) in m'
          ensures Listed(t[k][x], p, k) ==> t[k][x][Find(t[k][x], p, k, 0)].count == m'[(p, k)]
        {
          assert (p, k) != (proc, nr);
        }
      }
    }
  }

  /** The requests that stay inside permList: as in proj2.c there is no check of nr. */
  predicate InTable(req: Request) {
    match req
    case Block(caller, proc, nr) => Authorised(caller, proc) ==> nr < CALLS
    case Unblock(caller, proc, nr) => Authorised(caller, proc) ==> nr < CALLS
    case Count(caller, proc, nr) => caller == 0 && proc != 0 ==> nr < CALLS
    case Intercept(_, nr) => nr < CALLS
  }

  /** One request with kmalloc succeeding: the new tables and the return code. A successful block falls
      through to the last line of the function and returns -EPERM. Intercept reads findder as it is
      meant: it looks for its own uid and adds one to that entry's count. */
  ghost function Step(h: int -> nat, buckets: nat, t: Tables, req: Request): (Tables, int)
    requires Good(h, buckets, t) && InTable(req)
  {
    match req
    case Block(caller, proc, nr) =>
      if !Authorised(caller, proc) then (t, -EPERM)
      else if Listed(t[nr][h(proc)], proc, nr) then (t, -EEXIST)
      else (Put(t, nr, h(proc), Added(t[nr][h(proc)], proc, nr)), -EPERM)
    case Unblock(caller, proc, nr) =>
      if !Authorised(caller, proc) then (t, -EPERM)
      else
        var k := Find(t[nr][h(proc)], proc, nr, 0);
        if k < |t[nr][h(proc)]| then (Put(t, nr, h(proc), Deleted(t[nr][h(proc)], k)), 0) else (t, -ENOENT)
    case Count(caller, proc, nr) =>
      (t, if caller != 0 then -EPERM
          else if proc == 0 then -EINVAL
          else
            var k := Find(t[nr][h(proc)], proc, nr, 0);
            if k < |t[nr][h(proc)]| then t[nr][h(proc)][k].count else -EEXIST)
    case Intercept(uid, nr) =>
      var k := Find(t[nr][h(uid)], uid, nr, 0);
      if k < |t[nr][h(uid)]| then (Put(t, nr, h(uid), Bumped(t[nr][h(uid)], k)), 1) else (t, 0)
  }

  /** The return code for an intended answer to a request. */
  function Encode(req: Request, answer: Answer): int {
    match answer
    case Done => if req.Block? then -EPERM else 0
    case Duplicate => -EEXIST
    case Missing => if req.Unblock? then -ENOENT else -EEXIST
    case Denied => -EPERM
    case Invalid => -EINVAL
    case Value(count) => count
    case Refused => 1
    case Allowed => 0
  }

  /** What a request should return, kmalloc succeeding, when m is blocked; a successful block returns -EPERM. */
  predicate RightCode(m: Blocked, req: Request, code: int) {
    code ==
      match req
      case Block(caller, proc, nr) => if (caller == proc || caller == 0) && (proc, nr) in m then -17 else -1
      case Unblock(caller, proc, nr) =>
        if caller != proc && caller != 0 then -1 else if (proc, nr) in m then 0 else -2
      case Count(caller, proc, nr) =>
        if caller != 0 then -1 else if proc == 0 then -22 else if (proc, nr) in m then m[(proc, nr)] else -17
      case Intercept(uid, nr) => if (uid, nr) in m then 1 else 0
  }

  /** Every return code is the right one while the table stands for the map, also for negative uids. */
  lemma CodesExactly(h: int -> nat, buckets: nat, t: Tables, m: Blocked, req: Request)
    requires Refines(h, buckets, t, m) && InTable(req)
    ensures RightCode(m, req, Step(h, buckets, t, req).1)
  {
    match req {
      case Block(caller, proc, nr) => if Authorised(caller, proc) { ListedExactly(h, buckets, t, m, proc, nr); }
      case Unblock(caller, proc, nr) => if Authorised(caller, proc) { ListedExactly(h, buckets, t, m, proc, nr); }
      case Count(caller, proc, nr) => if caller == 0 && proc != 0 { ListedExactly(h, buckets, t, m, proc, nr); }
      case Intercept(uid, nr) => ListedExactly(h, buckets, t, m, uid, nr);
    }
  }

  lemma ListedExactly(h: int -> nat, buckets: nat, t: Tables, m: Blocked, proc: int, nr: nat)
    requires Refines(h, buckets, t, m) && nr < CALLS
    ensures GoodBucket(h, t[nr][h(proc)], nr, h(proc)) && BucketRefines(h, t[nr][h(proc)], m, nr, h(proc))
    ensures Listed(t[nr][h(proc)], proc, nr) <==> (proc, nr) in m
    ensures Listed(t[nr][h(proc)], proc, nr) ==>
              t[nr][h(proc)][Find(t[nr][h(proc)], proc, nr, 0)].count == m[(proc, nr)]
  {
    assert h(proc) < buckets;
  }

  lemma BlockRefines(h: int -> nat, buckets: nat, t: Tables, m: Blocked, proc: int, nr: nat)
    requires Refines(h, buckets, t, m) && nr < CALLS && (proc, nr) !in m
    ensures h(proc) < |t[nr]| && Refines(h, buckets, Put(t, nr, h(proc), Added(t[nr][h(proc)], proc, nr)), m[(proc, nr) := 0])
  {
    ListedExactly(h, buckets, t, m, proc, nr);
    var b := t[nr][h(proc)];
    AddedRefines(h, b, m, proc, nr, h(proc));
    PutRefines(h, buckets, t, m, m[(proc, nr) := 0], proc, nr, Added(b, proc, nr));
  }

  lemma UnblockRefines(h: int -> nat, buckets: nat, t: Tables, m: Blocked, proc: int, nr: nat)
    requires Refines(h, buckets, t, m) && nr < CALLS && (proc, nr) in m
    ensures h(proc) < |t[nr]| && Listed(t[nr][h(proc)], proc, nr)
    ensures Refines(h, buckets, Put(t, nr, h(proc), Deleted(t[nr][h(proc)], Find(t[nr][h(proc)], proc, nr, 0))),
                    m - {(proc, nr)})
  {
    ListedExactly(h, buckets, t, m, proc, nr);
    var b := t[nr][h(proc)];
    DeletedRefines(h, b, m, proc, nr, h(proc));
    PutRefines(h, buckets, t, m, m - {(proc, nr)}, proc, nr, Deleted(b, Find(b, proc, nr, 0)));
  }

  lemma InterceptRefines(h: int -> nat, buckets: nat, t: Tables, m: Blocked, uid: int, nr: nat)
    requires Refines(h, buckets, t, m) && nr < CALLS && (uid, nr) in m
    ensures h(uid) < |t[nr]| && Listed(t[nr][h(uid)], uid, nr)
    ensures Refines(h, buckets, Put(t, nr, h(uid), Bumped(t[nr][h(uid)], Find(t[nr][h(uid)], uid, nr, 0))),
                    m[(uid, nr) := Increment(m[(uid, nr)])])
  {
    ListedExactly(h, buckets, t, m, uid, nr);
    var b := t[nr][h(uid)];
    BumpedRefines(h, b, m, uid, nr, h(uid));
    PutRefines(h, buckets, t, m, m[(uid, nr) := Increment(m[(uid, nr)])], uid, nr, Bumped(b, Find(b, uid, nr, 0)));
  }

  /** sbx421_count with a negative uid is looked up here, where proj2.c refuses it. */
  predicate NegativeCount(req: Request) {
    req.Count? && req.caller == 0 && req.proc < 0
  }

  /** The step keeps the table equal to the intended map and gives the intended answer. */
  ghost predicate StepCorrect(h: int -> nat, buckets: nat, t: Tables, m: Blocked, req: Request)
    requires Good(h, buckets, t) && InTable(req)
  {
    && Refines(h, buckets, Step(h, buckets, t, req).0, Intended(m, req).0)
    && (!NegativeCount(req) ==> Step(h, buckets, t, req).1 == Encode(req, Intended(m, req).1))
  }

  lemma StepBlock(h: int -> nat, buckets: nat, t: Tables, m: Blocked, caller: nat, proc: int, nr: nat)
    requires Refines(h, buckets, t, m) && InTable(Block(caller, proc, nr))
    ensures StepCorrect(h, buckets, t, m, Block(caller, proc, nr))
  {
    if Authorised(caller, proc) {
      ListedExactly(h, buckets, t, m, proc, nr);
      if (proc, nr) !in m { BlockRefines(h, buckets, t, m, proc, nr); }
    }
  }

  lemma StepUnblock(h: int -> nat, buckets: nat, t: Tables, m: Blocked, caller: nat, proc: int, nr: nat)
    requires Refines(h, buckets, t, m) && InTable(Unblock(caller, proc, nr))
    ensures StepCorrect(h, buckets, t, m, Unblock(caller, proc, nr))
  {
    if Authorised(caller, proc) {
      ListedExactly(h, buckets, t, m, proc, nr);
      if (proc, nr) in m { UnblockRefines(h, buckets, t, m, proc, nr); }
    }
  }

  lemma StepIntercept(h: int -> nat, buckets: nat, t: Tables, m: Blocked, uid: nat, nr: nat)
    requires Refines(h, buckets, t, m) && nr < CALLS
    ensures StepCorrect(h, buckets, t, m, Intercept(uid, nr))
  {
    ListedExactly(h, buckets, t, m, uid, nr);
    if (uid, nr) in m { InterceptRefines(h, buckets, t, m, uid, nr); }
  }

  /** Every request keeps the table equal to the intended map and gets the intended answer. */
  lemma StepRefines(h: int -> nat, buckets: nat, t: Tables, m: Blocked, req: Request)
    requires Refines(h, buckets, t, m) && InTable(req)
    ensures StepCorrect(h, buckets, t, m, req)
  {
    match req {
      case Block(caller, proc, nr) => StepBlock(h, buckets, t, m, caller, proc, nr);
      case Unblock(caller, proc, nr) => StepUnblock(h, buckets, t, m, caller, proc, nr);
      case Count(caller, proc, nr) =>
        if caller == 0 && proc != 0 { ListedExactly(h, buckets, t, m, proc, nr); }
      case Intercept(uid, nr) => StepIntercept(h, buckets, t, m, uid, nr);
    }
  }

  // ---- Whole runs ----

  function Empty(buckets: nat): Tables {
    seq(CALLS, _ => seq(buckets, _ => []))
  }

  ghost predicate AllInTable(run: seq<Request>) {
    forall i :: 0 <= i < |run| ==> InTable(run[i])
  }

  lemma EmptyRefines(h: int -> nat, buckets: nat)
    requires forall p: int :: h(p) < buckets
    ensures Refines(h, buckets, Empty(buckets), map[])
  {
  }

  /** The tables after a run. */
  ghost function After(h: int -> nat, buckets: nat, run: seq<Request>): (t: Tables)
    requires (forall p: int :: h(p) < buckets) && AllInTable(run)
    ensures Refines(h, buckets, t, IntendedAfter(run))
  {
    if run == [] then
      EmptyRefines(h, buckets);
      Empty(buckets)
    else
      var front, last := run[..|run| - 1], run[|run| - 1];
      StepRefines(h, buckets, After(h, buckets, front), IntendedAfter(front), last);
      Step(h, buckets, After(h, buckets, front), last).0
  }

  /** After any run the table lists a pair exactly when the map has it, with its count, and never twice. */
  lemma RunRefines(h: int -> nat, buckets: nat, run: seq<Request>, proc: int, nr: nat)
    requires (forall p: int :: h(p) < buckets) && AllInTable(run) && nr < CALLS
    ensures var m := IntendedAfter(run);
            var b := After(h, buckets, run)[nr][h(proc)];
            && (Listed(b, proc, nr) <==> (proc, nr) in m)
            && (Listed(b, proc, nr) ==> b[Find(b, proc, nr, 0)].count == m[(proc, nr)])
            && (forall i, j :: 0 <= i < j < |b| ==> !(b[i].proc == proc && b[j].proc == proc))
  {
    ListedExactly(h, buckets, After(h, buckets, run), IntendedAfter(run), proc, nr);
  }

  /** Unblocking right after a successful block restores the tables themselves, whatever else they hold. */
  lemma BlockThenUnblock(h: int -> nat, buckets: nat, t: Tables, caller: nat, proc: int, nr: nat)
    requires Good(h, buckets, t) && nr < CALLS && Authorised(caller, proc) && !Listed(t[nr][h(proc)], proc, nr)
    ensures var t' := Step(h, buckets, t, Block(caller, proc, nr)).0;
            Good(h, buckets, t') && Step(h, buckets, t', Unblock(caller, proc, nr)) == (t, 0)
  {
    var x, b := h(proc), t[nr][h(proc)];
    var t' := Step(h, buckets, t, Block(caller, proc, nr)).0;
    assert GoodBucket(h, b, nr, x);
    AddedIsGood(h, b, proc, nr, x);
    forall k: nat, y: nat | k < CALLS && y < buckets
      ensures GoodBucket(h, t'[k][y], k, y)
    {
      assert GoodBucket(h, t[k][y], k, y);
    }
    assert Find(Added(b, proc, nr), proc, nr, 0) == 0;
    assert Deleted(Added(b, proc, nr), 0) == b;
    assert t[nr := t[nr][x := Added(b, proc, nr)]][nr := t[nr]] == t;
    assert t[nr][x := Added(b, proc, nr)][x := b] == t[nr];
  }

  // ---- findder as written ----

  /** findder as written: it walks the uid's bucket but compares the number with procHash->call, a word in
      the header of the row that no function assigns. `headers` is what those words hold. */
  predicate WrittenFindder(headers: seq<nat>, h: int -> nat, t: Tables, uid: int, nr: nat)
    requires nr < |t| && nr < |headers| && h(uid) < |t[nr]|
  {
    |t[nr][h(uid)]| > 0 && headers[nr] == nr
  }

  /** Some blocked uid shares the bucket of uid. */
  ghost predicate BucketInUse(h: int -> nat, m: Blocked, uid: int, nr: nat) {
    exists q: int :: h(q) == h(uid) && (q, nr) in m
  }

  lemma BucketInUseExactly(h: int -> nat, buckets: nat, t: Tables, m: Blocked, uid: int, nr: nat)
    requires Refines(h, buckets, t, m) && nr < CALLS
    ensures BucketInUse(h, m, uid, nr) <==> |t[nr][h(uid)]| > 0
  {
    ListedExactly(h, buckets, t, m, uid, nr);
    var b := t[nr][h(uid)];
    if |b| > 0 {
      FindUnique(h, b, nr, h(uid), 0);
      assert Listed(b, b[0].proc, nr);
      assert h(b[0].proc) == h(uid) && (b[0].proc, nr) in m;
    }
    if q: int :| h(q) == h(uid) && (q, nr) in m {
      assert Listed(b, q, nr);
    }
  }

  /** As written a uid is refused exactly when the header word of the row happens to be the call number and
      some blocked uid shares its bucket. The answer is right exactly when: with such a header, the uid itself
      is blocked or its bucket is unused; with any other header, the uid is not blocked. */
  lemma WrittenFindderExact(headers: seq<nat>, h: int -> nat, buckets: nat, t: Tables, m: Blocked, uid: int, nr: nat)
    requires Refines(h, buckets, t, m) && nr < CALLS == |headers|
    ensures WrittenFindder(headers, h, t, uid, nr) <==> headers[nr] == nr && BucketInUse(h, m, uid, nr)
    ensures (WrittenFindder(headers, h, t, uid, nr) <==> (uid, nr) in m)
       <==> if headers[nr] == nr then (uid, nr) in m || !BucketInUse(h, m, uid, nr) else (uid, nr) !in m
  {
    BucketInUseExactly(h, buckets, t, m, uid, nr);
    ListedExactly(h, buckets, t, m, uid, nr);
    assert (uid, nr) in m ==> BucketInUse(h, m, uid, nr);
  }

  // ---- The lock after a failed allocation ----

  /** What a call comes to: it waits for the lock, or it returns. */
  datatype Ending = Waits | Returns(code: int)

  predicate TakesLock(req: Request) {
    match req
    case Block(caller, proc, _) => Authorised(caller, proc)
    case Unblock(caller, proc, _) => Authorised(caller, proc)
    case Count(caller, proc, _) => caller == 0 && proc != 0
    case Intercept(_, _) => false
  }

  /** A request with the lock: the map, whether the lock is held afterwards, and how the call ends. `granted` is
      whether kmalloc succeeds. */
  function WithLock(m: Blocked, held: bool, req: Request, granted: bool): (Blocked, bool, Ending) {
    if held && TakesLock(req) then (m, true, Waits)
    else if req.Block? && Intended(m, req).1 == Done && !granted then (m, true, Returns(-ENOMEM))
    else if NegativeCount(req) && (req.proc, req.nr) in m then (m, held, Returns(m[(req.proc, req.nr)]))
    else if NegativeCount(req) then (m, held, Returns(-EEXIST))
    else (Intended(m, req).0, held, Returns(Encode(req, Intended(m, req).1)))
  }

  function LockAfter(m: Blocked, held: bool, run: seq<(Request, bool)>): (Blocked, bool) {
    if run == [] then (m, held)
    else
      var before := LockAfter(m, held, run[..|run| - 1]);
      var r := WithLock(before.0, before.1, run[|run| - 1].0, run[|run| - 1].1);
      (r.0, r.1)
  }

  /** Once an allocation has failed, whatever happens then, the set of blocked pairs is frozen, and every block and
      unblock by the uid itself or root and every count of another uid by root waits for ever; all other calls
      return. */
  lemma {:induction false} HeldForEver(m: Blocked, run: seq<(Request, bool)>, req: Request, granted: bool)
    ensures var s := LockAfter(m, true, run);
            && s.1 && s.0.Keys == m.Keys && WithLock(s.0, s.1, req, granted).0.Keys == m.Keys
            && WithLock(s.0, s.1, req, granted).1
            && WithLock(s.0, s.1, req, granted).2 ==
                 match req
                 case Block(caller, proc, _) => if caller == proc || caller == 0 then Waits else Returns(-1)
                 case Unblock(caller, proc, _) => if caller == proc || caller == 0 then Waits else Returns(-1)
                 case Count(caller, proc, _) =>
                   if caller != 0 then Returns(-1) else if proc == 0 then Returns(-22) else Waits
                 case Intercept(uid, nr) => Returns(if (uid, nr) in m then 1 else 0)
  {
    if run == [] {
    } else {
      HeldForEver(m, run[..|run| - 1], req, granted);
    }
  }

  // ---- The table as an object ----

  class ChainedTables {
    const permList: array<seq<Bucket>>
    const h: int -> nat
    const buckets: nat
    /** lockTable is held. */
    var locked: bool
    /** The blocked pairs that the lists stand for. */
    ghost var model: Blocked

    ghost predicate Valid()
      reads this, permList
    {
      Refines(h, buckets, permList[..], model)
    }

    /** Starts with the tables that initalizeHash is meant to set up. */
    constructor (h: int -> nat, buckets: nat)
      requires forall p: int :: h(p) < buckets
      ensures Valid() && fresh(permList) && this.h == h && this.buckets == buckets
      ensures model == map[] && !locked
    {
      this.h, this.buckets, locked, model := h, buckets, false, map[];
      permList := new seq<Bucket>[CALLS](_ => seq(buckets, _ => []));
      new;
      EmptyRefines(h, buckets);
      assert permList[..] == Empty(buckets);
    }

    /** The loop over a bucket that every operation runs. */
    method Search(proc: int, nr: nat) returns (k: nat)
      requires Valid() && nr < CALLS
      ensures h(proc) < |permList[nr]| && k == Find(permList[nr][h(proc)], proc, nr, 0)
      ensures k < |permList[nr][h(proc)]| <==> (proc, nr) in model
      ensures (proc, nr) in model ==> permList[nr][h(proc)][k].count == model[(proc, nr)]
    {
      ListedExactly(h, buckets, permList[..], model, proc, nr);
      var b := permList[nr][h(proc)];
      k := 0;
      while k < |b|
        invariant 0 <= k <= |b|
        invariant Find(b, proc, nr, 0) == Find(b, proc, nr, k)
      {
        if b[k].proc == proc && b[k].call == nr {
          return;
        }
        k := k + 1;
      }
    }

    method SetBucket(nr: nat, x: nat, b: Bucket)
      requires permList.Length == CALLS && nr < CALLS && x < |permList[nr]|
      modifies permList
      ensures permList[..] == Put(old(permList[..]), nr, x, b)
    {
      permList[nr] := permList[nr][x := b];
    }

    /** `granted` is whether kmalloc succeeds. When it fails the function returns with the lock held.
        A successful block falls through to the final line and returns -EPERM. */
    method Block(caller: nat, proc: int, nr: nat, granted: bool) returns (code: int)
      requires Valid() && InTable(Request.Block(caller, proc, nr))
      requires locked ==> !TakesLock(Request.Block(caller, proc, nr))
      modifies this, permList
      ensures Valid()
      ensures var req := Request.Block(caller, proc, nr);
              var out := Intended(old(model), req).1 == Done && !granted;
              && (locked <==> old(locked) || out)
              && model == (if out then old(model) else Intended(old(model), req).0)
              && code == (if out then -ENOMEM else Encode(req, Intended(old(model), req).1))
              && WithLock(old(model), old(locked), req, granted) == (model, locked, Returns(code))
    {
      if caller == proc || caller == 0 {
        locked := true;
        var k := Search(proc, nr);
        if k < |permList[nr][h(proc)]| {
          locked := false;
          return -EEXIST;
        }
        if !granted {
          return -ENOMEM;
        }
        BlockRefines(h, buckets, permList[..], model, proc, nr);
        SetBucket(nr, h(proc), Added(permList[nr][h(proc)], proc, nr));
        model := model[(proc, nr) := 0];
        locked := false;
      } else {
        return -EPERM;
      }
      return -EPERM;
    }

    method Unblock(caller: nat, proc: int, nr: nat) returns (code: int)
      requires Valid() && InTable(Request.Unblock(caller, proc, nr))
      requires locked ==> !TakesLock(Request.Unblock(caller, proc, nr))
      modifies this, permList
      ensures Valid() && locked == old(locked)
      ensures model == Intended(old(model), Request.Unblock(caller, proc, nr)).0
      ensures code == Encode(Request.Unblock(caller, proc, nr), Intended(old(model), Request.Unblock(caller, proc, nr)).1)
      ensures WithLock(old(model), locked, Request.Unblock(caller, proc, nr), true) == (model, locked, Returns(code))
    {
      if caller == proc || caller == 0 {
        locked := true;
        var k := Search(proc, nr);
        if k < |permList[nr][h(proc)]| {
          UnblockRefines(h, buckets, permList[..], model, proc, nr);
          SetBucket(nr, h(proc), Deleted(permList[nr][h(proc)], k));
          model := model - {(proc, nr)};
          locked := false;
          return 0;
        }
        locked := false;
      } else {
        return -EPERM;
      }
      return -ENOENT;
    }

    method Count(caller: nat, proc: int, nr: nat) returns (code: int)
      requires Valid() && InTable(Request.Count(caller, proc, nr))
      requires locked ==> !TakesLock(Request.Count(caller, proc, nr))
      modifies this`locked
      ensures Valid() && locked == old(locked)
      ensures code == if caller != 0 then -EPERM
                      else if proc == 0 then -EINVAL
                      else if (proc, nr) in model then model[(proc, nr)] else -EEXIST
      ensures WithLock(model, locked, Request.Count(caller, proc, nr), true) == (model, locked, Returns(code))
    {
      if caller == 0 {
        if proc != 0 {
          locked := true;
          var k := Search(proc, nr);
          if k < |permList[nr][h(proc)]| {
            locked := false;
            return permList[nr][h(proc)][k].count;
          }
          locked := false;
          return -EEXIST;
        } else {
          return -EINVAL;
        }
      } else {
        return -EPERM;
      }
    }

    /** findder as meant. */
    method Findder(uid: nat, nr: nat) returns (answer: int)
      requires Valid() && nr < CALLS
      modifies this`model, permList
      ensures Valid()
      ensures model == Intended(old(model), Intercept(uid, nr)).0
      ensures answer == if (uid, nr) in old(model) then 1 else 0
    {
      var k := Search(uid, nr);
      if k < |permList[nr][h(uid)]| {
        var b := Bumped(permList[nr][h(uid)], k);
        ghost var t, m := permList[..], Intended(model, Intercept(uid, nr)).0;
        InterceptRefines(h, buckets, t, model, uid, nr);
        assert Refines(h, buckets, Put(t, nr, h(uid), b), m);
        SetBucket(nr, h(uid), b);
        model := m;
        return 1;
      }
      return 0;
    }

    /** findder as written. It counts nothing. */
    method FindderAsWritten(headers: seq<nat>, uid: nat, nr: nat) returns (answer: int)
      requires Valid() && nr < CALLS == |headers|
      ensures answer == if headers[nr] == nr && BucketInUse(h, model, uid, nr) then 1 else 0
    {
      BucketInUseExactly(h, buckets, permList[..], model, uid, nr);
      var b := permList[nr][h(uid)];
      var i := 0;
      while i < |b|
        invariant 0 <= i <= |b| && (i > 0 ==> headers[nr] != nr)
      {
        if nr == headers[nr] {
          return 1;
        }
        i := i + 1;
      }
      return 0;
    }
  }
}
