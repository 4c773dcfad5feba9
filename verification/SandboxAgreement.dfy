/** The two sandbox tables side by side. */
module SandboxAgreement {
  import opened Sandbox
  import Direct = DirectTable
  import Chained = ChainedTable

  /** After k requests the two tables refuse the same non-root uids. */
  ghost predicate SameAnswersAt(reading: Direct.Reading, h: int -> nat, buckets: nat, run: seq<Request>, k: nat)
    requires AllIndexable(run) && Chained.AllInTable(run) && (forall p: int :: h(p) < buckets) && k <= |run|
  {
    forall uid: nat, nr: nat :: uid > 0 && nr < CALLS ==>
      (Direct.Blocks(Direct.After(reading, run[..k]), uid, nr)
       <==> Chained.Listed(Chained.After(h, buckets, run[..k])[nr][h(uid)], uid, nr))
  }

  lemma SameAsMap(reading: Direct.Reading, h: int -> nat, buckets: nat, run: seq<Request>, k: nat)
    requires AllIndexable(run) && Chained.AllInTable(run) && (forall p: int :: h(p) < buckets) && k <= |run|
    ensures SameAnswersAt(reading, h, buckets, run, k) <==> Direct.AgreesAt(reading, run, k)
  {
    var d, t, m := Direct.After(reading, run[..k]), Chained.After(h, buckets, run[..k]), IntendedAfter(run[..k]);
    forall uid: nat, nr: nat | uid > 0 && nr < CALLS
      ensures Chained.Listed(t[nr][h(uid)], uid, nr) <==> (uid, nr) in m
    {
      Chained.ListedExactly(h, buckets, t, m, uid, nr);
    }
  }

  /** The direct-mapped table refuses the same uids as the chained one throughout a run exactly when every
      request is harmless. Read as clearing only its own slot, that means: no request blocks a uid whose
      slot another blocked uid of the same call holds. */
  lemma TablesAgreeExactly(reading: Direct.Reading, h: int -> nat, buckets: nat, run: seq<Request>)
    requires AllIndexable(run) && Chained.AllInTable(run) && (forall p: int :: h(p) < buckets)
    ensures (forall k :: 0 <= k <= |run| ==> SameAnswersAt(reading, h, buckets, run, k))
       <==> (forall k :: 0 <= k < |run| ==> Direct.HarmlessAt(reading, run, k))
  {
    Direct.RunExact(reading, run);
    forall k: nat | k <= |run|
      ensures SameAnswersAt(reading, h, buckets, run, k) <==> Direct.AgreesAt(reading, run, k)
    {
      SameAsMap(reading, h, buckets, run, k);
    }
  }

  /** What both tables would return now for a request is right, each in its own return codes. */
  ghost predicate Alike(reading: Direct.Reading, h: int -> nat, buckets: nat, run: seq<Request>, k: nat, req: Request)
    requires AllIndexable(run) && Chained.AllInTable(run) && (forall p: int :: h(p) < buckets) && k <= |run|
    requires Indexable(req) && Chained.InTable(req)
  {
    && Direct.RightCode(IntendedAfter(run[..k]), req, Direct.Step(reading, Direct.After(reading, run[..k]), req).1)
    && Chained.RightCode(IntendedAfter(run[..k]), req, Chained.Step(h, buckets, Chained.After(h, buckets, run[..k]), req).1)
  }

  /** After k requests both tables would answer alike whatever is asked about a non-root uid, apart from the
      number that count returns. */
  ghost predicate AlikeAt(reading: Direct.Reading, h: int -> nat, buckets: nat, run: seq<Request>, k: nat)
    requires AllIndexable(run) && Chained.AllInTable(run) && (forall p: int :: h(p) < buckets) && k <= |run|
  {
    forall req: Request ::
      Indexable(req) && Direct.Subject(req) > 0 && !Intended(IntendedAfter(run[..k]), req).1.Value? ==>
        Chained.InTable(req) && Alike(reading, h, buckets, run, k, req)
  }

  lemma AlikeAsIntended(reading: Direct.Reading, h: int -> nat, buckets: nat, run: seq<Request>, k: nat, req: Request)
    requires AllIndexable(run) && Chained.AllInTable(run) && (forall p: int :: h(p) < buckets) && k <= |run|
    requires Indexable(req) && Direct.Subject(req) > 0
    ensures Chained.InTable(req)
    ensures Alike(reading, h, buckets, run, k, req) <==>
              Direct.RightCode(IntendedAfter(run[..k]), req, Direct.Step(reading, Direct.After(reading, run[..k]), req).1)
  {
    Chained.CodesExactly(h, buckets, Chained.After(h, buckets, run[..k]), IntendedAfter(run[..k]), req);
  }

  /** The two tables answer every request about a non-root uid alike throughout a run, numbers from count
      apart, exactly when every request of the run is harmless. */
  lemma SameAnswersExactly(reading: Direct.Reading, h: int -> nat, buckets: nat, run: seq<Request>)
    requires AllIndexable(run) && Chained.AllInTable(run) && (forall p: int :: h(p) < buckets)
    ensures (forall k :: 0 <= k <= |run| ==> AlikeAt(reading, h, buckets, run, k))
       <==> (forall k :: 0 <= k < |run| ==> Direct.HarmlessAt(reading, run, k))
  {
    Direct.RunAnswersExact(reading, run);
    forall k: nat | k <= |run|
      ensures AlikeAt(reading, h, buckets, run, k) <==> Direct.AnswersAllAt(reading, run, k)
    {
      AlikeAtExactly(reading, h, buckets, run, k);
    }
  }

  lemma AlikeAtExactly(reading: Direct.Reading, h: int -> nat, buckets: nat, run: seq<Request>, k: nat)
    requires AllIndexable(run) && Chained.AllInTable(run) && (forall p: int :: h(p) < buckets) && k <= |run|
    ensures AlikeAt(reading, h, buckets, run, k) <==> Direct.AnswersAllAt(reading, run, k)
  {
    var d, m := Direct.After(reading, run[..k]), IntendedAfter(run[..k]);
    forall req: Request | Indexable(req) && Direct.Subject(req) > 0
      ensures Chained.InTable(req)
      ensures Alike(reading, h, buckets, run, k, req) <==> Direct.RightCode(m, req, Direct.Step(reading, d, req).1)
    {
      AlikeAsIntended(reading, h, buckets, run, k, req);
    }
  }

  lemma HarmlessToCountsAlike(reading: Direct.Reading, h: int -> nat, buckets: nat, run: seq<Request>, k: nat, req: Request)
    requires AllIndexable(run) && Chained.AllInTable(run) && (forall p: int :: h(p) < buckets) && k <= |run|
    requires forall i :: 0 <= i < k ==> Direct.HarmlessToCountsAt(reading, run, i)
    requires Indexable(req) && Direct.Subject(req) > 0
    ensures Chained.InTable(req) && Alike(reading, h, buckets, run, k, req)
  {
    Direct.HarmlessRunCounts(reading, run, k);
    Direct.AnswersMatch(reading, Direct.After(reading, run[..k]), IntendedAfter(run[..k]), req);
    AlikeAsIntended(reading, h, buckets, run, k, req);
  }

  /** After requests that are harmless to the counts the number from count is right too: for a blocked pair both
      tables return how often it was refused since it was blocked, while that is below 2^31. */
  lemma SameCounts(reading: Direct.Reading, h: int -> nat, buckets: nat, run: seq<Request>, k: nat, proc: nat, nr: nat)
    requires AllIndexable(run) && Chained.AllInTable(run) && (forall p: int :: h(p) < buckets) && k <= |run|
    requires forall i :: 0 <= i < k ==> Direct.HarmlessToCountsAt(reading, run, i)
    requires proc > 0 && nr < CALLS && 0 <= Refusals(run[..k], proc, nr) < 0x8000_0000
    ensures Direct.Step(reading, Direct.After(reading, run[..k]), Count(0, proc, nr)).1 == Refusals(run[..k], proc, nr)
    ensures Chained.Step(h, buckets, Chained.After(h, buckets, run[..k]), Count(0, proc, nr)).1
         == Refusals(run[..k], proc, nr)
  {
    IntendedExactly(run[..k], proc, nr);
    HarmlessToCountsAlike(reading, h, buckets, run, k, Count(0, proc, nr));
  }

  /** No request blocks a uid, root included, while another blocked uid of the same call holds its slot. */
  ghost predicate NoCollisions(run: seq<Request>)
    requires AllIndexable(run)
  {
    forall k :: 0 <= k < |run| && run[k].Block? && Authorised(run[k].caller, run[k].proc) ==>
      !Direct.Collides(IntendedAfter(run[..k]), run[k].proc, run[k].nr)
  }

  /** With the own-slot reading, collisions are the only way to disagree. */
  lemma OwnSlotAgreesWithoutCollisions(h: int -> nat, buckets: nat, run: seq<Request>)
    requires AllIndexable(run) && Chained.AllInTable(run) && (forall p: int :: h(p) < buckets)
    ensures (forall k :: 0 <= k <= |run| ==> SameAnswersAt(Direct.OwnSlot, h, buckets, run, k)) <==> NoCollisions(run)
  {
    TablesAgreeExactly(Direct.OwnSlot, h, buckets, run);
    forall k | 0 <= k < |run|
      ensures Direct.HarmlessAt(Direct.OwnSlot, run, k)
         <==> (run[k].Block? && Authorised(run[k].caller, run[k].proc) ==>
                 !Direct.Collides(IntendedAfter(run[..k]), run[k].proc, run[k].nr))
    {
    }
  }
}
