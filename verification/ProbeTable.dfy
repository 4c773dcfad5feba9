/** The linear-probing table of project 2/proj2/misc/hash.h. Nothing rejects duplicate keys, and a
    removal leaves a placeholder behind, so the table is a first-in-first-out queue for every key. */
module ProbeTable {
  import opened Arithmetic

  /** A table slot: the null pointer, the dummy entry that remove stores, or a live entry. */
  datatype Slot = Null | Placeholder | Item(key: nat, data: int)

  // ---- Circular positions ----

  /** The slot at distance d from slot h in a table of n slots. */
  function At(n: nat, h: nat, d: nat): (i: nat)
    requires h < n && d <= n
    ensures i < n
  {
    if h + d < n then h + d else h + d - n
  }

  /** How far slot i lies behind slot h, going round the table. */
  function Gap(n: nat, h: nat, i: nat): (d: nat)
    requires h < n && i < n
    ensures d < n && At(n, h, d) == i
  {
    if i >= h then i - h else i + n - h
  }

  function Home(n: nat, key: nat): (h: nat)
    requires n > 0
    ensures h < n
  {
    key % n
  }

  lemma StepForward(n: nat, h: nat, d: nat)
    requires h < n && d < n
    ensures (At(n, h, d) + 1) % n == At(n, h, d + 1)
  {
  }

  // ---- The queue a table stores for a key ----

  predicate Holds(slot: Slot, key: nat) {
    slot.Item? && slot.key == key
  }

  /** The data of all live entries for key, in probe order from distance d on. */
  function Live(s: seq<Slot>, key: nat, d: nat): seq<int>
    requires |s| > 0 && d <= |s|
    decreases |s| - d
  {
    if d == |s| then []
    else
      var slot := s[At(|s|, Home(|s|, key), d)];
      (if Holds(slot, key) then [slot.data] else []) + Live(s, key, d + 1)
  }

  /** The queue stored for key, oldest entry first. */
  function Queue(s: seq<Slot>, key: nat): seq<int>
    requires |s| > 0
  {
    Live(s, key, 0)
  }

  /** The distance of the first null slot at or after distance d from h, or the table size. */
  function Free(s: seq<Slot>, h: nat, d: nat): (f: nat)
    requires h < |s| && d <= |s|
    ensures d <= f <= |s|
    ensures forall e :: d <= e < f ==> s[At(|s|, h, e)] != Null
    ensures f < |s| ==> s[At(|s|, h, f)] == Null
    decreases |s| - d
  {
    if d == |s| || s[At(|s|, h, d)] == Null then d else Free(s, h, d + 1)
  }

  /** No null slot lies between the home slot of a live entry and the entry itself. */
  ghost predicate Reachable(s: seq<Slot>, i: nat)
    requires i < |s|
  {
    s[i].Item? ==> Gap(|s|, Home(|s|, s[i].key), i) < Free(s, Home(|s|, s[i].key), 0)
  }

  ghost predicate Inv(s: seq<Slot>) {
    |s| > 0 && forall i :: 0 <= i < |s| ==> Reachable(s, i)
  }

  lemma {:induction false} LiveFrame(s: seq<Slot>, t: seq<Slot>, key: nat, d: nat)
    requires |s| == |t| > 0 && d <= |s|
    requires forall i :: 0 <= i < |s| && s[i] != t[i] ==> !Holds(s[i], key) && !Holds(t[i], key)
    ensures Live(s, key, d) == Live(t, key, d)
    decreases |s| - d
  {
    if d == |s| {
    } else {
      LiveFrame(s, t, key, d + 1);
    }
  }

  lemma {:induction false} LiveEmpty(s: seq<Slot>, key: nat, d: nat)
    requires |s| > 0 && d <= |s|
    requires forall e :: d <= e < |s| ==> !Holds(s[At(|s|, Home(|s|, key), e)], key)
    ensures Live(s, key, d) == []
    decreases |s| - d
  {
    if d == |s| {
    } else {
      LiveEmpty(s, key, d + 1);
    }
  }

  lemma {:induction false} LiveSkip(s: seq<Slot>, key: nat, d: nat, e: nat)
    requires |s| > 0 && d <= e <= |s|
    requires forall c :: d <= c < e ==> !Holds(s[At(|s|, Home(|s|, key), c)], key)
    ensures Live(s, key, d) == Live(s, key, e)
    decreases e - d
  {
    if d == e {
    } else {
      LiveSkip(s, key, d + 1, e);
    }
  }

  /** Filling the first null slot of the probe path puts the new entry last. */
  lemma {:induction false} LiveAppend(s: seq<Slot>, key: nat, data: int, f: nat, d: nat)
    requires |s| > 0 && d <= f < |s|
    requires forall e :: f <= e < |s| ==> !Holds(s[At(|s|, Home(|s|, key), e)], key)
    ensures Live(s[At(|s|, Home(|s|, key), f) := Item(key, data)], key, d) == Live(s, key, d) + [data]
    decreases f - d
  {
    var h := Home(|s|, key);
    var t := s[At(|s|, h, f) := Item(key, data)];
    if d < f {
      LiveAppend(s, key, data, f, d + 1);
      assert t[At(|s|, h, d)] == s[At(|s|, h, d)];
    } else {
      LiveEmpty(s, key, f);
      LiveEmpty(t, key, f + 1);
    }
  }

  /** The entries for key all lie before the first null slot of its probe path. */
  lemma NoneBehindNull(s: seq<Slot>, key: nat, e: nat)
    requires Inv(s) && Free(s, Home(|s|, key), 0) <= e < |s|
    ensures !Holds(s[At(|s|, Home(|s|, key), e)], key)
  {
    var i := At(|s|, Home(|s|, key), e);
    assert Gap(|s|, Home(|s|, key), i) == e;
    assert Reachable(s, i);
  }

  /** A table with no fewer occupied slots has its first null slot no earlier. */
  lemma {:induction false} FreeGrows(s: seq<Slot>, t: seq<Slot>, h: nat, d: nat)
    requires |s| == |t| && h < |s| && d <= |s|
    requires forall i :: 0 <= i < |s| && s[i] != Null ==> t[i] != Null
    ensures Free(s, h, d) <= Free(t, h, d)
    decreases |s| - d
  {
    if d == |s| {
    } else {
      FreeGrows(s, t, h, d + 1);
    }
  }

  // ---- Insertion ----

  lemma InsertKeepsInv(s: seq<Slot>, key: nat, data: int)
    requires Inv(s) && Free(s, Home(|s|, key), 0) < |s|
    ensures Inv(s[At(|s|, Home(|s|, key), Free(s, Home(|s|, key), 0)) := Item(key, data)])
  {
    var n, h := |s|, Home(|s|, key);
    var f := Free(s, h, 0);
    var p := At(n, h, f);
    var t := s[p := Item(key, data)];
    forall i | 0 <= i < n && t[i].Item?
      ensures Reachable(t, i)
    {
      var hi := Home(n, t[i].key);
      FreeGrows(s, t, hi, 0);
      if i == p {
        assert Gap(n, h, p) == f;
        assert t[At(n, h, f)] != Null;
      } else {
        assert Reachable(s, i);
      }
    }
  }

  /** insert appends to its key's queue and leaves every other queue alone. */
  lemma InsertAppends(s: seq<Slot>, key: nat, data: int, other: nat)
    requires Inv(s) && Free(s, Home(|s|, key), 0) < |s|
    ensures Queue(s[At(|s|, Home(|s|, key), Free(s, Home(|s|, key), 0)) := Item(key, data)], other)
         == if other == key then Queue(s, key) + [data] else Queue(s, other)
  {
    var h := Home(|s|, key);
    var f := Free(s, h, 0);
    var t := s[At(|s|, h, f) := Item(key, data)];
    if other == key {
      forall e | f <= e < |s|
        ensures !Holds(s[At(|s|, h, e)], key)
      {
        NoneBehindNull(s, key, e);
      }
      LiveAppend(s, key, data, f, 0);
    } else {
      LiveFrame(s, t, other, 0);
    }
  }

  // ---- Search ----

  /** The distance at which the search for key stops: its first entry or a null slot. */
  function Stop(s: seq<Slot>, key: nat, d: nat): (e: nat)
    requires |s| > 0 && d <= |s|
    ensures d <= e <= |s|
    ensures forall c :: d <= c < e ==>
              s[At(|s|, Home(|s|, key), c)] != Null && !Holds(s[At(|s|, Home(|s|, key), c)], key)
    ensures e < |s| ==> s[At(|s|, Home(|s|, key), e)] == Null || Holds(s[At(|s|, Home(|s|, key), e)], key)
    decreases |s| - d
  {
    if d == |s| then d
    else
      var slot := s[At(|s|, Home(|s|, key), d)];
      if slot == Null || Holds(slot, key) then d else Stop(s, key, d + 1)
  }

  /** The search stops at the oldest live entry, or at a null slot when there is none. */
  lemma StopIsOldest(s: seq<Slot>, key: nat)
    requires Inv(s)
    ensures var e := Stop(s, key, 0);
            if Queue(s, key) == [] then e == |s| || s[At(|s|, Home(|s|, key), e)] == Null
            else e < |s| && s[At(|s|, Home(|s|, key), e)] == Item(key, Queue(s, key)[0])
  {
    var h := Home(|s|, key);
    var e := Stop(s, key, 0);
    LiveSkip(s, key, 0, e);
    if e < |s| && s[At(|s|, h, e)] == Null {
      assert Free(s, h, 0) == e by {
        var p := At(|s|, h, Free(s, h, 0));
      }
      forall c | e <= c < |s|
        ensures !Holds(s[At(|s|, h, c)], key)
      {
        NoneBehindNull(s, key, c);
      }
      LiveEmpty(s, key, e);
    }
  }

  // ---- Removal ----

  lemma {:induction false} LiveDropsFirst(s: seq<Slot>, key: nat, filler: Slot)
    requires |s| > 0 && !filler.Item?
    requires Stop(s, key, 0) < |s| && Holds(s[At(|s|, Home(|s|, key), Stop(s, key, 0))], key)
    ensures Queue(s, key) != []
    ensures Queue(s[At(|s|, Home(|s|, key), Stop(s, key, 0)) := filler], key) == Queue(s, key)[1..]
  {
    var h, e := Home(|s|, key), Stop(s, key, 0);
    var t := s[At(|s|, h, e) := filler];
    LiveSkip(s, key, 0, e);
    LiveSkip(t, key, 0, e + 1);
    LiveSuffix(s, t, key, e + 1);
  }

  lemma {:induction false} LiveSuffix(s: seq<Slot>, t: seq<Slot>, key: nat, d: nat)
    requires |s| == |t| > 0 && d <= |s|
    requires forall e :: d <= e < |s| ==>
               s[At(|s|, Home(|s|, key), e)] == t[At(|s|, Home(|s|, key), e)]
    ensures Live(s, key, d) == Live(t, key, d)
    decreases |s| - d
  {
    if d == |s| {
    } else {
      LiveSuffix(s, t, key, d + 1);
    }
  }

  /** Storing a placeholder keeps every other live entry reachable. */
  lemma RemoveKeepsInv(s: seq<Slot>, i: nat)
    requires Inv(s) && i < |s| && s[i].Item?
    ensures Inv(s[i := Placeholder])
  {
    var t := s[i := Placeholder];
    forall j | 0 <= j < |t| && t[j].Item?
      ensures Reachable(t, j)
    {
      assert Reachable(s, j);
      FreeGrows(s, t, Home(|s|, s[j].key), 0);
    }
  }

  /** remove takes the oldest entry of its key and leaves every other queue alone. */
  lemma RemoveTakesOldest(s: seq<Slot>, key: nat, other: nat)
    requires Inv(s) && Queue(s, key) != []
    ensures Stop(s, key, 0) < |s|
    ensures Queue(s[At(|s|, Home(|s|, key), Stop(s, key, 0)) := Placeholder], other)
         == if other == key then Queue(s, key)[1..] else Queue(s, other)
  {
    StopIsOldest(s, key);
    if other == key {
      LiveDropsFirst(s, key, Placeholder);
    } else {
      LiveFrame(s, s[At(|s|, Home(|s|, key), Stop(s, key, 0)) := Placeholder], other, 0);
    }
  }

  // ---- The global `temp` as written is never assigned, so it is NULL ----

  /** Live slot i lies on the probe path of another live entry. */
  ghost predicate PassedOver(s: seq<Slot>, i: nat)
    requires i < |s|
  {
    exists j :: 0 <= j < |s| && j != i && s[j].Item?
      && Gap(|s|, Home(|s|, s[j].key), i) < Gap(|s|, Home(|s|, s[j].key), j)
  }

  /** Storing NULL instead of a dummy entry keeps every entry reachable exactly when no other live entry is
      probed past the freed slot. */
  lemma NullFillerKeepsInvExactly(s: seq<Slot>, i: nat)
    requires Inv(s) && i < |s| && s[i].Item?
    ensures Inv(s[i := Null]) <==> !PassedOver(s, i)
  {
    var n, t := |s|, s[i := Null];
    if PassedOver(s, i) {
      var j :| 0 <= j < n && j != i && s[j].Item?
        && Gap(n, Home(n, s[j].key), i) < Gap(n, Home(n, s[j].key), j);
      var h := Home(n, s[j].key);
      var g := Gap(n, h, i);
      assert t[At(n, h, g)] == Null;
      assert Free(t, h, 0) <= g;
      assert !Reachable(t, j);
    } else {
      forall j | 0 <= j < n && t[j].Item?
        ensures Reachable(t, j)
      {
        var h := Home(n, s[j].key);
        var g := Gap(n, h, j);
        assert Reachable(s, j);
        assert g < Gap(n, h, i);
        forall d | 0 <= d <= g
          ensures t[At(n, h, d)] != Null
        {
          assert Gap(n, h, At(n, h, d)) == d;
        }
      }
    }
  }

  /** What the loop of find and remove returns: the entry it stops at, or null. */
  function Answer(s: seq<Slot>, key: nat): Slot
    requires |s| > 0
  {
    var e := Stop(s, key, 0);
    if e == |s| then Null else s[At(|s|, Home(|s|, key), e)]
  }

  /** The oldest entry that the table stores for a key. */
  function OldestEntry(s: seq<Slot>, key: nat): Slot
    requires |s| > 0
  {
    if Queue(s, key) == [] then Null else Item(key, Queue(s, key)[0])
  }

  predicate AnswersRight(s: seq<Slot>, key: nat)
    requires |s| > 0
  {
    Answer(s, key) == OldestEntry(s, key)
  }

  /** Live slot j is, once slot i is empty, the oldest of its key, and i lies on its probe path. */
  ghost predicate HidesAt(s: seq<Slot>, i: nat, j: nat)
    requires i < |s| && j < |s|
  {
    j != i && s[j].Item? &&
    var n, h := |s|, Home(|s|, s[j].key);
    && Gap(n, h, i) < Gap(n, h, j)
    && forall d :: 0 <= d < Gap(n, h, j) && At(n, h, d) != i ==> !Holds(s[At(n, h, d)], s[j].key)
  }

  lemma HiddenAnswer(s: seq<Slot>, i: nat, j: nat)
    requires i < |s| && j < |s| && HidesAt(s, i, j)
    ensures Answer(s[i := Null], s[j].key) == Null && !AnswersRight(s[i := Null], s[j].key)
  {
    var n, t, key := |s|, s[i := Null], s[j].key;
    var h := Home(n, key);
    var e := Gap(n, h, j);
    assert t[At(n, h, e)] == s[j] && t[At(n, h, Gap(n, h, i))] == Null;
    LiveSkip(t, key, 0, e);
  }

  /** The first entry of a key that stores something. */
  lemma FirstHolder(s: seq<Slot>, key: nat) returns (e: nat)
    requires |s| > 0 && Queue(s, key) != []
    ensures e < |s| && s[At(|s|, Home(|s|, key), e)] == OldestEntry(s, key)
    ensures forall d :: 0 <= d < e ==> !Holds(s[At(|s|, Home(|s|, key), d)], key)
  {
    e := 0;
    while e < |s| && !Holds(s[At(|s|, Home(|s|, key), e)], key)
      invariant e <= |s| && forall d :: 0 <= d < e ==> !Holds(s[At(|s|, Home(|s|, key), d)], key)
    {
      e := e + 1;
    }
    if e == |s| { LiveEmpty(s, key, 0); }
    LiveSkip(s, key, 0, e);
  }

  lemma WrongAnswerIsHidden(s: seq<Slot>, i: nat, key: nat) returns (j: nat)
    requires Inv(s) && i < |s| && s[i].Item? && !AnswersRight(s[i := Null], key)
    ensures j < |s| && HidesAt(s, i, j)
  {
    var n, h, t := |s|, Home(|s|, key), s[i := Null];
    var c := Stop(t, key, 0);
    EmptyAnswer(t, key);
    var e := FirstHolder(t, key);
    j := At(n, h, e);
    assert c < e && t[At(n, h, c)] == Null;
    if At(n, h, c) != i { NoneBehindNull(s, key, e); }
    assert At(n, h, c) == i;
    assert Gap(n, h, i) == c && Gap(n, h, j) == e;
    assert forall d :: 0 <= d < e && At(n, h, d) != i ==> s[At(n, h, d)] == t[At(n, h, d)];
  }

  lemma EmptyAnswer(s: seq<Slot>, key: nat)
    requires |s| > 0
    ensures Queue(s, key) == [] ==> Answer(s, key) == Null
  {
    var c := Stop(s, key, 0);
    LiveSkip(s, key, 0, c);
  }

  /** With NULL stored every search still returns the oldest entry of its key exactly when the freed slot lies
      on the probe path of no oldest remaining entry. */
  lemma NullFillerAnswersExactly(s: seq<Slot>, i: nat)
    requires Inv(s) && i < |s| && s[i].Item?
    ensures var t := s[i := Null];
            (forall key: nat :: AnswersRight(t, key)) <==> (forall j :: 0 <= j < |s| ==> !HidesAt(s, i, j))
  {
    var t := s[i := Null];
    if j :| 0 <= j < |s| && HidesAt(s, i, j) {
      HiddenAnswer(s, i, j);
    } else if key: nat :| !AnswersRight(t, key) {
      var j := WrongAnswerIsHidden(s, i, key);
      assert false;
    }
  }

  // ---- Counting slots ----

  ghost function Nulls(s: seq<Slot>): set<int> {
    set i | 0 <= i < |s| && s[i].Null?
  }

  ghost function Placeholders(s: seq<Slot>): set<int> {
    set i | 0 <= i < |s| && s[i].Placeholder?
  }

  ghost function Items(s: seq<Slot>): set<int> {
    set i | 0 <= i < |s| && s[i].Item?
  }

  lemma SlotsConserved(s: seq<Slot>)
    ensures |Items(s)| + |Placeholders(s)| + |Nulls(s)| == |s|
  {
    var all := Range(0, |s|);
    RangeSize(0, |s|);
    assert all == Items(s) + Placeholders(s) + Nulls(s) by {
      forall i | i in Items(s) + Placeholders(s) + Nulls(s)
        ensures i in all
      {
        assert Within(i, 0, |s|);
      }
    }
    assert |Items(s) + Placeholders(s)| == |Items(s)| + |Placeholders(s)|;
  }

  // ---- When the circular loops end ----

  /** The slot that a loop over `index = (index + 1) % SIZE` looks at in its iteration t. */
  function Probed(s: seq<Slot>, key: nat, t: nat): Slot
    requires |s| > 0
  {
    s[(key % |s| + t) % |s|]
  }

  lemma ProbedAt(s: seq<Slot>, key: nat, t: nat)
    requires |s| > 0
    ensures Probed(s, key, t) == s[At(|s|, Home(|s|, key), t % |s|)]
  {
    var n, h := |s|, Home(|s|, key);
    var d := t % n;
    ModShift(h + d, n, t / n);
    assert h + t == h + d + n * (t / n);
    if h + d < n {
      ModUnique(h + d, n, 0, h + d);
    } else {
      ModUnique(h + d, n, 1, h + d - n);
    }
  }

  /** Going round the table looks at every slot. */
  lemma ProbeVisitsAll(s: seq<Slot>, key: nat, stop: Slot -> bool)
    requires |s| > 0
    ensures (exists t: nat :: stop(Probed(s, key, t))) <==> (exists i :: 0 <= i < |s| && stop(s[i]))
  {
    var n, h := |s|, Home(|s|, key);
    if t: nat :| stop(Probed(s, key, t)) {
      ProbedAt(s, key, t);
    }
    if i :| 0 <= i < n && stop(s[i]) {
      var d := Gap(n, h, i);
      ModUnique(d, n, 0, d);
      ProbedAt(s, key, d);
      assert stop(Probed(s, key, d));
    }
  }

  lemma SomeNull(s: seq<Slot>)
    ensures |Nulls(s)| > 0 <==> exists i :: 0 <= i < |s| && s[i] == Null
  {
    if i :| 0 <= i < |s| && s[i] == Null {
      assert i in Nulls(s);
    } else {
      assert Nulls(s) == {};
    }
  }

  /** The loop of find and remove ends exactly when a null slot or a live entry of the key exists. */
  lemma SearchEndsExactly(s: seq<Slot>, key: nat)
    requires Inv(s)
    ensures (exists t: nat :: Probed(s, key, t) == Null || Holds(Probed(s, key, t), key))
       <==> |Nulls(s)| > 0 || Queue(s, key) != []
    ensures Stop(s, key, 0) < |s| <==> |Nulls(s)| > 0 || Queue(s, key) != []
  {
    var n, h := |s|, Home(|s|, key);
    var stop := (slot: Slot) => slot == Null || Holds(slot, key);
    ProbeVisitsAll(s, key, stop);
    assert (exists t: nat :: stop(Probed(s, key, t)))
      <==> (exists t: nat :: Probed(s, key, t) == Null || Holds(Probed(s, key, t), key));
    SomeNull(s);
    StopIsOldest(s, key);
    var e := Stop(s, key, 0);
    if e < n {
      assert stop(s[At(n, h, e)]);
    } else {
      forall i | 0 <= i < n
        ensures !stop(s[i])
      {
        assert s[At(n, h, Gap(n, h, i))] != Null;
      }
    }
  }

  /** The loop of insert ends exactly when a null slot exists. */
  lemma InsertEndsExactly(s: seq<Slot>, key: nat)
    requires Inv(s)
    ensures (exists t: nat :: Probed(s, key, t) == Null) <==> |Nulls(s)| > 0
    ensures Free(s, Home(|s|, key), 0) < |s| <==> |Nulls(s)| > 0
  {
    var n, h := |s|, Home(|s|, key);
    var stop := (slot: Slot) => slot == Null;
    ProbeVisitsAll(s, key, stop);
    assert (exists t: nat :: stop(Probed(s, key, t))) <==> (exists t: nat :: Probed(s, key, t) == Null);
    SomeNull(s);
    var f := Free(s, h, 0);
    if f < n {
      assert stop(s[At(n, h, f)]);
    } else {
      forall i | 0 <= i < n
        ensures !stop(s[i])
      {
        assert s[At(n, h, Gap(n, h, i))] != Null;
      }
    }
  }

  // ---- Whole runs against a map from keys to queues ----

  datatype Op = Insert(key: nat, data: int, granted: bool) | Find(key: nat) | Remove(key: nat)

  /** An int return code, or a returned pointer (Null for the null pointer). */
  datatype Result = Code(code: int) | Entry(slot: Slot)

  /** The loop of the operation ends. */
  predicate Ends(s: seq<Slot>, op: Op)
    requires |s| > 0
  {
    match op
    case Insert(key, _, granted) => granted ==> Free(s, Home(|s|, key), 0) < |s|
    case Find(key) => Stop(s, key, 0) < |s|
    case Remove(key) => Stop(s, key, 0) < |s|
  }

  function Step(s: seq<Slot>, op: Op): (r: (seq<Slot>, Result))
    requires |s| > 0 && Ends(s, op)
    ensures |r.0| == |s|
  {
    match op
    case Insert(key, data, granted) =>
      if granted
      then (s[At(|s|, Home(|s|, key), Free(s, Home(|s|, key), 0)) := Item(key, data)], Code(0))
      else (s, Code(1))
    case Find(key) =>
      (s, Entry(s[At(|s|, Home(|s|, key), Stop(s, key, 0))]))
    case Remove(key) =>
      var i := At(|s|, Home(|s|, key), Stop(s, key, 0));
      if s[i] == Null then (s, Entry(Null)) else (s[i := Placeholder], Entry(s[i]))
  }

  type Queues = nat -> seq<int>

  function Oldest(q: Queues, key: nat): Slot {
    if q(key) == [] then Null else Item(key, q(key)[0])
  }

  /** What the operation means on queues. */
  function QueueStep(q: Queues, op: Op): (Queues, Result) {
    match op
    case Insert(key, data, granted) =>
      if granted
      then ((k: nat) => if k == key then q(k) + [data] else q(k), Code(0))
      else (q, Code(1))
    case Find(key) => (q, Entry(Oldest(q, key)))
    case Remove(key) =>
      ((k: nat) => if k == key && q(k) != [] then q(k)[1..] else q(k), Entry(Oldest(q, key)))
  }

  ghost predicate Matches(s: seq<Slot>, q: Queues)
    requires |s| > 0
  {
    forall key: nat :: Queue(s, key) == q(key)
  }

  function Taken(op: Op): nat {
    if op.Insert? && op.granted then 1 else 0
  }

  function TakenBy(ops: seq<Op>): nat {
    if ops == [] then 0 else Taken(ops[0]) + TakenBy(ops[1..])
  }

  lemma NullUsed(s: seq<Slot>, i: nat, slot: Slot)
    requires i < |s| && s[i] == Null && slot != Null
    ensures |Nulls(s[i := slot])| == |Nulls(s)| - 1
  {
    assert Nulls(s) == Nulls(s[i := slot]) + {i};
  }

  lemma InsertRefines(s: seq<Slot>, q: Queues, key: nat, data: int)
    requires Inv(s) && Matches(s, q) && Free(s, Home(|s|, key), 0) < |s|
    ensures var t := Step(s, Insert(key, data, true)).0;
            Inv(t) && Matches(t, QueueStep(q, Insert(key, data, true)).0) && |Nulls(t)| == |Nulls(s)| - 1
  {
    var i := At(|s|, Home(|s|, key), Free(s, Home(|s|, key), 0));
    var t := s[i := Item(key, data)];
    InsertKeepsInv(s, key, data);
    forall k: nat
      ensures Queue(t, k) == if k == key then q(k) + [data] else q(k)
    {
      InsertAppends(s, key, data, k);
    }
    NullUsed(s, i, Item(key, data));
  }

  lemma RemoveRefines(s: seq<Slot>, q: Queues, key: nat)
    requires Inv(s) && Matches(s, q) && q(key) != [] && Stop(s, key, 0) < |s|
    ensures var t := s[At(|s|, Home(|s|, key), Stop(s, key, 0)) := Placeholder];
            Inv(t) && Matches(t, QueueStep(q, Remove(key)).0) && Nulls(t) == Nulls(s)
  {
    var i := At(|s|, Home(|s|, key), Stop(s, key, 0));
    var t := s[i := Placeholder];
    assert Queue(s, key) == q(key);
    StopIsOldest(s, key);
    RemoveKeepsInv(s, i);
    forall k: nat
      ensures Queue(t, k) == if k == key then q(k)[1..] else q(k)
    {
      RemoveTakesOldest(s, key, k);
      assert Queue(s, k) == q(k);
    }
  }

  /** One operation: the same answer, matching queues, and one null slot used per insertion. */
  lemma StepRefines(s: seq<Slot>, q: Queues, op: Op)
    requires Inv(s) && Matches(s, q) && Ends(s, op)
    ensures Step(s, op).1 == QueueStep(q, op).1
    ensures Inv(Step(s, op).0) && Matches(Step(s, op).0, QueueStep(q, op).0)
    ensures |Nulls(Step(s, op).0)| == |Nulls(s)| - Taken(op)
  {
    match op {
      case Insert(key, data, granted) =>
        if granted {
          InsertRefines(s, q, key, data);
        }
      case Find(key) =>
        StopIsOldest(s, key);
        assert Queue(s, key) == q(key);
      case Remove(key) =>
        StopIsOldest(s, key);
        assert Queue(s, key) == q(key);
        if q(key) != [] {
          RemoveRefines(s, q, key);
        }
    }
  }

  /** Every operation of the run ends. */
  ghost predicate RunEnds(s: seq<Slot>, ops: seq<Op>)
    requires |s| > 0
    decreases |ops|
  {
    ops != [] ==> Ends(s, ops[0]) && RunEnds(Step(s, ops[0]).0, ops[1..])
  }

  function Run(s: seq<Slot>, ops: seq<Op>): (r: (seq<Slot>, seq<Result>))
    requires |s| > 0 && RunEnds(s, ops)
    ensures |r.0| == |s|
    decreases |ops|
  {
    if ops == [] then (s, [])
    else
      var first := Step(s, ops[0]);
      var rest := Run(first.0, ops[1..]);
      (rest.0, [first.1] + rest.1)
  }

  function QueueRun(q: Queues, ops: seq<Op>): (Queues, seq<Result>)
    decreases |ops|
  {
    if ops == [] then (q, [])
    else
      var first := QueueStep(q, ops[0]);
      var rest := QueueRun(first.0, ops[1..]);
      (rest.0, [first.1] + rest.1)
  }

  /** Every run that ends answers as a map from keys to queues would, and ends with matching queues. */
  lemma {:induction false} RunRefinesQueues(s: seq<Slot>, q: Queues, ops: seq<Op>)
    requires Inv(s) && Matches(s, q) && RunEnds(s, ops)
    ensures Run(s, ops).1 == QueueRun(q, ops).1
    ensures Inv(Run(s, ops).0) && Matches(Run(s, ops).0, QueueRun(q, ops).0)
    ensures |Nulls(Run(s, ops).0)| == |Nulls(s)| - TakenBy(ops)
    decreases |ops|
  {
    if ops == [] {
    } else {
      StepRefines(s, q, ops[0]);
      RunRefinesQueues(Step(s, ops[0]).0, QueueStep(q, ops[0]).0, ops[1..]);
    }
  }

  /** A run that inserts fewer entries than there are null slots always ends: removal never gives a
      slot back, so the null slots are a budget for the lifetime of the table. */
  lemma {:induction false} RunEndsWithinBudget(s: seq<Slot>, q: Queues, ops: seq<Op>)
    requires Inv(s) && Matches(s, q) && TakenBy(ops) < |Nulls(s)|
    ensures RunEnds(s, ops)
    decreases |ops|
  {
    if ops == [] {
    } else {
      var op := ops[0];
      if op.Insert? { InsertEndsExactly(s, op.key); } else { SearchEndsExactly(s, op.key); }
      StepRefines(s, q, op);
      RunEndsWithinBudget(Step(s, op).0, QueueStep(q, op).0, ops[1..]);
    }
  }

  /** Once a run from an empty table has inserted as many entries as there are slots, no insertion
      ever ends again, and a search ends exactly when its key is stored. */
  lemma BudgetSpent(s: seq<Slot>, q: Queues, ops: seq<Op>, key: nat, data: int)
    requires Inv(s) && Matches(s, q) && RunEnds(s, ops) && TakenBy(ops) == |Nulls(s)|
    ensures !Ends(Run(s, ops).0, Insert(key, data, true))
    ensures Ends(Run(s, ops).0, Find(key)) <==> QueueRun(q, ops).0(key) != []
  {
    RunRefinesQueues(s, q, ops);
    var t := Run(s, ops).0;
    InsertEndsExactly(t, key);
    SearchEndsExactly(t, key);
    assert Queue(t, key) == QueueRun(q, ops).0(key);
  }

  // ---- Whole runs with NULL as the filler ----

  /** The operations as written: remove stores NULL. */
  function NullStep(s: seq<Slot>, op: Op): (r: (seq<Slot>, Result))
    requires |s| > 0 && Ends(s, op)
    ensures |r.0| == |s|
  {
    if op.Remove? then
      var i := At(|s|, Home(|s|, op.key), Stop(s, op.key, 0));
      if s[i] == Null then (s, Entry(Null)) else (s[i := Null], Entry(s[i]))
    else Step(s, op)
  }

  /** A removal frees a slot past which no other live entry was probed. */
  ghost predicate Clean(s: seq<Slot>, op: Op)
    requires |s| > 0 && Ends(s, op)
  {
    op.Remove? ==>
      var i := At(|s|, Home(|s|, op.key), Stop(s, op.key, 0));
      s[i] != Null ==> !PassedOver(s, i)
  }

  /** Every operation of the run ends. */
  ghost predicate NullRunEnds(s: seq<Slot>, ops: seq<Op>)
    requires |s| > 0
    decreases |ops|
  {
    ops != [] ==> Ends(s, ops[0]) && NullRunEnds(NullStep(s, ops[0]).0, ops[1..])
  }

  ghost predicate CleanRun(s: seq<Slot>, ops: seq<Op>)
    requires |s| > 0 && NullRunEnds(s, ops)
    decreases |ops|
  {
    ops != [] ==> Clean(s, ops[0]) && CleanRun(NullStep(s, ops[0]).0, ops[1..])
  }

  ghost predicate InvThroughout(s: seq<Slot>, ops: seq<Op>)
    requires |s| > 0 && NullRunEnds(s, ops)
    decreases |ops|
  {
    Inv(s) && (ops != [] ==> InvThroughout(NullStep(s, ops[0]).0, ops[1..]))
  }

  function NullRun(s: seq<Slot>, ops: seq<Op>): (seq<Slot>, seq<Result>)
    requires |s| > 0 && NullRunEnds(s, ops)
    decreases |ops|
  {
    if ops == [] then (s, [])
    else
      var first := NullStep(s, ops[0]);
      var rest := NullRun(first.0, ops[1..]);
      (rest.0, [first.1] + rest.1)
  }

  /** One operation keeps every entry reachable exactly when it is clean. */
  lemma NullStepKeepsInvExactly(s: seq<Slot>, op: Op)
    requires Inv(s) && Ends(s, op)
    ensures Inv(NullStep(s, op).0) <==> Clean(s, op)
  {
    match op {
      case Insert(key, data, granted) => if granted { InsertKeepsInv(s, key, data); }
      case Find(key) =>
      case Remove(key) =>
        StopIsOldest(s, key);
        var i := At(|s|, Home(|s|, key), Stop(s, key, 0));
        if s[i].Item? { NullFillerKeepsInvExactly(s, i); }
    }
  }

  lemma CleanStepRefines(s: seq<Slot>, q: Queues, op: Op)
    requires Inv(s) && Matches(s, q) && Ends(s, op) && Clean(s, op)
    ensures NullStep(s, op).1 == QueueStep(q, op).1
    ensures Inv(NullStep(s, op).0) && Matches(NullStep(s, op).0, QueueStep(q, op).0)
  {
    NullStepKeepsInvExactly(s, op);
    StepRefines(s, q, op);
    if op.Remove? {
      var i := At(|s|, Home(|s|, op.key), Stop(s, op.key, 0));
      forall k: nat
        ensures Queue(NullStep(s, op).0, k) == Queue(Step(s, op).0, k)
      {
        LiveFrame(NullStep(s, op).0, Step(s, op).0, k, 0);
      }
    }
  }

  /** With NULL stored a run keeps every entry reachable throughout exactly when all its removals are clean. */
  lemma {:induction false} NullRunKeepsInvExactly(s: seq<Slot>, ops: seq<Op>)
    requires Inv(s) && NullRunEnds(s, ops)
    ensures InvThroughout(s, ops) <==> CleanRun(s, ops)
    decreases |ops|
  {
    if ops == [] {
    } else {
      var t := NullStep(s, ops[0]).0;
      NullStepKeepsInvExactly(s, ops[0]);
      if Inv(t) { NullRunKeepsInvExactly(t, ops[1..]); }
    }
  }

  /** Such a run answers as a map from keys to queues does. */
  lemma {:induction false} CleanRunRefinesQueues(s: seq<Slot>, q: Queues, ops: seq<Op>)
    requires Inv(s) && Matches(s, q) && NullRunEnds(s, ops) && CleanRun(s, ops)
    ensures NullRun(s, ops).1 == QueueRun(q, ops).1
    ensures Inv(NullRun(s, ops).0) && Matches(NullRun(s, ops).0, QueueRun(q, ops).0)
    decreases |ops|
  {
    if ops == [] {
    } else {
      CleanStepRefines(s, q, ops[0]);
      CleanRunRefinesQueues(NullStep(s, ops[0]).0, QueueStep(q, ops[0]).0, ops[1..]);
    }
  }

  /** An empty table stores no queue. */
  lemma EmptyTable(s: seq<Slot>)
    requires |s| > 0 && forall i :: 0 <= i < |s| ==> s[i] == Null
    ensures Inv(s) && Matches(s, (k: nat) => []) && |Nulls(s)| == |s|
  {
    forall key: nat
      ensures Queue(s, key) == []
    {
      LiveEmpty(s, key, 0);
    }
    SlotsConserved(s);
    assert Items(s) == {} && Placeholders(s) == {};
  }

  /** The concrete failure of the unassigned dummy: removing the older of two colliding entries
      hides the other one, whatever the table size. */
  lemma NullFillerLosesEntry(n: nat, data: int)
    requires n >= 2
    ensures var s := seq(n, i => if i == 0 then Item(0, data) else if i == 1 then Item(n, data) else Null);
            Inv(s) && Queue(s, n) == [data]
            && Probed(s[0 := Null], n, 0) == Null && Queue(s[0 := Null], n) == [data]
  {
    var s := seq(n, i => if i == 0 then Item(0, data) else if i == 1 then Item(n, data) else Null);
    var t := s[0 := Null];
    ModUnique(n, n, 1, 0);
    ModUnique(0, n, 0, 0);
    assert s[At(n, 0, 0)] != Null && s[At(n, 0, 1)] != Null;
    forall i | 0 <= i < n && s[i].Item?
      ensures Reachable(s, i)
    {
    }
    LiveSkip(s, n, 0, 1);
    LiveEmpty(s, n, 2);
    LiveSkip(t, n, 0, 1);
    LiveEmpty(t, n, 2);
  }

  // ---- The table itself ----

  class HashTable {
    const table: array<Slot>

    ghost predicate Valid()
      reads this, table
    {
      Inv(table[..])
    }

    /** The queue stored for a key. */
    ghost function Stored(key: nat): seq<int>
      requires Valid()
      reads this, table
    {
      Queue(table[..], key)
    }

    constructor (size: nat)
      requires size > 0
      ensures Valid() && fresh(table) && table.Length == size
      ensures forall key :: Stored(key) == []
      ensures |Nulls(table[..])| == size
    {
      table := new Slot[size](_ => Null);
      new;
      EmptyTable(table[..]);
    }

    method GetHash(key: nat) returns (index: nat)
      requires Valid()
      ensures index == Home(table.Length, key) == key % table.Length
    {
      index := key % table.Length;
    }

    /** Null when the key is not stored. The loop needs a null slot or a stored entry to end. */
    method Find(key: nat) returns (entry: Slot)
      requires Valid()
      requires |Nulls(table[..])| > 0 || Stored(key) != []
      ensures entry == if Stored(key) == [] then Null else Item(key, Stored(key)[0])
    {
      ghost var s := table[..];
      SearchEndsExactly(s, key);
      StopIsOldest(s, key);
      var index := GetHash(key);
      ghost var d := 0;
      while table[index] != Null
        invariant 0 <= d <= Stop(s, key, 0) < |s|
        invariant index == At(|s|, Home(|s|, key), d)
        decreases Stop(s, key, 0) - d
      {
        if table[index].Item? && table[index].key == key {
          return table[index];
        }
        StepForward(|s|, Home(|s|, key), d);
        index := index + 1;
        index := index % table.Length;
        d := d + 1;
      }
      return Null;
    }

    /** `granted` is whether kmalloc succeeded. The result is 0, or 1 for a failed allocation. */
    method Insert(key: nat, data: int, granted: bool) returns (code: int)
      requires Valid()
      requires granted ==> |Nulls(table[..])| > 0
      modifies table
      ensures Valid()
      ensures code == if granted then 0 else 1
      ensures forall k: nat :: Stored(k) ==
                if granted && k == key then old(Stored(k)) + [data] else old(Stored(k))
      ensures |Nulls(table[..])| == old(|Nulls(table[..])|) - if granted then 1 else 0
    {
      if !granted {
        return 1;
      }
      ghost var s := table[..];
      InsertEndsExactly(s, key);
      var index := GetHash(key);
      ghost var d := 0;
      while table[index] != Null
        invariant table[..] == s
        invariant 0 <= d <= Free(s, Home(|s|, key), 0) < |s|
        invariant index == At(|s|, Home(|s|, key), d)
        decreases Free(s, Home(|s|, key), 0) - d
      {
        StepForward(|s|, Home(|s|, key), d);
        index := index + 1;
        index := index % table.Length;
        d := d + 1;
      }
      table[index] := Item(key, data);
      assert table[..] == Step(s, Op.Insert(key, data, true)).0;
      StepRefines(s, (k: nat) => Queue(s, k), Op.Insert(key, data, true));
      return 0;
    }

    /** Only the key of the given entry is used: the oldest entry with that key is taken out. */
    method Remove(item: Slot) returns (entry: Slot)
      requires Valid() && item.Item?
      requires |Nulls(table[..])| > 0 || Stored(item.key) != []
      modifies table
      ensures Valid()
      ensures entry == if old(Stored(item.key)) == [] then Null else Item(item.key, old(Stored(item.key))[0])
      ensures forall k: nat :: Stored(k) ==
                if k == item.key && old(Stored(k)) != [] then old(Stored(k))[1..] else old(Stored(k))
      ensures |Nulls(table[..])| == old(|Nulls(table[..])|)
    {
      ghost var s := table[..];
      var key := item.key;
      SearchEndsExactly(s, key);
      StopIsOldest(s, key);
      StepRefines(s, (k: nat) => Queue(s, k), Op.Remove(key));
      var index := GetHash(key);
      ghost var d := 0;
      while table[index] != Null
        invariant table[..] == s
        invariant 0 <= d <= Stop(s, key, 0) < |s|
        invariant index == At(|s|, Home(|s|, key), d)
        decreases Stop(s, key, 0) - d
      {
        if table[index].Item? && table[index].key == key {
          var del := table[index];
          table[index] := Placeholder;
          assert table[..] == Step(s, Op.Remove(key)).0;
          return del;
        }
        StepForward(|s|, Home(|s|, key), d);
        index := index + 1;
        index := index % table.Length;
        d := d + 1;
      }
      return Null;
    }
  }
}
