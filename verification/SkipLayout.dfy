/** The shape of the skip list of project1/prototype/skipList.c on plain values: heights[i] is the
    height of the i-th node of the bottom level and keys[i] its key; node 0 is the sentinel. */
module SkipLayout {

  /** The node that the level-a pointer of node i leads to, or |hs| for the null pointer. */
  function NextAt(hs: seq<nat>, i: nat, a: nat): (j: nat)
    requires i < |hs|
    ensures i < j <= |hs|
    decreases |hs| - i
  {
    if i + 1 == |hs| || hs[i + 1] > a then i + 1 else NextAt(hs, i + 1, a)
  }

  /** The last node before position p that is on level a. */
  function LastBelow(hs: seq<nat>, p: nat, a: nat): (i: nat)
    requires 0 < p <= |hs| && hs[0] > a
    ensures i < p
  {
    if hs[p - 1] > a then p - 1 else LastBelow(hs, p - 1, a)
  }

  lemma {:induction false} NextIsFirst(hs: seq<nat>, i: nat, a: nat)
    requires i < |hs|
    ensures forall k :: i < k < NextAt(hs, i, a) ==> hs[k] <= a
    ensures NextAt(hs, i, a) < |hs| ==> hs[NextAt(hs, i, a)] > a
    decreases |hs| - i
  {
    if i + 1 == |hs| || hs[i + 1] > a {
    } else {
      NextIsFirst(hs, i + 1, a);
    }
  }

  lemma {:induction false} LastIsLast(hs: seq<nat>, p: nat, a: nat)
    requires 0 < p <= |hs| && hs[0] > a
    ensures hs[LastBelow(hs, p, a)] > a
    ensures forall k :: LastBelow(hs, p, a) < k < p ==> hs[k] <= a
  {
    if hs[p - 1] > a {
    } else {
      LastIsLast(hs, p - 1, a);
    }
  }

  /** NextAt is the only index with its three properties. */
  lemma NextUnique(hs: seq<nat>, i: nat, a: nat, j: nat)
    requires i < j <= |hs|
    requires forall k :: i < k < j ==> hs[k] <= a
    requires j < |hs| ==> hs[j] > a
    ensures NextAt(hs, i, a) == j
  {
    NextIsFirst(hs, i, a);
  }

  lemma LastUnique(hs: seq<nat>, p: nat, a: nat, i: nat)
    requires i < p <= |hs| && hs[0] > a && hs[i] > a
    requires forall k :: i < k < p ==> hs[k] <= a
    ensures LastBelow(hs, p, a) == i
  {
    LastIsLast(hs, p, a);
  }

  // ---- Each level is a strictly increasing chain, and a sublist of the level below ----

  /** The nodes met by following the level-a pointers from node i until the null pointer. */
  function Chain(hs: seq<nat>, i: nat, a: nat): seq<nat>
    requires i < |hs|
    decreases |hs| - i
  {
    var j := NextAt(hs, i, a);
    if j == |hs| then [] else [j] + Chain(hs, j, a)
  }

  lemma {:induction false} ChainMembers(hs: seq<nat>, i: nat, a: nat, x: nat)
    requires i < |hs|
    ensures x in Chain(hs, i, a) <==> i < x < |hs| && hs[x] > a
    decreases |hs| - i
  {
    var j := NextAt(hs, i, a);
    NextIsFirst(hs, i, a);
    if j == |hs| {
    } else {
      ChainMembers(hs, j, a, x);
    }
  }

  lemma {:induction false} ChainIncreases(hs: seq<nat>, i: nat, a: nat)
    requires i < |hs|
    ensures forall k :: 0 <= k < |Chain(hs, i, a)| ==> i < Chain(hs, i, a)[k] < |hs|
    ensures forall k, l :: 0 <= k < l < |Chain(hs, i, a)| ==> Chain(hs, i, a)[k] < Chain(hs, i, a)[l]
    decreases |hs| - i
  {
    var j := NextAt(hs, i, a);
    if j == |hs| {
    } else {
      ChainIncreases(hs, j, a);
    }
  }

  predicate Sublist(s: seq<nat>, t: seq<nat>) {
    s == [] || (t != [] && ((s[0] == t[0] && Sublist(s[1..], t[1..])) || Sublist(s, t[1..])))
  }

  lemma {:induction false} HigherLevelIsSublist(hs: seq<nat>, i: nat, a: nat)
    requires i < |hs|
    ensures Sublist(Chain(hs, i, a + 1), Chain(hs, i, a))
    decreases |hs| - i
  {
    var j := NextAt(hs, i, a);
    NextIsFirst(hs, i, a);
    if j == |hs| {
      NextUnique(hs, i, a + 1, j);
    } else {
      HigherLevelIsSublist(hs, j, a);
      assert Chain(hs, i, a)[1..] == Chain(hs, j, a);
      if hs[j] > a + 1 {
        NextUnique(hs, i, a + 1, j);
        assert Chain(hs, i, a + 1)[1..] == Chain(hs, j, a + 1);
      } else {
        NextIsFirst(hs, j, a + 1);
        NextUnique(hs, i, a + 1, NextAt(hs, j, a + 1));
        assert Chain(hs, i, a + 1) == Chain(hs, j, a + 1);
      }
    }
  }

  // ---- Splicing a node of height h in front of position p ----

  function Spliced(hs: seq<nat>, p: nat, h: nat): seq<nat>
    requires p <= |hs|
  {
    hs[..p] + [h] + hs[p..]
  }

  /** Pointers of earlier nodes: only the last level-a node before p is redirected, and only on the
      levels below the height of the new node. */
  lemma SplicedBefore(hs: seq<nat>, p: nat, h: nat, i: nat, a: nat)
    requires i < p <= |hs| && hs[0] > a && hs[i] > a
    ensures NextAt(Spliced(hs, p, h), i, a)
         == if NextAt(hs, i, a) < p then NextAt(hs, i, a)
            else if a < h then p
            else NextAt(hs, i, a) + 1
    ensures NextAt(hs, i, a) >= p <==> i == LastBelow(hs, p, a)
  {
    var j, t := NextAt(hs, i, a), Spliced(hs, p, h);
    NextIsFirst(hs, i, a);
    LastIsLast(hs, p, a);
    if j < p {
      NextUnique(t, i, a, j);
      assert i < j && hs[j] > a;
    } else {
      LastUnique(hs, p, a, i);
      if a < h {
        NextUnique(t, i, a, p);
      } else {
        forall k | i < k < j + 1
          ensures t[k] <= a
        {
          if k > p { assert t[k] == hs[k - 1]; }
        }
        NextUnique(t, i, a, j + 1);
      }
    }
  }

  /** The new node takes over the pointers of its predecessors. */
  lemma SplicedAt(hs: seq<nat>, p: nat, h: nat, a: nat)
    requires 0 < p <= |hs| && hs[0] > a
    ensures NextAt(Spliced(hs, p, h), p, a) == NextAt(hs, LastBelow(hs, p, a), a) + 1
  {
    var l, t := LastBelow(hs, p, a), Spliced(hs, p, h);
    var j := NextAt(hs, l, a);
    LastIsLast(hs, p, a);
    NextIsFirst(hs, l, a);
    forall k | p < k < j + 1
      ensures t[k] <= a
    {
      assert t[k] == hs[k - 1];
    }
    assert j < |hs| ==> t[j + 1] == hs[j];
    NextUnique(t, p, a, j + 1);
  }

  lemma SplicedAfter(hs: seq<nat>, p: nat, h: nat, i: nat, a: nat)
    requires p <= i < |hs|
    ensures NextAt(Spliced(hs, p, h), i + 1, a) == NextAt(hs, i, a) + 1
  {
    var j, t := NextAt(hs, i, a), Spliced(hs, p, h);
    NextIsFirst(hs, i, a);
    forall k | i + 1 < k < j + 1
      ensures t[k] <= a
    {
      assert t[k] == hs[k - 1];
    }
    assert j < |hs| ==> t[j + 1] == hs[j];
    NextUnique(t, i + 1, a, j + 1);
  }

  /** A node with no successor on the bottom level has none on any level: this is what makes the test
      of next[0] in insertKey safe. */
  lemma BottomEndIsEveryEnd(hs: seq<nat>, i: nat, a: nat)
    requires i < |hs| && forall k :: 0 <= k < |hs| ==> hs[k] >= 1
    ensures NextAt(hs, i, 0) == i + 1
    ensures NextAt(hs, i, 0) == |hs| ==> NextAt(hs, i, a) == |hs|
  {
  }

  // ---- The descent of insertKey, one loop iteration at a time ----

  ghost predicate Sorted(ks: seq<int>) {
    forall i, j :: 0 <= i < j < |ks| ==> ks[i] < ks[j]
  }

  ghost predicate Layout(ks: seq<int>, hs: seq<nat>, maxHeight: nat) {
    && |ks| == |hs| > 0
    && Sorted(ks)
    && hs[0] == maxHeight >= 1
    && forall i :: 0 <= i < |hs| ==> 1 <= hs[i] <= maxHeight
  }

  datatype Descent = Walking(pos: nat, curr: nat) | Splicing(pos: nat)

  function DescentStep(ks: seq<int>, hs: seq<nat>, key: int, s: Descent): Descent
    requires |ks| == |hs| && s.pos < |hs|
  {
    if s.Splicing? then s
    else
      var j := NextAt(hs, s.pos, s.curr);
      if j == |hs| || key < ks[j] then
        if s.curr > 0 then Walking(s.pos, s.curr - 1) else Splicing(s.pos)
      else if key > ks[j] then Walking(j, s.curr)
      else s
  }

  function DescentAfter(ks: seq<int>, hs: seq<nat>, key: int, n: nat): (s: Descent)
    requires |ks| == |hs| > 0 && hs[0] > 0
    ensures s.pos < |hs|
  {
    if n == 0 then Walking(0, hs[0] - 1) else DescentStep(ks, hs, key, DescentAfter(ks, hs, key, n - 1))
  }

  /** Nodes to the right plus levels left, which every iteration of a descent lowers. */
  function Remaining(hs: seq<nat>, s: Descent): nat
    requires s.pos < |hs|
  {
    if s.Splicing? then 0 else |hs| - s.pos + s.curr
  }

  lemma {:induction false} DescentProgress(ks: seq<int>, hs: seq<nat>, key: int, n: nat)
    requires |ks| == |hs| > 0 && hs[0] > 0 && key !in ks
    ensures DescentAfter(ks, hs, key, n).Walking? ==> Remaining(hs, DescentAfter(ks, hs, key, n)) + n <= |hs| - 1 + hs[0]
  {
    if n == 0 {
    } else {
      DescentProgress(ks, hs, key, n - 1);
    }
  }

  /** While the key is present the descent stays in front of it for ever. */
  lemma {:induction false} DescentStuck(ks: seq<int>, hs: seq<nat>, maxHeight: nat, key: int, q: nat, n: nat)
    requires Layout(ks, hs, maxHeight) && 0 < q < |ks| && ks[q] == key
    ensures DescentAfter(ks, hs, key, n).Walking? && DescentAfter(ks, hs, key, n).pos < q
  {
    if n == 0 {
    } else {
      DescentStuck(ks, hs, maxHeight, key, q, n - 1);
      var s := DescentAfter(ks, hs, key, n - 1);
      var j := NextAt(hs, s.pos, s.curr);
      BottomEndIsEveryEnd(hs, s.pos, 0);
      if j < |ks| {
        assert j < q ==> ks[j] < ks[q];
        assert q < j ==> ks[q] < ks[j];
      }
    }
  }

  /** insertKey reaches a splice exactly when its key is absent, and then within n + maxHeight
      iterations for a list of n keys. */
  lemma DescentEndsExactly(ks: seq<int>, hs: seq<nat>, maxHeight: nat, key: int)
    requires Layout(ks, hs, maxHeight) && ks[0] < key
    ensures (exists n: nat :: DescentAfter(ks, hs, key, n).Splicing?) <==> key !in ks
    ensures key !in ks ==> DescentAfter(ks, hs, key, |ks| - 1 + maxHeight).Splicing?
  {
    if key in ks {
      var q :| 0 <= q < |ks| && ks[q] == key;
      forall n: nat
        ensures DescentAfter(ks, hs, key, n).Walking?
      {
        DescentStuck(ks, hs, maxHeight, key, q, n);
      }
    } else {
      var n: nat := |ks| - 1 + maxHeight;
      DescentProgress(ks, hs, key, n);
      assert DescentAfter(ks, hs, key, n).Splicing?;
    }
  }

  // ---- The walk of skipSearch, one loop iteration at a time ----

  datatype Search = Looking(pos: nat, height: int) | Found(pos: nat) | Missing

  function SearchStep(ks: seq<int>, key: int, s: Search): Search
    requires s.Looking? ==> s.pos < |ks|
  {
    if !s.Looking? then s
    else if ks[s.pos] == key then Found(s.pos)
    else if ks[s.pos] > key then if s.height == 1 then Missing else Looking(s.pos, s.height - 1)
    else if s.pos + 1 == |ks| then Missing
    else Looking(s.pos + 1, s.height)
  }

  function SearchAfter(ks: seq<int>, key: int, maxHeight: int, n: nat): (s: Search)
    requires |ks| > 0
    ensures s.Looking? ==> s.pos < |ks|
  {
    if n == 0 then Looking(0, maxHeight - 1) else SearchStep(ks, key, SearchAfter(ks, key, maxHeight, n - 1))
  }

  /** What the search knows after n iterations. */
  lemma {:induction false} SearchProgress(ks: seq<int>, key: int, maxHeight: int, n: nat)
    requires |ks| > 0 && Sorted(ks) && maxHeight >= 1
    ensures var s := SearchAfter(ks, key, maxHeight, n);
            match s
            case Looking(pos, height) =>
              && n == pos + (maxHeight - 1 - height) && height < maxHeight
              && (forall i :: 0 <= i < pos ==> ks[i] < key)
              && (height < maxHeight - 1 ==> ks[pos] > key)
              && (maxHeight >= 2 ==> height >= 1)
            case Found(pos) => pos < |ks| && ks[pos] == key
            case Missing => key !in ks
  {
    if n == 0 {
    } else {
      SearchProgress(ks, key, maxHeight, n - 1);
      var s := SearchAfter(ks, key, maxHeight, n - 1);
      if s.Looking? && ks[s.pos] > key {
        assert forall i :: s.pos < i < |ks| ==> ks[s.pos] < ks[i];
      }
    }
  }

  /** With at least two levels the search ends within n + maxHeight iterations and finds exactly the
      keys that are there. */
  lemma SearchEnds(ks: seq<int>, key: int, maxHeight: int)
    requires |ks| > 0 && Sorted(ks) && maxHeight >= 2
    ensures var s := SearchAfter(ks, key, maxHeight, |ks| - 1 + maxHeight);
            if key in ks then s.Found? && s.pos < |ks| && ks[s.pos] == key else s == Missing
  {
    SearchProgress(ks, key, maxHeight, |ks| - 1 + maxHeight);
  }

  lemma {:induction false} SearchOverruns(ks: seq<int>, key: int, pos: nat, n: nat)
    requires |ks| > 0 && Sorted(ks) && pos < |ks| && ks[pos] > key
    requires forall i :: 0 <= i < pos ==> ks[i] < key
    ensures SearchAfter(ks, key, 1, n).Looking? && SearchAfter(ks, key, 1, n).pos <= pos
    ensures SearchAfter(ks, key, 1, n).height <= 0
  {
    if n == 0 {
    } else {
      SearchOverruns(ks, key, pos, n - 1);
    }
  }

  /** With a single level the level counter starts below 1, so the search ends exactly when it meets
      the key or the end of the list before any greater key. */
  lemma SingleLevelSearch(ks: seq<int>, key: int)
    requires |ks| > 0 && Sorted(ks)
    ensures (exists n: nat :: !SearchAfter(ks, key, 1, n).Looking?)
       <==> key in ks || forall i :: 0 <= i < |ks| ==> ks[i] < key
  {
    if key !in ks && exists i :: 0 <= i < |ks| && ks[i] >= key {
      var pos := FirstGreater(ks, key);
      forall n: nat
        ensures SearchAfter(ks, key, 1, n).Looking?
      {
        SearchOverruns(ks, key, pos, n);
      }
    } else {
      SearchProgress(ks, key, 1, |ks|);
      assert !SearchAfter(ks, key, 1, |ks|).Looking?;
    }
  }

  /** With a single level the search meets no greater key when the key or only smaller ones are there. */
  lemma GreaterNeedsLevels(ks: seq<int>, key: int, maxHeight: int, n: nat)
    requires |ks| > 0 && Sorted(ks) && maxHeight >= 1 && SearchAfter(ks, key, maxHeight, n).Looking?
    requires ks[SearchAfter(ks, key, maxHeight, n).pos] > key
    requires maxHeight >= 2 || key in ks || forall i :: 0 <= i < |ks| ==> ks[i] < key
    ensures maxHeight >= 2
  {
    SearchProgress(ks, key, maxHeight, n);
    var pos := SearchAfter(ks, key, maxHeight, n).pos;
    assert forall i :: pos < i < |ks| ==> ks[pos] < ks[i];
  }

  lemma MissingIsAbsent(ks: seq<int>, key: int, maxHeight: int, n: nat)
    requires |ks| > 0 && Sorted(ks) && maxHeight >= 1 && SearchAfter(ks, key, maxHeight, n) == Missing
    ensures key !in ks
  {
    SearchProgress(ks, key, maxHeight, n);
  }

  lemma FirstGreater(ks: seq<int>, key: int) returns (pos: nat)
    requires key !in ks && exists i :: 0 <= i < |ks| && ks[i] >= key
    ensures pos < |ks| && ks[pos] > key && forall i :: 0 <= i < pos ==> ks[i] < key
  {
    pos := 0;
    while ks[pos] < key
      invariant pos < |ks| && forall i :: 0 <= i < pos ==> ks[i] < key
      decreases |ks| - pos
    {
      pos := pos + 1;
    }
  }
}
