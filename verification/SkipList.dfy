/** The skip list of project1/prototype/skipList.c as linked nodes on the heap. */
module SkipList {
  import opened SkipLayout
  import opened RandomGenerator

  class Node {
    const key: int
    const height: nat
    const uid: int
    const start: int
    const next: array<Node?>

    /** createNode: every pointer of the new node is null. */
    constructor (start: int, key: int, height: nat, uid: int)
      ensures this.start == start && this.key == key && this.height == height && this.uid == uid
      ensures fresh(next) && next.Length == height
      ensures forall a :: 0 <= a < height ==> next[a] == null
    {
      this.start, this.key, this.height, this.uid := start, key, height, uid;
      next := new Node?[height](_ => null);
    }
  }

  ghost function Heights(nodes: seq<Node>): (hs: seq<nat>)
    ensures |hs| == |nodes|
    ensures forall i :: 0 <= i < |nodes| ==> hs[i] == nodes[i].height
  {
    seq(|nodes|, i requires 0 <= i < |nodes| => nodes[i].height)
  }

  ghost function Keys(nodes: seq<Node>): (ks: seq<int>)
    ensures |ks| == |nodes|
    ensures forall i :: 0 <= i < |nodes| ==> ks[i] == nodes[i].key
  {
    seq(|nodes|, i requires 0 <= i < |nodes| => nodes[i].key)
  }

  /** The node at an index, or null one past the end. */
  ghost function Target(nodes: seq<Node>, j: nat): Node?
    requires j <= |nodes|
  {
    if j < |nodes| then nodes[j] else null
  }

  /** Every pointer of node i leads to the next node of its level. */
  ghost predicate Linked(nodes: seq<Node>, i: nat)
    requires i < |nodes|
    reads nodes[i].next
  {
    && nodes[i].next.Length == nodes[i].height
    && forall a :: 0 <= a < nodes[i].height ==> nodes[i].next[a] == Target(nodes, NextAt(Heights(nodes), i, a))
  }

  /** Some pointer of x leads to y. */
  ghost predicate LeadsTo(x: Node, y: Node)
    reads x.next
  {
    exists a :: 0 <= a < x.next.Length && x.next[a] == y
  }

  /** The pairs stored behind the sentinel. */
  ghost function PairsOf(nodes: seq<Node>): (m: map<int, int>)
  {
    if |nodes| <= 1 then map[] else PairsOf(nodes[..|nodes| - 1])[nodes[|nodes| - 1].key := nodes[|nodes| - 1].uid]
  }

  lemma {:induction false} PairsOfKeys(nodes: seq<Node>, key: int)
    requires Sorted(Keys(nodes))
    ensures key in PairsOf(nodes) <==> exists i :: 1 <= i < |nodes| && nodes[i].key == key
    ensures forall i :: 1 <= i < |nodes| && nodes[i].key == key ==> key in PairsOf(nodes) && PairsOf(nodes)[key] == nodes[i].uid
  {
    if |nodes| <= 1 {
    } else {
      var front := nodes[..|nodes| - 1];
      var last := |nodes| - 1;
      assert forall i :: 0 <= i < |front| ==> Keys(front)[i] == Keys(nodes)[i];
      PairsOfKeys(front, key);
      forall i | 1 <= i < |nodes| && nodes[i].key == key
        ensures key in PairsOf(nodes) && PairsOf(nodes)[key] == nodes[i].uid
      {
        if i < last {
          assert front[i] == nodes[i];
          assert Keys(nodes)[i] < Keys(nodes)[last];
        }
      }
      if key in PairsOf(nodes) && key != nodes[last].key {
        var i :| 1 <= i < |front| && front[i].key == key;
        assert nodes[i].key == key;
      }
    }
  }

  lemma SplicedFront<T>(s: seq<T>, p: nat, x: T)
    requires p < |s|
    ensures var front := s[..|s| - 1];
            (s[..p] + [x] + s[p..])[..|s|] == front[..p] + [x] + front[p..]
  {
  }

  lemma FrontSorted(nodes: seq<Node>)
    requires |nodes| > 0 && Sorted(Keys(nodes))
    ensures Sorted(Keys(nodes[..|nodes| - 1]))
  {
    var front := nodes[..|nodes| - 1];
    assert forall i :: 0 <= i < |front| ==> Keys(front)[i] == Keys(nodes)[i];
  }

  lemma {:induction false} PairsOfSpliced(nodes: seq<Node>, p: nat, n: Node)
    requires 1 <= p <= |nodes| && Sorted(Keys(nodes[..p] + [n] + nodes[p..]))
    ensures PairsOf(nodes[..p] + [n] + nodes[p..]) == PairsOf(nodes)[n.key := n.uid]
    decreases |nodes|
  {
    var t := nodes[..p] + [n] + nodes[p..];
    if p == |nodes| {
      assert t[..|t| - 1] == nodes;
    } else {
      var last := nodes[|nodes| - 1];
      SplicedFront(nodes, p, n);
      assert t[p] == n && t[|t| - 1] == last;
      assert n.key != last.key by { assert Keys(t)[p] < Keys(t)[|t| - 1]; }
      FrontSorted(t);
      PairsOfSpliced(nodes[..|nodes| - 1], p, n);
    }
  }

  /** What free is called with. */
  datatype Freed = Pointers(next: array<Node?>) | Block(node: Node) | List

  ghost function FreedNodes(nodes: seq<Node>): seq<Freed> {
    if nodes == [] then []
    else FreedNodes(nodes[..|nodes| - 1]) + [Pointers(nodes[|nodes| - 1].next), Block(nodes[|nodes| - 1])]
  }

  lemma {:induction false} FreedMembers(nodes: seq<Node>)
    ensures forall f :: f in FreedNodes(nodes) ==>
              f != List
              && (f.Pointers? ==> exists i :: 0 <= i < |nodes| && nodes[i].next == f.next)
              && (f.Block? ==> f.node in nodes)
  {
    if nodes == [] {
    } else {
      var front := nodes[..|nodes| - 1];
      FreedMembers(front);
      forall f | f in FreedNodes(front) && f.Pointers?
        ensures exists i :: 0 <= i < |nodes| && nodes[i].next == f.next
      {
        var i :| 0 <= i < |front| && front[i].next == f.next;
        assert nodes[i].next == f.next;
      }
    }
  }

  ghost predicate NoRepeats(freed: seq<Freed>) {
    forall i, j :: 0 <= i < j < |freed| ==> freed[i] != freed[j]
  }

  lemma OneMoreFreed(freed: seq<Freed>, f: Freed)
    requires NoRepeats(freed) && f !in freed
    ensures NoRepeats(freed + [f])
  {
  }

  /** Nodes with distinct pointers are freed once each. */
  lemma {:induction false} FreedOnce(nodes: seq<Node>)
    requires forall i, j :: 0 <= i < j < |nodes| ==> nodes[i].next != nodes[j].next
    ensures NoRepeats(FreedNodes(nodes))
  {
    if nodes == [] {
    } else {
      var front, last := nodes[..|nodes| - 1], nodes[|nodes| - 1];
      FreedOnce(front);
      FreedMembers(front);
      assert last !in front;
      OneMoreFreed(FreedNodes(front), Pointers(last.next));
      OneMoreFreed(FreedNodes(front) + [Pointers(last.next)], Block(last));
      assert FreedNodes(nodes) == FreedNodes(front) + [Pointers(last.next)] + [Block(last)];
    }
  }

  class SkipList {
    const maxHeight: int
    const chance: int
    const start: Node
    ghost var nodes: seq<Node>

    ghost predicate Valid()
      reads this, set n | n in nodes :: n.next
    {
      && |nodes| > 0 && nodes[0] == start
      && maxHeight >= 1
      && start.key == -1
      && Layout(Keys(nodes), Heights(nodes), maxHeight)
      && (forall i, j :: 0 <= i < j < |nodes| ==> nodes[i].next != nodes[j].next)
      && (forall i :: 0 <= i < |nodes| ==> Linked(nodes, i))
    }

    /** The stored key-to-uid pairs. */
    ghost function Pairs(): map<int, int>
      reads this
    {
      PairsOf(nodes)
    }

    constructor (maxHeight: int, chance: int)
      requires maxHeight >= 1
      ensures Valid() && fresh(start) && fresh(start.next)
      ensures this.maxHeight == maxHeight && this.chance == chance
      ensures nodes == [start] && Pairs() == map[]
    {
      this.maxHeight := maxHeight;
      this.chance := chance;
      var sentinel := new Node(1, -1, maxHeight, 0);
      start := sentinel;
      nodes := [sentinel];
    }

    /** Returns the node with the key, or null. The sentinel answers to its own key, -1. A list with a single
        level needs the key or only smaller ones, as SingleLevelSearch says. */
    method SkipSearch(key: int) returns (found: Node?, ghost iterations: nat)
      requires Valid()
      requires maxHeight >= 2 || key in Keys(nodes) || forall i :: 0 <= i < |nodes| ==> Keys(nodes)[i] < key
      ensures found != null ==> found in nodes && found.key == key
      ensures found == null ==> key !in Keys(nodes)
      ensures iterations <= |nodes| - 1 + maxHeight
    {
      ghost var ks := Keys(nodes);
      var temp: Node? := start;
      var height := maxHeight - 1;
      iterations := 0;
      ghost var pos := 0;
      while temp != null
        invariant 0 <= pos < |nodes| && temp == nodes[pos]
        invariant SearchAfter(ks, key, maxHeight, iterations) == Looking(pos, height)
        invariant iterations == pos + (maxHeight - 1 - height) && (if maxHeight >= 2 then 1 <= height else height == 0)
        decreases |nodes| - pos + height
      {
        BottomLevel(pos);
        iterations := iterations + 1;
        if temp.key == key {
          return temp, iterations;
        } else if temp.key > key {
          GreaterNeedsLevels(ks, key, maxHeight, iterations - 1);
          if height == 1 {
            MissingIsAbsent(ks, key, maxHeight, iterations);
            return null, iterations;
          } else {
            height := height - 1;
          }
        } else if temp.key < key {
          if temp.next[0] == null {
            MissingIsAbsent(ks, key, maxHeight, iterations);
            return null, iterations;
          } else {
            temp := temp.next[0];
            pos := pos + 1;
          }
        }
      }
      return null, iterations;
    }

    /** The bottom level links every node to its neighbour. */
    lemma BottomLevel(i: nat)
      requires Valid() && i < |nodes|
      ensures nodes[i].next.Length >= 1 && nodes[i].next[0] == Target(nodes, i + 1)
    {
      assert Linked(nodes, i);
      BottomEndIsEveryEnd(Heights(nodes), i, 0);
    }

    /** Links a new node of the given height in front of position p. */
    method Splice(last: array<Node>, ghost p: nat, key: int, uid: int, height: nat) returns (created: Node)
      requires Valid() && 1 <= height <= maxHeight
      requires 1 <= p <= |nodes| && nodes[p - 1].key < key && (p < |nodes| ==> key < nodes[p].key)
      requires last.Length == maxHeight && Predecessors(nodes, p, last)
      modifies this`nodes, set n | n in nodes :: n.next
      ensures Valid() && fresh(created) && fresh(created.next)
      ensures created.key == key && created.uid == uid && created.height == height
      ensures nodes == WithNode(old(nodes), p, created)
    {
      ghost var before := nodes;
      created := new Node(0, key, height, uid);
      forall i | 0 <= i < |before|
        ensures Linked(before, i)
      {
        assert old(Linked(before, i));
      }
      Link(before, last, p, created);
      nodes := WithNode(before, p, created);
      WithNodeLayout(before, p, created, maxHeight);
      WithNodeDistinct(before, p, created);
    }

    lemma PointerAt(i: nat, a: nat)
      requires Valid() && i < |nodes| && a < nodes[i].height
      ensures a < nodes[i].next.Length && nodes[i].next[a] == Target(nodes, NextAt(Heights(nodes), i, a))
    {
      assert Linked(nodes, i);
    }

    /** insertKey for a node of any height. The key must be absent: with an equal key the loop would
        never end (DescentEndsExactly). Keys are non-negative, so they lie behind the sentinel. */
    method InsertKey(key: int, uid: int, height: nat)
      returns (ghost created: Node, ghost p: nat, ghost iterations: nat)
      requires Valid() && 1 <= height <= maxHeight
      requires key >= 0 && key !in Pairs()
      modifies this`nodes, set n | n in nodes :: n.next
      ensures Valid()
      ensures Pairs() == old(Pairs())[key := uid]
      ensures fresh(created) && fresh(created.next)
      ensures created.key == key && created.uid == uid && created.height == height
      ensures 1 <= p <= |old(nodes)| && nodes == WithNode(old(nodes), p, created)
      ensures iterations <= |old(nodes)| - 1 + maxHeight
    {
      PairsOfKeys(nodes, key);
      p := Rank(Keys(nodes), key);
      var last := new Node[maxHeight](_ => start);
      iterations := Descend(nodes, start, maxHeight, key, p, last);
      created := Splice(last, p, key, uid, height);
      PairsOfSpliced(old(nodes), p, created);
    }

    /** insertKey as its caller sees it: the height comes from upHeight. */
    method Insert(key: int, uid: int, unset: int, random: Generator) returns (ghost iterations: nat)
      requires Valid()
      requires key >= 0 && key !in Pairs()
      modifies random, this`nodes, set n | n in nodes :: n.next
      ensures Valid()
      ensures Pairs() == old(Pairs())[key := uid]
      ensures random.state == After(old(random.state), 1)
      ensures iterations <= |old(nodes)| - 1 + maxHeight
    {
      var height := random.UpHeight(maxHeight, chance, unset);
      ghost var created, p;
      created, p, iterations := InsertKey(key, uid, height);
    }

    /** Frees along the bottom level the pointers and then the memory of each node, and the list at the end; the
        result lists what is freed, in order. */
    method DeleteSkip() returns (freed: seq<Freed>)
      requires Valid()
      ensures freed == FreedNodes(nodes) + [List]
      ensures NoRepeats(freed)
    {
      freed := [];
      var temp: Node? := start;
      ghost var k := 0;
      while temp != null
        invariant 0 <= k <= |nodes| && freed == FreedNodes(nodes[..k])
        invariant temp == Target(nodes, k)
        decreases |nodes| - k
      {
        BottomLevel(k);
        StillAllocated(k);
        assert Pointers(temp.next) !in freed && Block(temp) !in freed;
        var next := temp.next[0];
        freed := freed + [Pointers(temp.next)];
        freed := freed + [Block(temp)];
        assert nodes[..k + 1][..k] == nodes[..k];
        temp := next;
        k := k + 1;
      }
      assert nodes[..k] == nodes;
      FreedOnce(nodes);
      FreedMembers(nodes);
      OneMoreFreed(freed, List);
      freed := freed + [List];
    }

    /** What the loop reads next has not been freed. */
    lemma StillAllocated(k: nat)
      requires Valid() && k < |nodes|
      ensures Pointers(nodes[k].next) !in FreedNodes(nodes[..k]) && Block(nodes[k]) !in FreedNodes(nodes[..k])
    {
      FreedMembers(nodes[..k]);
      NotYetFreed(k);
    }

    lemma NotYetFreed(k: nat)
      requires Valid() && k < |nodes|
      ensures nodes[k] !in nodes[..k]
    {
      forall i | 0 <= i < k
        ensures nodes[i] != nodes[k]
      {
        assert Keys(nodes)[i] < Keys(nodes)[k];
      }
    }

    /** A walk from the sentinel along pointers of any levels. */
    ghost predicate IsWalk(walk: seq<Node>)
      reads set n | n in walk :: n.next
    {
      |walk| > 0 && walk[0] == start
      && forall i :: 1 <= i < |walk| ==> LeadsTo(walk[i - 1], walk[i])
    }

    /** Every node reachable at any level is on the bottom level, so DeleteSkip frees it. */
    lemma {:induction false} WalksStayInList(walk: seq<Node>)
      requires Valid() && IsWalk(walk)
      ensures walk[|walk| - 1] in nodes
      decreases |walk|
    {
      if |walk| <= 1 {
      } else {
        var front := walk[..|walk| - 1];
        assert forall i :: 0 <= i < |front| ==> front[i] == walk[i];
        WalksStayInList(front);
        var x := walk[|walk| - 2];
        var k :| 0 <= k < |nodes| && nodes[k] == x;
        assert Linked(nodes, k) && LeadsTo(x, walk[|walk| - 1]);
        var a :| 0 <= a < x.next.Length && x.next[a] == walk[|walk| - 1];
        assert x.next[a] == Target(nodes, NextAt(Heights(nodes), k, a));
      }
    }

    /** Following the pointers of level a from node i meets exactly the later nodes of that level, in
        order, and ends in a null pointer. */
    lemma {:induction false} LevelWalk(a: nat, i: nat)
      requires Valid() && a < maxHeight && i < |nodes| && nodes[i].height > a
      ensures var walk := LevelNodes(nodes, i, a);
              && nodes[i].next.Length > a && nodes[i].next[a] == Target(walk, 0)
              && forall k :: 0 <= k < |walk| ==> walk[k].next.Length > a && walk[k].next[a] == Target(walk, k + 1)
      decreases |nodes| - i
    {
      var walk := LevelNodes(nodes, i, a);
      PointerAt(i, a);
      var j := NextAt(Heights(nodes), i, a);
      if j == |nodes| {
      } else {
        NextIsFirst(Heights(nodes), i, a);
        LevelWalk(a, j);
        assert forall k :: 1 <= k < |walk| ==> walk[k] == walk[1..][k - 1];
      }
    }
  }

  /** The nodes of level a behind node i. */
  ghost function LevelNodes(nodes: seq<Node>, i: nat, a: nat): seq<Node>
    requires i < |nodes|
    decreases |nodes| - i
  {
    var j := NextAt(Heights(nodes), i, a);
    if j == |nodes| then [] else [nodes[j]] + LevelNodes(nodes, j, a)
  }

  /** Level a holds exactly the nodes whose height exceeds a, in bottom-level order. */
  lemma {:induction false} LevelNodesAreChain(nodes: seq<Node>, i: nat, a: nat)
    requires i < |nodes|
    ensures var c := Chain(Heights(nodes), i, a);
            |LevelNodes(nodes, i, a)| == |c|
            && forall k :: 0 <= k < |c| ==> c[k] < |nodes| && LevelNodes(nodes, i, a)[k] == nodes[c[k]]
    decreases |nodes| - i
  {
    var j := NextAt(Heights(nodes), i, a);
    if j == |nodes| {
    } else {
      LevelNodesAreChain(nodes, j, a);
    }
  }

  /** Key belongs exactly in front of position p. */
  ghost predicate Belongs(nodes: seq<Node>, key: int, p: nat) {
    && 1 <= p <= |nodes|
    && (forall i :: 0 <= i < p ==> nodes[i].key < key)
    && (forall i :: p <= i < |nodes| ==> nodes[i].key > key)
  }

  /** After n iterations the descent stands at node pos on level a. */
  ghost predicate OnDescent(nodes: seq<Node>, key: int, n: nat, pos: nat, a: nat)
    requires |nodes| > 0 && nodes[0].height > 0
  {
    DescentAfter(Keys(nodes), Heights(nodes), key, n) == Walking(pos, a)
  }

  /** Where the descent has to go down on a level, it has found the last node of that level below p. */
  lemma DownAt(nodes: seq<Node>, key: int, p: nat, pos: nat, a: nat, n: nat)
    requires Belongs(nodes, key, p) && pos < p && nodes[pos].height > a && nodes[0].height > a
    requires OnDescent(nodes, key, n, pos, a)
    requires var j := NextAt(Heights(nodes), pos, a); j == |nodes| || key < nodes[j].key
    ensures LastBelow(Heights(nodes), p, a) == pos
    ensures if a > 0 then OnDescent(nodes, key, n + 1, pos, a - 1)
            else DescentAfter(Keys(nodes), Heights(nodes), key, n + 1).Splicing?
  {
    NextIsFirst(Heights(nodes), pos, a);
    LastUnique(Heights(nodes), p, a, pos);
  }

  lemma RightAt(nodes: seq<Node>, key: int, p: nat, pos: nat, a: nat, n: nat)
    requires Belongs(nodes, key, p) && pos < p && nodes[0].height > 0
    requires OnDescent(nodes, key, n, pos, a)
    requires var j := NextAt(Heights(nodes), pos, a); j < |nodes| && key > nodes[j].key
    ensures var j := NextAt(Heights(nodes), pos, a);
            pos < j < p && nodes[j].height > a && OnDescent(nodes, key, n + 1, j, a)
  {
    NextIsFirst(Heights(nodes), pos, a);
  }

  lemma PointerOf(nodes: seq<Node>, i: nat, a: nat)
    requires i < |nodes| && a < nodes[i].height && Linked(nodes, i)
    ensures a < nodes[i].next.Length && NextAt(Heights(nodes), i, a) <= |nodes|
    ensures nodes[i].next[a] == Target(nodes, NextAt(Heights(nodes), i, a))
  {
  }

  /** The descent of insertKey: right while the next key is smaller, otherwise down, recording in last[]
      where each level was left. The branches for a null pointer and for a greater key do the same and are
      one branch here; on the bottom level both lead to the same splice. */
  method Descend(ghost nodes: seq<Node>, start: Node, maxHeight: int, key: int, ghost p: nat, last: array<Node>)
    returns (ghost iterations: nat)
    requires Belongs(nodes, key, p) && nodes[0] == start && start.height == maxHeight >= 1
    requires forall i :: 0 <= i < |nodes| ==> Linked(nodes, i)
    requires last.Length == maxHeight
    modifies last
    ensures Predecessors(nodes, p, last)
    ensures iterations <= |nodes| - 1 + maxHeight
    ensures DescentAfter(Keys(nodes), Heights(nodes), key, iterations).Splicing?
  {
    var temp := start;
    var curr := maxHeight - 1;
    iterations := 0;
    ghost var pos := 0;
    while true
      invariant 0 <= pos < p && temp == nodes[pos] && 0 <= curr < nodes[pos].height && curr < maxHeight
      invariant OnDescent(nodes, key, iterations, pos, curr)
      invariant FoundFrom(nodes, p, last, curr + 1)
      invariant iterations <= pos + (maxHeight - 1 - curr)
      decreases |nodes| - pos + curr
    {
      ghost var j := NextAt(Heights(nodes), pos, curr);
      PointerOf(nodes, pos, curr);
      var ahead := temp.next[curr];
      if ahead == null || key < ahead.key {
        DownAt(nodes, key, p, pos, curr, iterations);
        Record(nodes, p, last, curr, temp);
        if curr > 0 {
          curr := curr - 1;
        } else {
          return iterations + 1;
        }
      } else if key > ahead.key {
        RightAt(nodes, key, p, pos, curr, iterations);
        Record(nodes, p, last, curr, ahead);
        temp, pos := ahead, j;
      }
      iterations := iterations + 1;
    }
  }

  /** The position at which an absent key belongs. */
  lemma Rank(ks: seq<int>, key: int) returns (p: nat)
    requires Sorted(ks) && |ks| > 0 && ks[0] < key && key !in ks
    ensures 1 <= p <= |ks|
    ensures forall i :: 0 <= i < p ==> ks[i] < key
    ensures forall i :: p <= i < |ks| ==> ks[i] > key
  {
    if exists i :: 0 <= i < |ks| && ks[i] >= key {
      p := FirstGreater(ks, key);
      assert forall i :: p < i < |ks| ==> ks[p] < ks[i];
    } else {
      p := |ks|;
    }
  }

  /** One entry of a run of insertions. */
  datatype Entry = Entry(key: int, uid: int, height: nat)

  ghost function PairsAfter(m: map<int, int>, run: seq<Entry>): map<int, int> {
    if run == [] then m else PairsAfter(m, run[..|run| - 1])[run[|run| - 1].key := run[|run| - 1].uid]
  }

  lemma {:induction false} PairsAfterKeys(m: map<int, int>, run: seq<Entry>, key: int)
    ensures key in PairsAfter(m, run) <==> key in m || exists i :: 0 <= i < |run| && run[i].key == key
  {
    if run == [] {
    } else {
      PairsAfterKeys(m, run[..|run| - 1], key);
      if i :| 0 <= i < |run| && run[i].key == key {
        assert i < |run| - 1 ==> run[..|run| - 1][i] == run[i];
      }
    }
  }

  /** Entries with non-negative, distinct keys and possible heights. */
  ghost predicate Insertable(run: seq<Entry>, maxHeight: int) {
    && (forall i :: 0 <= i < |run| ==> run[i].key >= 0 && 1 <= run[i].height <= maxHeight)
    && (forall i, j :: 0 <= i < j < |run| ==> run[i].key != run[j].key)
  }

  /** A fresh list and any run of insertions. */
  method InsertRun(maxHeight: int, chance: int, run: seq<Entry>) returns (list: SkipList)
    requires maxHeight >= 1 && Insertable(run, maxHeight)
    ensures list.Valid() && list.maxHeight == maxHeight && list.Pairs() == PairsAfter(map[], run)
  {
    list := new SkipList(maxHeight, chance);
    assert run[..0] == [];
    for k := 0 to |run|
      invariant fresh(list) && list.Valid() && list.maxHeight == maxHeight
      invariant forall n :: n in list.nodes ==> fresh(n.next)
      invariant list.Pairs() == PairsAfter(map[], run[..k])
    {
      NewKey(run, k);
      ghost var created, p, iterations := list.InsertKey(run[k].key, run[k].uid, run[k].height);
      assert run[..k + 1][..k] == run[..k];
    }
    assert run[..|run|] == run;
  }

  /** A fresh list, any run of insertions of distinct keys with any heights, then one search: it finds a
      node exactly when its key was inserted. */
  method InsertRunThenSearch(maxHeight: int, chance: int, run: seq<Entry>, key: int) returns (found: Node?)
    requires maxHeight >= 2 && key >= 0 && Insertable(run, maxHeight)
    ensures found != null <==> exists i :: 0 <= i < |run| && run[i].key == key
    ensures found != null ==> found.key == key && exists i :: 0 <= i < |run| && run[i].key == key && run[i].uid == found.uid
  {
    var list := InsertRun(maxHeight, chance, run);
    ghost var iterations;
    found, iterations := list.SkipSearch(key);
    FoundExactly(list.nodes, run, key, found);
  }

  lemma NewKey(run: seq<Entry>, k: nat)
    requires k < |run| && forall i, j :: 0 <= i < j < |run| ==> run[i].key != run[j].key
    ensures run[k].key !in PairsAfter(map[], run[..k])
  {
    PairsAfterKeys(map[], run[..k], run[k].key);
  }

  /** What the result of the search says about the insertions that made the list. */
  lemma FoundExactly(nodes: seq<Node>, run: seq<Entry>, key: int, found: Node?)
    requires |nodes| > 0 && Sorted(Keys(nodes)) && nodes[0].key < key && PairsOf(nodes) == PairsAfter(map[], run)
    requires if found != null then found in nodes && found.key == key else key !in Keys(nodes)
    ensures found != null <==> exists i :: 0 <= i < |run| && run[i].key == key
    ensures found != null ==> exists i :: 0 <= i < |run| && run[i].key == key && run[i].uid == found.uid
  {
    PairsAfterKeys(map[], run, key);
    PairsOfKeys(nodes, key);
    if found != null {
      var j :| 0 <= j < |nodes| && nodes[j] == found;
      PairsAfterValue(run, key);
    }
    assert forall i :: 1 <= i < |nodes| && nodes[i].key == key ==> Keys(nodes)[i] == key;
  }

  lemma {:induction false} PairsAfterValue(run: seq<Entry>, key: int)
    requires key in PairsAfter(map[], run)
    ensures exists i :: 0 <= i < |run| && run[i].key == key && run[i].uid == PairsAfter(map[], run)[key]
  {
    var last := run[|run| - 1];
    if last.key == key {
    } else {
      PairsAfterValue(run[..|run| - 1], key);
      var i :| 0 <= i < |run| - 1 && run[..|run| - 1][i].key == key
        && run[..|run| - 1][i].uid == PairsAfter(map[], run[..|run| - 1])[key];
      assert run[i].key == key;
    }
  }

  /** last holds, for every level from c up, the last node of that level before position p. */
  ghost predicate FoundFrom(nodes: seq<Node>, p: nat, last: array<Node>, c: nat)
    requires 1 <= p <= |nodes|
    reads last
  {
    last.Length <= nodes[0].height
    && forall a :: c <= a < last.Length ==> last[a] == nodes[LastBelow(Heights(nodes), p, a)]
  }

  ghost predicate Predecessors(nodes: seq<Node>, p: nat, last: array<Node>)
    requires 1 <= p <= |nodes|
    reads last
  {
    FoundFrom(nodes, p, last, 0)
  }

  /** The assignment last[curr] = temp of the descent. */
  method Record(ghost nodes: seq<Node>, ghost p: nat, last: array<Node>, curr: nat, temp: Node)
    requires 1 <= p <= |nodes| && curr < last.Length && FoundFrom(nodes, p, last, curr + 1)
    modifies last
    ensures last[..] == old(last[..])[curr := temp]
    ensures FoundFrom(nodes, p, last, curr + 1)
    ensures temp == nodes[LastBelow(Heights(nodes), p, curr)] ==> FoundFrom(nodes, p, last, curr)
  {
    last[curr] := temp;
  }

  /** The new node points where its predecessors point. */
  ghost predicate CreatedLinked(nodes: seq<Node>, p: nat, n: Node)
    requires 1 <= p <= |nodes| && n.height <= nodes[0].height
    reads n.next
  {
    n.next.Length == n.height
    && forall b :: 0 <= b < n.height ==>
         n.next[b] == Target(nodes, NextAt(Heights(nodes), LastBelow(Heights(nodes), p, b), b))
  }

  /** The pointers of node i after those to be redirected to n on the levels below k were. */
  ghost predicate RedirectedTo(nodes: seq<Node>, p: nat, n: Node, k: nat, i: nat, next: seq<Node?>)
    requires 1 <= p <= |nodes| && i < |nodes| && k <= nodes[0].height
  {
    |next| == nodes[i].height
    && forall b :: 0 <= b < nodes[i].height ==>
         next[b] == if b < k && i == LastBelow(Heights(nodes), p, b) then n
                    else Target(nodes, NextAt(Heights(nodes), i, b))
  }

  ghost predicate Redirected(nodes: seq<Node>, p: nat, n: Node, k: nat, i: nat)
    requires 1 <= p <= |nodes| && i < |nodes| && k <= nodes[0].height
    reads nodes[i].next
  {
    RedirectedTo(nodes, p, n, k, i, nodes[i].next[..])
  }

  lemma RedirectedMore(nodes: seq<Node>, p: nat, n: Node, a: nat, i: nat, next: seq<Node?>)
    requires 1 <= p <= |nodes| && i < |nodes| && a < nodes[0].height
    requires RedirectedTo(nodes, p, n, a, i, next)
    ensures var l := LastBelow(Heights(nodes), p, a);
            && (i == l ==> |next| > a && RedirectedTo(nodes, p, n, a + 1, i, next[a := n]))
            && (i != l ==> RedirectedTo(nodes, p, n, a + 1, i, next))
  {
    LastIsLast(Heights(nodes), p, a);
  }

  lemma TakenOver(nodes: seq<Node>, p: nat, a: nat)
    requires 1 <= p <= |nodes| && a < nodes[0].height
    requires forall k :: 0 <= k < |nodes| ==> nodes[k].height >= 1
    ensures var l := LastBelow(Heights(nodes), p, a);
            NextAt(Heights(nodes), l, 0) == |nodes| ==> NextAt(Heights(nodes), l, a) == |nodes|
  {
    BottomEndIsEveryEnd(Heights(nodes), LastBelow(Heights(nodes), p, a), a);
  }

  /** The new node takes over the pointers of its predecessors. */
  method TakeOver(ghost nodes: seq<Node>, last: array<Node>, ghost p: nat, created: Node)
    requires 1 <= p <= |nodes| && Predecessors(nodes, p, last)
    requires forall i :: 0 <= i < |nodes| ==> nodes[i].height >= 1 && nodes[i].next != created.next
    requires forall i :: 0 <= i < |nodes| ==> Linked(nodes, i)
    requires created.next.Length == created.height <= last.Length
    modifies created.next
    ensures CreatedLinked(nodes, p, created)
    ensures forall i :: 0 <= i < |nodes| ==> Linked(nodes, i)
  {
    var a := 0;
    while a < created.height
      invariant 0 <= a <= created.height
      invariant forall i :: 0 <= i < |nodes| ==> Linked(nodes, i)
      invariant forall b :: 0 <= b < a ==>
        created.next[b] == Target(nodes, NextAt(Heights(nodes), LastBelow(Heights(nodes), p, b), b))
    {
      ghost var l := LastBelow(Heights(nodes), p, a);
      assert last[a] == nodes[l];
      assert Linked(nodes, l);
      TakenOver(nodes, p, a);
      LastIsLast(Heights(nodes), p, a);
      label Before:
      if last[a].next[0] == null {
        created.next[a] := null;
      } else {
        created.next[a] := last[a].next[a];
      }
      forall i | 0 <= i < |nodes|
        ensures Linked(nodes, i)
      {
        assert old@Before(Linked(nodes, i));
      }
      a := a + 1;
    }
  }

  /** The predecessors are redirected to the new node. */
  method Redirect(ghost nodes: seq<Node>, last: array<Node>, ghost p: nat, created: Node)
    requires 1 <= p <= |nodes| && Predecessors(nodes, p, last)
    requires forall i, j :: 0 <= i < j < |nodes| ==> nodes[i].next != nodes[j].next
    requires forall i :: 0 <= i < |nodes| ==> Linked(nodes, i)
    requires created.height <= last.Length
    modifies set n | n in nodes :: n.next
    ensures forall i :: 0 <= i < |nodes| ==> Redirected(nodes, p, created, created.height, i)
  {
    forall i | 0 <= i < |nodes|
      ensures Redirected(nodes, p, created, 0, i)
    {
      assert Linked(nodes, i);
    }
    var a := 0;
    while a < created.height
      invariant 0 <= a <= created.height
      invariant forall i :: 0 <= i < |nodes| ==> Redirected(nodes, p, created, a, i)
    {
      ghost var l, k := LastBelow(Heights(nodes), p, a), a + 1;
      LastIsLast(Heights(nodes), p, a);
      assert last[a] == nodes[l];
      assert Redirected(nodes, p, created, a, l);
      label Before:
      last[a].next[a] := created;
      assert nodes[l].next[..] == old@Before(nodes[l].next[..])[a := created];
      forall i | 0 <= i < |nodes|
        ensures Redirected(nodes, p, created, k, i)
      {
        assert old@Before(Redirected(nodes, p, created, a, i));
        assert i != l ==> nodes[i].next != nodes[l].next;
        RedirectedMore(nodes, p, created, a, i, old@Before(nodes[i].next[..]));
      }
      a := a + 1;
    }
  }

  /** The nodes with n put in front of position p. */
  ghost function WithNode(nodes: seq<Node>, p: nat, n: Node): seq<Node>
    requires p <= |nodes|
  {
    nodes[..p] + [n] + nodes[p..]
  }

  lemma WithNodeHeights(nodes: seq<Node>, p: nat, n: Node)
    requires p <= |nodes|
    ensures Heights(WithNode(nodes, p, n)) == Spliced(Heights(nodes), p, n.height)
  {
  }

  lemma WithNodeLayout(nodes: seq<Node>, p: nat, n: Node, maxHeight: nat)
    requires Layout(Keys(nodes), Heights(nodes), maxHeight) && 1 <= n.height <= maxHeight
    requires 1 <= p <= |nodes| && nodes[p - 1].key < n.key && (p < |nodes| ==> n.key < nodes[p].key)
    ensures Layout(Keys(WithNode(nodes, p, n)), Heights(WithNode(nodes, p, n)), maxHeight)
  {
    var ks, t := Keys(nodes), Keys(WithNode(nodes, p, n));
    WithNodeHeights(nodes, p, n);
    assert t == ks[..p] + [n.key] + ks[p..];
    forall i, j | 0 <= i < j < |t|
      ensures t[i] < t[j]
    {
      assert i < p - 1 ==> ks[i] < ks[p - 1];
      assert j > p + 1 ==> ks[p] < ks[j - 1];
    }
  }

  lemma WithNodeTarget(nodes: seq<Node>, p: nat, n: Node, j: nat)
    requires p <= |nodes| && j <= |nodes| + 1
    ensures Target(WithNode(nodes, p, n), j)
         == if j < p then Target(nodes, j) else if j == p then n else Target(nodes, j - 1)
  {
  }

  /** A redirected pointer of an old node is the right one for the longer list. */
  lemma RedirectedLink(nodes: seq<Node>, p: nat, n: Node, i: nat, a: nat)
    requires 1 <= p <= |nodes| && i < |nodes| && nodes[i].height > a && nodes[0].height > a
    ensures Target(WithNode(nodes, p, n),
                   NextAt(Spliced(Heights(nodes), p, n.height), if i < p then i else i + 1, a))
         == if a < n.height && i == LastBelow(Heights(nodes), p, a) then n
            else Target(nodes, NextAt(Heights(nodes), i, a))
  {
    var hs := Heights(nodes);
    if i < p {
      SplicedBefore(hs, p, n.height, i, a);
      WithNodeTarget(nodes, p, n, NextAt(Spliced(hs, p, n.height), i, a));
    } else {
      SplicedAfter(hs, p, n.height, i, a);
      WithNodeTarget(nodes, p, n, NextAt(Spliced(hs, p, n.height), i + 1, a));
    }
  }

  lemma CreatedLink(nodes: seq<Node>, p: nat, n: Node, a: nat)
    requires 1 <= p <= |nodes| && nodes[0].height > a && a < n.height
    ensures Target(WithNode(nodes, p, n), NextAt(Spliced(Heights(nodes), p, n.height), p, a))
         == Target(nodes, NextAt(Heights(nodes), LastBelow(Heights(nodes), p, a), a))
  {
    var hs := Heights(nodes);
    SplicedAt(hs, p, n.height, a);
    WithNodeTarget(nodes, p, n, NextAt(Spliced(hs, p, n.height), p, a));
  }

  lemma CreatedIsLinked(nodes: seq<Node>, p: nat, n: Node)
    requires 1 <= p <= |nodes| && n.height <= nodes[0].height
    requires CreatedLinked(nodes, p, n)
    ensures Linked(WithNode(nodes, p, n), p)
  {
    var t := WithNode(nodes, p, n);
    WithNodeHeights(nodes, p, n);
    forall a | 0 <= a < n.height
      ensures n.next[a] == Target(t, NextAt(Heights(t), p, a))
    {
      CreatedLink(nodes, p, n, a);
    }
  }

  lemma RedirectedIsLinked(nodes: seq<Node>, p: nat, n: Node, i: nat)
    requires 1 <= p <= |nodes| && i < |nodes| && n.height <= nodes[0].height
    requires nodes[i].height <= nodes[0].height
    requires Redirected(nodes, p, n, n.height, i)
    ensures Linked(WithNode(nodes, p, n), if i < p then i else i + 1)
  {
    var t := WithNode(nodes, p, n);
    var k := if i < p then i else i + 1;
    WithNodeHeights(nodes, p, n);
    assert t[k] == nodes[i];
    forall a | 0 <= a < nodes[i].height
      ensures nodes[i].next[a] == Target(t, NextAt(Heights(t), k, a))
    {
      RedirectedLink(nodes, p, n, i, a);
    }
  }

  lemma WithNodeLinked(nodes: seq<Node>, p: nat, n: Node)
    requires 1 <= p <= |nodes| && n.height <= nodes[0].height
    requires forall i :: 0 <= i < |nodes| ==> nodes[i].height <= nodes[0].height
    requires CreatedLinked(nodes, p, n)
    requires forall i :: 0 <= i < |nodes| ==> Redirected(nodes, p, n, n.height, i)
    ensures forall i :: 0 <= i < |WithNode(nodes, p, n)| ==> Linked(WithNode(nodes, p, n), i)
  {
    var t := WithNode(nodes, p, n);
    forall i | 0 <= i < |t|
      ensures Linked(t, i)
    {
      if i == p {
        CreatedIsLinked(nodes, p, n);
      } else {
        RedirectedIsLinked(nodes, p, n, if i < p then i else i - 1);
      }
    }
  }

  lemma WithNodeDistinct(nodes: seq<Node>, p: nat, n: Node)
    requires p <= |nodes|
    requires forall i, j :: 0 <= i < j < |nodes| ==> nodes[i].next != nodes[j].next
    requires forall i :: 0 <= i < |nodes| ==> nodes[i].next != n.next
    ensures var t := WithNode(nodes, p, n);
            forall i, j :: 0 <= i < j < |t| ==> t[i].next != t[j].next
  {
  }

  /** The two linking loops, one after the other. */
  method Link(ghost nodes: seq<Node>, last: array<Node>, ghost p: nat, created: Node)
    requires 1 <= p <= |nodes| && Predecessors(nodes, p, last)
    requires forall i :: 0 <= i < |nodes| ==> 1 <= nodes[i].height <= nodes[0].height
    requires forall i :: 0 <= i < |nodes| ==> nodes[i].next != created.next
    requires forall i, j :: 0 <= i < j < |nodes| ==> nodes[i].next != nodes[j].next
    requires forall i :: 0 <= i < |nodes| ==> Linked(nodes, i)
    requires created.next.Length == created.height <= last.Length
    modifies created.next, set n | n in nodes :: n.next
    ensures forall i :: 0 <= i < |WithNode(nodes, p, created)| ==> Linked(WithNode(nodes, p, created), i)
  {
    TakeOver(nodes, last, p, created);
    label Between:
    Redirect(nodes, last, p, created);
    assert old@Between(CreatedLinked(nodes, p, created));
    WithNodeLinked(nodes, p, created);
  }
}
