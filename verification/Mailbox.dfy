/** The mailbox store of project1/prototype/project1.c: a list of mailboxes, each with a message queue, a
    message counter and an access list. */
module Mailbox {
  import opened Errno

  const MAXID: int := 4611690000000000000

  /** The bytes copied from the sender, and the length that the sender gave. */
  datatype Message = Message(msg: seq<int>, length: nat)

  /** The message that send makes of its arguments, once a negative length is turned away. */
  function Sent(msg: seq<int>, len: int): Message {
    Message(msg, if len < 0 then 0 else len)
  }

  /** `Meant` counts a received message off again; `RecvAsWritten` leaves the counter alone, as the code
      does. Both read the tests of init and of the id as InitNeverSucceeds and RangeTestExcludesUsers say. */
  datatype Reading = Meant | RecvAsWritten

  datatype Box = Box(id: nat, count: nat, messages: seq<Message>, acl: seq<int>, aclC: bool)

  datatype Store = Store(started: bool, mail: seq<Box>)

  datatype Op =
    | Init(uid: nat, ptrs: nat, prob: nat)
    | Shutdown(uid: nat)
    | Create(uid: nat, id: nat, granted: bool)
    | Destroy(uid: nat, id: nat)
    | Send(uid: nat, id: nat, msg: seq<int>, len: int, granted: bool)
    | Recv(uid: nat, id: nat)
    | AclAdd(uid: nat, id: nat, pid: int, granted: bool)
    | AclRemove(uid: nat, id: nat, pid: int)

  predicate ValidId(id: nat) {
    id != 0 && id <= MAXID
  }

  /** The position of the mailbox with the given id at or after i, or the length of the list. */
  function Locate(mail: seq<Box>, id: nat, i: nat): (k: nat)
    requires i <= |mail|
    ensures i <= k <= |mail|
    ensures k < |mail| ==> mail[k].id == id
    ensures forall j :: i <= j < k ==> mail[j].id != id
    decreases |mail| - i
  {
    if i == |mail| || mail[i].id == id then i else Locate(mail, id, i + 1)
  }

  function Pos(acl: seq<int>, pid: int): (k: nat)
    ensures k <= |acl| && (k < |acl| ==> acl[k] == pid) && pid !in acl[..k]
  {
    if acl == [] || acl[0] == pid then 0 else 1 + Pos(acl[1..], pid)
  }

  // ---- What a call does to its mailbox, and its return code ----

  /** The counter moves before the allocations are tried. */
  function Delivered(box: Box, message: Message, granted: bool): (Box, int) {
    var counted := box.(count := box.count + 1);
    if granted then (counted.(messages := counted.messages + [message]), 0) else (counted, -ENOMEM)
  }

  /** recv returns the length sent along. A positive counter and no message at all makes the code unlink the
      list head; the result for that case is a placeholder, and every result about runs asks AllDefined. */
  function Taken(reading: Reading, box: Box): (Box, int) {
    if box.count == 0 then (box, -ESRCH)
    else if box.messages == [] then (box, 0)
    else (box.(messages := box.messages[1..], count := if reading.Meant? then box.count - 1 else box.count),
          box.messages[0].length)
  }

  function Permitted(box: Box, pid: int, granted: bool): (Box, int) {
    if pid in box.acl then (box, -EINVAL)
    else if !granted then (box.(aclC := true), -ENOMEM)
    else (box.(aclC := true, acl := box.acl + [pid]), 0)
  }

  function Revoked(box: Box, pid: int): (Box, int) {
    if pid !in box.acl then (box, -EINVAL)
    else var p := Pos(box.acl, pid); (box.(acl := box.acl[..p] + box.acl[p + 1..]), 0)
  }

  /** What a call does to the store. */
  datatype Change =
    | Keep
    | Begin
    | Clear
    | Append(box: Box)
    | Delete(k: nat)
    | Replace(k: nat, box: Box)

  /** One system call: its change and its return code. */
  function Effect(reading: Reading, s: Store, op: Op): (Change, int) {
    match op
    case Init(uid, ptrs, prob) =>
      if s.started then (Keep, -EEXIST)
      else if uid != 0 then (Keep, -EPERM)
      else if ptrs == 0 then (Keep, -EINVAL)
      else if prob !in {2, 4, 8, 16} then (Keep, -EINVAL)
      else (Begin, 0)
    case Shutdown(uid) => if uid != 0 then (Keep, -EPERM) else (Clear, 0)
    case Create(uid, id, granted) =>
      if !s.started then (Keep, -ENOENT)
      else if !ValidId(id) then (Keep, -EFAULT)
      else if uid != 0 then (Keep, -EPERM)
      else if Locate(s.mail, id, 0) < |s.mail| then (Keep, -EEXIST)
      else if !granted then (Keep, -ENOMEM)
      else (Append(Box(id, 0, [], [], false)), 0)
    case Destroy(uid, id) =>
      if !s.started then (Keep, -ENOENT)
      else if uid != 0 then (Keep, -EPERM)
      else
        var k := Locate(s.mail, id, 0);
        if k == |s.mail| then (Keep, -ENOENT)
        else if s.mail[k].count > 0 then (Keep, -EINVAL)
        else (Delete(k), 0)
    case Send(uid, id, msg, len, granted) =>
      if !s.started then (Keep, -ENOENT)
      else if !ValidId(id) then (Keep, -EFAULT)
      else if uid != id then (Keep, -EPERM)
      else if len < 0 then (Keep, -EINVAL)
      else
        var k := Locate(s.mail, id, 0);
        if k == |s.mail| then (Keep, -ENOENT)
        else var r := Delivered(s.mail[k], Sent(msg, len), granted); (Replace(k, r.0), r.1)
    case Recv(uid, id) =>
      if !s.started then (Keep, -ENOENT)
      else if !ValidId(id) then (Keep, -EFAULT)
      else if uid != id then (Keep, -EPERM)
      else
        var k := Locate(s.mail, id, 0);
        if k == |s.mail| then (Keep, -ENOENT)
        else var r := Taken(reading, s.mail[k]); (Replace(k, r.0), r.1)
    case AclAdd(uid, id, pid, granted) =>
      if uid != 0 then (Keep, -EPERM)
      else
        var k := Locate(s.mail, id, 0);
        if k == |s.mail| then (Keep, -EINVAL)
        else var r := Permitted(s.mail[k], pid, granted); (Replace(k, r.0), r.1)
    case AclRemove(uid, id, pid) =>
      if uid != 0 then (Keep, -EPERM)
      else
        var k := Locate(s.mail, id, 0);
        if k == |s.mail| then (Keep, -EINVAL)
        else var r := Revoked(s.mail[k], pid); (Replace(k, r.0), r.1)
  }

  predicate Applies(s: Store, c: Change) {
    match c
    case Delete(k) => k < |s.mail|
    case Replace(k, box) => k < |s.mail| && box.id == s.mail[k].id
    case Append(box) => Locate(s.mail, box.id, 0) == |s.mail|
    case _ => true
  }

  function Apply(s: Store, c: Change): Store
    requires Applies(s, c)
  {
    match c
    case Keep => s
    case Begin => s.(started := true)
    case Clear => Store(false, [])
    case Append(box) => s.(mail := s.mail + [box])
    case Delete(k) => s.(mail := s.mail[..k] + s.mail[k + 1..])
    case Replace(k, box) => s.(mail := s.mail[k := box])
  }

  function Step(reading: Reading, s: Store, op: Op): (Store, int) {
    var e := Effect(reading, s, op);
    (Apply(s, e.0), e.1)
  }

  /** The call does not take a message out of an empty queue. */
  predicate Defined(s: Store, op: Op) {
    op.Recv? && s.started && ValidId(op.id) && op.uid == op.id && Locate(s.mail, op.id, 0) < |s.mail| ==>
      var box := s.mail[Locate(s.mail, op.id, 0)];
      box.count > 0 ==> box.messages != []
  }

  // ---- Whole runs ----

  function After(reading: Reading, run: seq<Op>): Store {
    if run == [] then Store(false, []) else Step(reading, After(reading, run[..|run| - 1]), run[|run| - 1]).0
  }

  /** No call of the run takes a message out of an empty queue. */
  ghost predicate AllDefined(reading: Reading, run: seq<Op>) {
    forall k :: 0 <= k < |run| ==> Defined(After(reading, run[..k]), run[k])
  }

  /** The return code of call number k. */
  function CodeAt(reading: Reading, run: seq<Op>, k: nat): int
    requires k < |run|
  {
    Step(reading, After(reading, run[..k]), run[k]).1
  }

  /** What happened to mailbox `id` since it was last created. */
  datatype History = History(sent: seq<Message>, received: seq<Message>, failed: nat, allowed: set<int>)

  /** How one call moves the history of mailbox `id`. */
  function NextHistory(reading: Reading, s: Store, op: Op, id: nat, past: History): History {
    var code := Effect(reading, s, op).1;
    var k := Locate(s.mail, id, 0);
    if op.Create? && op.id == id && code == 0 then History([], [], 0, {})
    else if op.Send? && op.id == id && code == 0 then past.(sent := past.sent + [Sent(op.msg, op.len)])
    else if op.Send? && op.id == id && code == -ENOMEM then past.(failed := past.failed + 1)
    else if op.Recv? && op.id == id && code >= 0 && k < |s.mail| && s.mail[k].messages != []
      then past.(received := past.received + [s.mail[k].messages[0]])
    else if op.AclAdd? && op.id == id && code == 0 then past.(allowed := past.allowed + {op.pid})
    else if op.AclRemove? && op.id == id && code == 0 then past.(allowed := past.allowed - {op.pid})
    else past
  }

  function HistoryOf(reading: Reading, run: seq<Op>, id: nat): History {
    if run == [] then History([], [], 0, {})
    else
      var front := run[..|run| - 1];
      NextHistory(reading, After(reading, front), run[|run| - 1], id, HistoryOf(reading, front, id))
  }

  ghost predicate DistinctIds(mail: seq<Box>) {
    forall i, j :: 0 <= i < j < |mail| ==> mail[i].id != mail[j].id
  }

  /** The list holds exactly the members of the set, each once. */
  ghost predicate Lists(acl: seq<int>, allowed: set<int>) {
    && (forall pid: int :: pid in acl <==> pid in allowed)
    && (forall i, j :: 0 <= i < j < |acl| ==> acl[i] != acl[j])
  }

  /** The box holds what was sent and not yet received, its counter is off by exactly the failed sends and,
      as written, by everything ever received, and its access list holds who was let in and not put out. */
  ghost predicate Accounted(reading: Reading, box: Box, h: History) {
    && h.sent == h.received + box.messages
    && box.count == |box.messages| + h.failed + (if reading.Meant? then 0 else |h.received|)
    && Lists(box.acl, h.allowed)
  }

  ghost predicate Inv(reading: Reading, run: seq<Op>) {
    var s := After(reading, run);
    && DistinctIds(s.mail)
    && forall i :: 0 <= i < |s.mail| ==> Accounted(reading, s.mail[i], HistoryOf(reading, run, s.mail[i].id))
  }

  lemma LocateUnique(mail: seq<Box>, id: nat, i: nat)
    requires DistinctIds(mail) && i < |mail| && mail[i].id == id
    ensures Locate(mail, id, 0) == i
  {
  }

  /** The mailbox a call is about. */
  predicate Concerns(op: Op, id: nat) {
    match op
    case Init(_, _, _) => false
    case Shutdown(_) => true
    case Create(_, i, _) => i == id
    case Destroy(_, i) => i == id
    case Send(_, i, _, _, _) => i == id
    case Recv(_, i) => i == id
    case AclAdd(_, i, _, _) => i == id
    case AclRemove(_, i, _) => i == id
  }

  predicate ChangeConcerns(s: Store, c: Change, id: nat)
    requires Applies(s, c)
  {
    match c
    case Keep => false
    case Begin => false
    case Clear => true
    case Append(box) => box.id == id
    case Delete(k) => s.mail[k].id == id
    case Replace(k, box) => box.id == id
  }

  ghost predicate Holds(mail: seq<Box>, box: Box) {
    exists i :: 0 <= i < |mail| && mail[i] == box
  }

  lemma ChangeKeepsOthers(s: Store, c: Change, box: Box)
    requires Applies(s, c) && !ChangeConcerns(s, c, box.id)
    ensures Holds(s.mail, box) <==> Holds(Apply(s, c).mail, box)
  {
    var t := Apply(s, c);
    if i :| 0 <= i < |s.mail| && s.mail[i] == box {
      assert t.mail[if c.Delete? && c.k < i then i - 1 else i] == box;
    }
    if i :| 0 <= i < |t.mail| && t.mail[i] == box {
      assert s.mail[if c.Delete? && c.k <= i then i + 1 else i] == box;
    }
  }

  lemma ChangeKeepsDistinct(s: Store, c: Change)
    requires Applies(s, c) && DistinctIds(s.mail)
    ensures DistinctIds(Apply(s, c).mail)
  {
  }

  /** A call leaves every mailbox that it is not about exactly as it was. */
  lemma OthersUntouched(reading: Reading, s: Store, op: Op, box: Box)
    requires !Concerns(op, box.id)
    ensures Holds(s.mail, box) <==> Holds(Step(reading, s, op).0.mail, box)
  {
    ChangeKeepsOthers(s, Effect(reading, s, op).0, box);
  }

  lemma SendAccounts(reading: Reading, s: Store, op: Op, past: History)
    requires op.Send? && DistinctIds(s.mail) && Locate(s.mail, op.id, 0) < |s.mail|
    requires Accounted(reading, s.mail[Locate(s.mail, op.id, 0)], past)
    ensures var k := Locate(s.mail, op.id, 0);
            Accounted(reading, Step(reading, s, op).0.mail[k], NextHistory(reading, s, op, op.id, past))
  {
    var box := s.mail[Locate(s.mail, op.id, 0)];
    assert past.sent + [Sent(op.msg, op.len)] == past.received + (box.messages + [Sent(op.msg, op.len)]);
  }

  lemma RecvAccounts(reading: Reading, s: Store, op: Op, past: History)
    requires op.Recv? && DistinctIds(s.mail) && Locate(s.mail, op.id, 0) < |s.mail|
    requires Accounted(reading, s.mail[Locate(s.mail, op.id, 0)], past)
    ensures var k := Locate(s.mail, op.id, 0);
            Accounted(reading, Step(reading, s, op).0.mail[k], NextHistory(reading, s, op, op.id, past))
  {
    var box := s.mail[Locate(s.mail, op.id, 0)];
    if box.messages != [] {
      assert box.messages == [box.messages[0]] + box.messages[1..];
      assert past.received + box.messages == past.received + [box.messages[0]] + box.messages[1..];
    }
  }

  lemma KeepHistory(reading: Reading, s: Store, op: Op, id: nat, past: History)
    requires Effect(reading, s, op).0.Keep?
    ensures NextHistory(reading, s, op, id, past) == past
  {
  }

  lemma PermittedLists(box: Box, pid: int, granted: bool, allowed: set<int>)
    requires Lists(box.acl, allowed)
    ensures Lists(Permitted(box, pid, granted).0.acl, if Permitted(box, pid, granted).1 == 0 then allowed + {pid} else allowed)
  {
  }

  lemma RevokedLists(box: Box, pid: int, allowed: set<int>)
    requires Lists(box.acl, allowed)
    ensures Lists(Revoked(box, pid).0.acl, if Revoked(box, pid).1 == 0 then allowed - {pid} else allowed)
  {
    if pid in box.acl {
      PosIsThere(box.acl, pid);
      RemovedLists(box.acl, Pos(box.acl, pid), allowed);
    }
  }

  lemma RemovedLists(acl: seq<int>, p: nat, allowed: set<int>)
    requires Lists(acl, allowed) && p < |acl|
    ensures Lists(acl[..p] + acl[p + 1..], allowed - {acl[p]})
  {
    var t := acl[..p] + acl[p + 1..];
    assert forall i :: 0 <= i < |t| ==> t[i] == acl[if i < p then i else i + 1];
    forall q: int
      ensures q in t <==> q in acl && q != acl[p]
    {
      if i :| 0 <= i < |acl| && acl[i] == q && i != p {
        assert t[if i < p then i else i - 1] == q;
      }
    }
  }

  lemma {:induction false} PosIsThere(acl: seq<int>, pid: int)
    requires pid in acl
    ensures Pos(acl, pid) < |acl|
  {
    if acl[0] == pid {
    } else {
      PosIsThere(acl[1..], pid);
    }
  }

  lemma AclAccounts(reading: Reading, s: Store, op: Op, past: History)
    requires (op.AclAdd? || op.AclRemove?) && Locate(s.mail, op.id, 0) < |s.mail|
    requires Accounted(reading, s.mail[Locate(s.mail, op.id, 0)], past)
    ensures var k := Locate(s.mail, op.id, 0);
            Accounted(reading, Step(reading, s, op).0.mail[k], NextHistory(reading, s, op, op.id, past))
  {
    var box := s.mail[Locate(s.mail, op.id, 0)];
    match op {
      case AclAdd(_, _, pid, granted) => PermittedLists(box, pid, granted, past.allowed);
      case AclRemove(_, _, pid) => RevokedLists(box, pid, past.allowed);
    }
  }

  lemma DeletedIdIsGone(s: Store, k: nat)
    requires DistinctIds(s.mail) && k < |s.mail|
    ensures forall j :: 0 <= j < |Apply(s, Delete(k)).mail| ==> Apply(s, Delete(k)).mail[j].id != s.mail[k].id
  {
    var t := Apply(s, Delete(k));
    assert forall j :: 0 <= j < |t.mail| ==> t.mail[j] == s.mail[if j < k then j else j + 1];
  }

  /** Which calls make which changes. */
  lemma ChangeKinds(reading: Reading, s: Store, op: Op)
    ensures var c := Effect(reading, s, op).0;
            && (c.Append? <==> op.Create? && Effect(reading, s, op).1 == 0)
            && (c.Delete? <==> op.Destroy? && Effect(reading, s, op).1 == 0)
            && (c.Clear? <==> op.Shutdown? && Effect(reading, s, op).1 == 0)
            && (c.Append? ==> c.box == Box(op.id, 0, [], [], false))
            && (c.Delete? ==> s.mail[c.k].id == op.id)
            && (c.Replace? ==> (op.Send? || op.Recv? || op.AclAdd? || op.AclRemove?)
                               && c.k == Locate(s.mail, op.id, 0) && c.box.id == op.id)
            && (c.Begin? ==> op.Init?)
  {
  }

  lemma ReplaceAccounts(reading: Reading, s: Store, op: Op, past: History)
    requires DistinctIds(s.mail) && Effect(reading, s, op).0.Replace?
    requires (op.Send? || op.Recv? || op.AclAdd? || op.AclRemove?) && Locate(s.mail, op.id, 0) < |s.mail|
    requires Accounted(reading, s.mail[Locate(s.mail, op.id, 0)], past)
    ensures var k := Locate(s.mail, op.id, 0);
            Accounted(reading, Step(reading, s, op).0.mail[k], NextHistory(reading, s, op, op.id, past))
  {
    if op.Send? {
      SendAccounts(reading, s, op, past);
    } else if op.Recv? {
      RecvAccounts(reading, s, op, past);
    } else {
      AclAccounts(reading, s, op, past);
    }
  }

  /** The history that the change of a call leaves for a mailbox it is about. */
  ghost predicate Settles(reading: Reading, s: Store, op: Op, box: Box, past: History) {
    Accounted(reading, box, NextHistory(reading, s, op, box.id, past))
  }

  /** A mailbox that a call is about and that is still there is accounted for by its new history. */
  lemma CallAccounts(reading: Reading, s: Store, op: Op, i: nat, past: History)
    requires DistinctIds(s.mail) && i < |Step(reading, s, op).0.mail|
    requires Concerns(op, Step(reading, s, op).0.mail[i].id)
    requires var k := Locate(s.mail, Step(reading, s, op).0.mail[i].id, 0);
             k < |s.mail| ==> Accounted(reading, s.mail[k], past)
    ensures Settles(reading, s, op, Step(reading, s, op).0.mail[i], past)
  {
    var c := Effect(reading, s, op).0;
    var t := Apply(s, c);
    ChangeKinds(reading, s, op);
    ChangeKeepsDistinct(s, c);
    match c {
      case Keep =>
        LocateUnique(s.mail, t.mail[i].id, i);
        KeepHistory(reading, s, op, t.mail[i].id, past);
      case Begin =>
      case Clear =>
      case Append(box) =>
        LocateUnique(t.mail, box.id, |s.mail|);
        LocateUnique(t.mail, box.id, i);
      case Delete(k) =>
        DeletedIdIsGone(s, k);
      case Replace(k, box) =>
        LocateUnique(t.mail, box.id, k);
        LocateUnique(t.mail, box.id, i);
        ReplaceAccounts(reading, s, op, past);
    }
  }

  lemma OtherAccounts(reading: Reading, s: Store, op: Op, i: nat) returns (j: nat)
    requires i < |Step(reading, s, op).0.mail| && !Concerns(op, Step(reading, s, op).0.mail[i].id)
    ensures j < |s.mail| && s.mail[j] == Step(reading, s, op).0.mail[i]
    ensures forall past: History :: NextHistory(reading, s, op, s.mail[j].id, past) == past
  {
    var box := Step(reading, s, op).0.mail[i];
    OthersUntouched(reading, s, op, box);
    assert Holds(Step(reading, s, op).0.mail, box);
    j :| 0 <= j < |s.mail| && s.mail[j] == box;
  }

  lemma InvNext(reading: Reading, run: seq<Op>)
    requires run != [] && Inv(reading, run[..|run| - 1])
    ensures Inv(reading, run)
  {
    var front, op := run[..|run| - 1], run[|run| - 1];
    var s, t := After(reading, front), After(reading, run);
    ChangeKeepsDistinct(s, Effect(reading, s, op).0);
    forall i | 0 <= i < |t.mail|
      ensures Accounted(reading, t.mail[i], HistoryOf(reading, run, t.mail[i].id))
    {
      if Concerns(op, t.mail[i].id) {
        CallAccounts(reading, s, op, i, HistoryOf(reading, front, t.mail[i].id));
      } else {
        var j := OtherAccounts(reading, s, op, i);
        assert Accounted(reading, s.mail[j], HistoryOf(reading, front, s.mail[j].id));
      }
    }
  }

  lemma {:induction false} RunKeepsInv(reading: Reading, run: seq<Op>)
    ensures Inv(reading, run)
  {
    if run == [] {
    } else {
      RunKeepsInv(reading, run[..|run| - 1]);
      InvNext(reading, run);
    }
  }

  /** On every defined run the ids stay distinct, and for every mailbox what was sent since its creation is
      what was received followed by its queue, and its access list holds exactly the processes let in and not
      put out since, each once. */
  lemma RunAccounts(reading: Reading, run: seq<Op>, i: nat)
    requires AllDefined(reading, run) && i < |After(reading, run).mail|
    ensures DistinctIds(After(reading, run).mail)
    ensures var box := After(reading, run).mail[i];
            var h := HistoryOf(reading, run, box.id);
            h.sent == h.received + box.messages && Lists(box.acl, h.allowed)
  {
    RunKeepsInv(reading, run);
  }

  /** The counter is the queue length exactly when no send failed half-way and, as written, nothing was
      ever received from the mailbox. */
  lemma CountExactly(reading: Reading, run: seq<Op>, i: nat)
    requires AllDefined(reading, run) && i < |After(reading, run).mail|
    ensures var box := After(reading, run).mail[i];
            var h := HistoryOf(reading, run, box.id);
            box.count == |box.messages| <==> h.failed == 0 && (reading.Meant? || h.received == [])
  {
    RunKeepsInv(reading, run);
  }

  // ---- When is a run defined? ----

  /** The call is a receive that gets as far as its mailbox. */
  predicate Receives(s: Store, op: Op) {
    op.Recv? && s.started && ValidId(op.id) && op.uid == op.id && Locate(s.mail, op.id, 0) < |s.mail|
  }

  /** Something sent has not been received, or the counter is exact. */
  predicate Safe(reading: Reading, h: History) {
    h.sent != h.received || (h.failed == 0 && (reading.Meant? || h.received == []))
  }

  /** What the account of a mailbox says about its counter and its queue. */
  lemma AccountedCounter(reading: Reading, box: Box, h: History)
    requires Accounted(reading, box, h)
    ensures box.messages == [] <==> h.sent == h.received
    ensures box.count == 0 <==> h.sent == h.received && h.failed == 0 && (reading.Meant? || h.received == [])
  {
    assert |h.sent| == |h.received| + |box.messages|;
    assert box.messages == [] ==> h.sent == h.received;
  }

  /** A receive that reaches its mailbox finds a message behind a positive counter exactly when its history
      is safe. */
  lemma DefinedExactly(reading: Reading, run: seq<Op>, op: Op)
    requires Receives(After(reading, run), op)
    ensures Defined(After(reading, run), op) <==> Safe(reading, HistoryOf(reading, run, op.id))
  {
    RunKeepsInv(reading, run);
    var s, h := After(reading, run), HistoryOf(reading, run, op.id);
    AccountedCounter(reading, s.mail[Locate(s.mail, op.id, 0)], h);
  }

  /** Receive number k, if it reaches its mailbox, does so with a safe history. */
  ghost predicate SafeAt(reading: Reading, run: seq<Op>, k: nat)
    requires k < |run|
  {
    Receives(After(reading, run[..k]), run[k]) ==> Safe(reading, HistoryOf(reading, run[..k], run[k].id))
  }

  /** A whole run is defined exactly when each of its receives that reaches its mailbox has a safe history. */
  lemma RunDefinedExactly(reading: Reading, run: seq<Op>)
    ensures AllDefined(reading, run) <==> forall k :: 0 <= k < |run| ==> SafeAt(reading, run, k)
  {
    forall k: nat | k < |run|
      ensures Defined(After(reading, run[..k]), run[k]) <==> SafeAt(reading, run, k)
    {
      if Receives(After(reading, run[..k]), run[k]) {
        DefinedExactly(reading, run[..k], run[k]);
      }
    }
  }

  lemma {:induction false} NothingFailed(reading: Reading, run: seq<Op>, id: nat)
    requires forall k :: 0 <= k < |run| && run[k].Send? ==> run[k].granted
    ensures HistoryOf(reading, run, id).failed == 0
  {
    if run == [] {
    } else {
      NothingFailed(reading, run[..|run| - 1], id);
    }
  }

  /** With the counter taken down on receipt, every run whose sends all get their memory is defined. */
  lemma GrantedRunsAreDefined(run: seq<Op>)
    requires forall k :: 0 <= k < |run| && run[k].Send? ==> run[k].granted
    ensures AllDefined(Meant, run)
  {
    RunDefinedExactly(Meant, run);
    forall k: nat | k < |run|
      ensures SafeAt(Meant, run, k)
    {
      if run[k].Recv? { NothingFailed(Meant, run[..k], run[k].id); }
    }
  }

  lemma AfterOneMore(reading: Reading, run: seq<Op>, op: Op)
    ensures After(reading, run + [op]) == Step(reading, After(reading, run), op).0
  {
    assert (run + [op])[..|run|] == run;
  }

  /** A started store with one mailbox, on which the history of calls below works. */
  function OneBox(id: nat, count: nat, messages: seq<Message>): Store {
    Store(true, [Box(id, count, messages, [], false)])
  }

  lemma SendThenReceive(id: nat, msg: seq<int>, len: nat)
    requires ValidId(id)
    ensures Step(RecvAsWritten, Store(true, []), Create(0, id, true)).0 == OneBox(id, 0, [])
    ensures Step(RecvAsWritten, OneBox(id, 0, []), Send(id, id, msg, len, true)).0 == OneBox(id, 1, [Sent(msg, len)])
    ensures Step(RecvAsWritten, OneBox(id, 1, [Sent(msg, len)]), Recv(id, id)).0 == OneBox(id, 1, [])
    ensures !Defined(OneBox(id, 1, []), Recv(id, id))
  {
    var m := Sent(msg, len);
    LocateUnique(OneBox(id, 0, []).mail, id, 0);
    LocateUnique(OneBox(id, 1, [m]).mail, id, 0);
    LocateUnique(OneBox(id, 1, []).mail, id, 0);
    assert OneBox(id, 0, []).mail[0 := OneBox(id, 1, [m]).mail[0]] == OneBox(id, 1, [m]).mail;
    assert OneBox(id, 1, [m]).mail[0 := OneBox(id, 1, []).mail[0]] == OneBox(id, 1, []).mail;
    assert [m][1..] == [] && [] + [m] == [m];
  }

  /** As written the second receive after a single send is undefined. */
  lemma SecondReceiveUndefined(id: nat, msg: seq<int>, len: nat)
    requires ValidId(id)
    ensures !AllDefined(RecvAsWritten, [Init(0, 1, 2), Create(0, id, true), Send(id, id, msg, len, true),
                                        Recv(id, id), Recv(id, id)])
  {
    var a, b, c, d := Init(0, 1, 2), Create(0, id, true), Send(id, id, msg, len, true), Recv(id, id);
    SendThenReceive(id, msg, len);
    AfterOneMore(RecvAsWritten, [], a);
    AfterOneMore(RecvAsWritten, [] + [a], b);
    AfterOneMore(RecvAsWritten, [] + [a] + [b], c);
    AfterOneMore(RecvAsWritten, [] + [a] + [b] + [c], d);
    var run := [a, b, c, d, d];
    assert run[..4] == [] + [a] + [b] + [c] + [d];
    assert !Defined(After(RecvAsWritten, run[..4]), run[4]);
  }

  /** destroy succeeds exactly when the queue is empty, no send failed half-way and, as written, nothing was
      ever received: a mailbox is never taken away with a message in it. */
  lemma DestroyedExactly(reading: Reading, run: seq<Op>, id: nat)
    requires AllDefined(reading, run)
    requires After(reading, run).started && Locate(After(reading, run).mail, id, 0) < |After(reading, run).mail|
    ensures var h := HistoryOf(reading, run, id);
            Step(reading, After(reading, run), Destroy(0, id)).1 == 0 <==>
              h.sent == h.received && h.failed == 0 && (reading.Meant? || h.received == [])
  {
    RunKeepsInv(reading, run);
    var s, h := After(reading, run), HistoryOf(reading, run, id);
    AccountedCounter(reading, s.mail[Locate(s.mail, id, 0)], h);
  }

  // ---- Who may do what ----

  /** A mailbox that changes, appears or goes by send or recv does so for its own uid, and by any other call for root;
      and only root's init and shutdown start or stop the system. */
  lemma WhoMayChange(reading: Reading, s: Store, op: Op, box: Box)
    ensures var t := Step(reading, s, op).0;
            && ((box in s.mail) != (box in t.mail) ==> op.uid == if op.Send? || op.Recv? then box.id else 0)
            && (s.started != t.started ==> op.uid == 0 && if s.started then op.Shutdown? else op.Init?)
  {
    if !Concerns(op, box.id) {
      OthersUntouched(reading, s, op, box);
    }
    ChangeKinds(reading, s, op);
  }

  /** On a started store and for a valid id, send and recv answer -EPERM exactly for a caller other than the owner,
      and then leave the store as it is. */
  lemma OwnerOnly(reading: Reading, s: Store, op: Op)
    requires s.started && (op.Send? || op.Recv?) && 1 <= op.id <= 4611690000000000000
    ensures Step(reading, s, op).1 == -1 <==> op.uid != op.id
    ensures op.uid != op.id ==> Step(reading, s, op) == (s, -1)
  {
  }

  // ---- Every return code from the history of the calls ----

  /** The latest init or shutdown that succeeded was an init. */
  predicate Running(reading: Reading, run: seq<Op>) {
    run != [] &&
    var n := |run| - 1;
    if (run[n].Init? || run[n].Shutdown?) && CodeAt(reading, run, n) == 0 then run[n].Init?
    else Running(reading, run[..n])
  }

  /** The latest create or destroy of id or shutdown that succeeded was a create. */
  predicate Alive(reading: Reading, run: seq<Op>, id: nat) {
    run != [] &&
    var n := |run| - 1;
    if (run[n].Shutdown? || ((run[n].Create? || run[n].Destroy?) && run[n].id == id)) && CodeAt(reading, run, n) == 0
    then run[n].Create?
    else Alive(reading, run[..n], id)
  }

  lemma LocateAfterDelete(s: Store, k: nat, id: nat)
    requires DistinctIds(s.mail) && k < |s.mail|
    ensures var t := Apply(s, Delete(k));
            Locate(t.mail, id, 0) < |t.mail| <==> Locate(s.mail, id, 0) < |s.mail| && s.mail[k].id != id
  {
    var t := Apply(s, Delete(k));
    var i, j := Locate(s.mail, id, 0), Locate(t.mail, id, 0);
    DeletedIdIsGone(s, k);
    if i < |s.mail| && i != k { assert t.mail[if i < k then i else i - 1].id == id; }
    if j < |t.mail| { assert s.mail[if j < k then j else j + 1].id == id; }
  }

  lemma LocateAfterAppend(s: Store, box: Box, id: nat)
    ensures var t := s.mail + [box];
            Locate(t, id, 0) < |t| <==> Locate(s.mail, id, 0) < |s.mail| || box.id == id
  {
    var t, i := s.mail + [box], Locate(s.mail, id, 0);
    if i < |s.mail| { assert t[i].id == id; }
    if box.id == id { assert t[|s.mail|].id == id; }
  }

  lemma LocateAfterReplace(s: Store, k: nat, box: Box, id: nat)
    requires k < |s.mail| && box.id == s.mail[k].id
    ensures var t := s.mail[k := box];
            Locate(t, id, 0) < |t| <==> Locate(s.mail, id, 0) < |s.mail|
  {
    var t := s.mail[k := box];
    var i, j := Locate(s.mail, id, 0), Locate(t, id, 0);
    if i < |s.mail| { assert t[i].id == id; }
    if j < |t| { assert s.mail[j].id == id; }
  }

  lemma AppearsExactly(reading: Reading, s: Store, op: Op, id: nat)
    requires DistinctIds(s.mail)
    ensures var (t, code) := Step(reading, s, op);
            Locate(t.mail, id, 0) < |t.mail| <==>
              if (op.Shutdown? || ((op.Create? || op.Destroy?) && op.id == id)) && code == 0 then op.Create?
              else Locate(s.mail, id, 0) < |s.mail|
  {
    var c := Effect(reading, s, op).0;
    ChangeKinds(reading, s, op);
    match c {
      case Delete(k) => LocateAfterDelete(s, k, id);
      case Append(box) => LocateAfterAppend(s, box, id);
      case Replace(k, box) => LocateAfterReplace(s, k, box, id);
      case _ =>
    }
  }

  /** After every run the system is started exactly if it was last started and not stopped. */
  lemma {:induction false} RunningExactly(reading: Reading, run: seq<Op>)
    ensures After(reading, run).started <==> Running(reading, run)
  {
    if run == [] {
    } else {
      RunningExactly(reading, run[..|run| - 1]);
    }
  }

  /** After every run the mailboxes are those created and not destroyed since. */
  lemma {:induction false} AliveExactly(reading: Reading, run: seq<Op>, id: nat)
    ensures Locate(After(reading, run).mail, id, 0) < |After(reading, run).mail| <==> Alive(reading, run, id)
  {
    if run == [] {
    } else {
      var front, op := run[..|run| - 1], run[|run| - 1];
      AliveExactly(reading, front, id);
      RunKeepsInv(reading, front);
      AppearsExactly(reading, After(reading, front), op, id);
      assert CodeAt(reading, run, |run| - 1) == Step(reading, After(reading, front), op).1;
    }
  }

  /** How a call moves the history of a mailbox, told by its return code alone. */
  ghost predicate Moves(past: History, h: History, op: Op, id: nat, code: int) {
    match op
    case Create(_, i, _) => h == if i == id && code == 0 then History([], [], 0, {}) else past
    case Send(_, i, msg, len, _) =>
      if i == id && code == 0 then len >= 0 && h == past.(sent := past.sent + [Message(msg, len)])
      else h == if i == id && code == -12 then past.(failed := past.failed + 1) else past
    case Recv(_, i) =>
      if i == id && code >= 0 && past.sent != past.received
      then |past.received| < |past.sent| && h == past.(received := past.sent[..|past.received| + 1])
      else h == past
    case AclAdd(_, i, pid, _) =>
      h == if i == id && code == 0 then past.(allowed := past.allowed + {pid}) else past
    case AclRemove(_, i, pid) =>
      h == if i == id && code == 0 then past.(allowed := past.allowed - {pid}) else past
    case _ => h == past
  }

  lemma HistoryMoves(reading: Reading, run: seq<Op>, op: Op, id: nat)
    ensures Moves(HistoryOf(reading, run, id), HistoryOf(reading, run + [op], id), op, id,
                  Step(reading, After(reading, run), op).1)
  {
    var s, past := After(reading, run), HistoryOf(reading, run, id);
    assert (run + [op])[..|run|] == run;
    RunKeepsInv(reading, run);
    if op.Recv? && op.id == id && Locate(s.mail, id, 0) < |s.mail| {
      var box := s.mail[Locate(s.mail, id, 0)];
      assert Accounted(reading, box, past);
    }
  }

  /** Everything sent was received, no send failed half-way and, as written, nothing was ever received. */
  predicate Untouched(reading: Reading, h: History) {
    h.sent == h.received && h.failed == 0 && (reading.Meant? || h.received == [])
  }

  predicate UsableId(id: nat) {
    1 <= id <= 4611690000000000000
  }

  /** What a call after the run should return. A defined recv returns the length given with the oldest message not
      yet received. */
  ghost predicate RightCode(reading: Reading, run: seq<Op>, op: Op, code: int) {
    match op
    case Init(uid, ptrs, prob) =>
      code == if Running(reading, run) then -17 else if uid != 0 then -1
              else if ptrs == 0 || (prob != 2 && prob != 4 && prob != 8 && prob != 16) then -22 else 0
    case Shutdown(uid) => code == if uid != 0 then -1 else 0
    case Create(uid, id, granted) =>
      code == if !Running(reading, run) then -2 else if !UsableId(id) then -14 else if uid != 0 then -1
              else if Alive(reading, run, id) then -17 else if granted then 0 else -12
    case Destroy(uid, id) =>
      code == if !Running(reading, run) then -2 else if uid != 0 then -1 else if !Alive(reading, run, id) then -2
              else if Untouched(reading, HistoryOf(reading, run, id)) then 0 else -22
    case Send(uid, id, msg, len, granted) =>
      code == if !Running(reading, run) then -2 else if !UsableId(id) then -14 else if uid != id then -1
              else if len < 0 then -22 else if !Alive(reading, run, id) then -2 else if granted then 0 else -12
    case Recv(uid, id) =>
      var h := HistoryOf(reading, run, id);
      if !Running(reading, run) then code == -2 else if !UsableId(id) then code == -14 else if uid != id then code == -1
      else if !Alive(reading, run, id) then code == -2 else if Untouched(reading, h) then code == -3
      else |h.received| < |h.sent| ==> code == h.sent[|h.received|].length
    case AclAdd(uid, id, pid, granted) =>
      code == if uid != 0 then -1 else if !Alive(reading, run, id) then -22
              else if pid in HistoryOf(reading, run, id).allowed then -22 else if granted then 0 else -12
    case AclRemove(uid, id, pid) =>
      code == if uid != 0 then -1 else if !Alive(reading, run, id) then -22
              else if pid in HistoryOf(reading, run, id).allowed then 0 else -22
  }

  lemma BoxOf(reading: Reading, run: seq<Op>, id: nat) returns (box: Box)
    requires Alive(reading, run, id)
    ensures var s := After(reading, run);
            Locate(s.mail, id, 0) < |s.mail| && box == s.mail[Locate(s.mail, id, 0)]
    ensures var h := HistoryOf(reading, run, id);
            && h.sent == h.received + box.messages && (box.count == 0 <==> Untouched(reading, h))
            && forall pid: int :: pid in box.acl <==> pid in h.allowed
  {
    AliveExactly(reading, run, id);
    RunKeepsInv(reading, run);
    var s := After(reading, run);
    box := s.mail[Locate(s.mail, id, 0)];
    assert Accounted(reading, box, HistoryOf(reading, run, id));
    AccountedCounter(reading, box, HistoryOf(reading, run, id));
  }

  lemma AclCodes(reading: Reading, run: seq<Op>, op: Op)
    requires op.AclAdd? || op.AclRemove?
    ensures RightCode(reading, run, op, Step(reading, After(reading, run), op).1)
  {
    AliveExactly(reading, run, op.id);
    if Alive(reading, run, op.id) { var box := BoxOf(reading, run, op.id); }
  }

  lemma RecvCode(reading: Reading, run: seq<Op>, op: Op)
    requires op.Recv?
    ensures RightCode(reading, run, op, Step(reading, After(reading, run), op).1)
  {
    RunningExactly(reading, run);
    AliveExactly(reading, run, op.id);
    if Alive(reading, run, op.id) { var box := BoxOf(reading, run, op.id); }
  }

  /** Every call returns what the history of the calls before it says. */
  lemma CodesByHistory(reading: Reading, run: seq<Op>, op: Op)
    ensures RightCode(reading, run, op, Step(reading, After(reading, run), op).1)
  {
    RunningExactly(reading, run);
    match op {
      case Init(_, _, _) =>
      case Shutdown(_) =>
      case Create(_, id, _) => AliveExactly(reading, run, id);
      case Destroy(_, id) =>
        AliveExactly(reading, run, id);
        if Alive(reading, run, id) { var box := BoxOf(reading, run, id); }
      case Send(_, id, _, _, _) => AliveExactly(reading, run, id);
      case Recv(_, _) => RecvCode(reading, run, op);
      case _ => AclCodes(reading, run, op);
    }
  }

  /** The codes are those of the run, each as the history of the calls before it says. */
  ghost predicate CodesRight(reading: Reading, run: seq<Op>, codes: seq<int>) {
    && |codes| == |run|
    && forall k :: 0 <= k < |run| ==> codes[k] == CodeAt(reading, run, k) && RightCode(reading, run[..k], run[k], codes[k])
  }

  lemma CodesAreRight(reading: Reading, run: seq<Op>, codes: seq<int>)
    requires |codes| == |run| && forall k :: 0 <= k < |run| ==> codes[k] == CodeAt(reading, run, k)
    ensures CodesRight(reading, run, codes)
  {
    forall k: nat | k < |run|
      ensures RightCode(reading, run[..k], run[k], codes[k])
    {
      CodesByHistory(reading, run[..k], run[k]);
    }
  }

  // ---- Three tests as written ----

  /** Line 84 joins its four inequalities with "or", so it rejects every prob. */
  predicate WrittenProbTest(prob: nat) {
    prob != 2 || prob != 4 || prob != 8 || prob != 16
  }

  function WrittenInit(started: bool, uid: nat, ptrs: nat, prob: nat): (bool, int) {
    if started then (true, -EEXIST)
    else if uid != 0 then (started, -EPERM)
    else if ptrs == 0 then (started, -EINVAL)
    else if WrittenProbTest(prob) then (started, -EINVAL)
    else (true, 0)
  }

  function StartedAfter(calls: seq<(nat, nat, nat)>): bool {
    if calls == [] then false
    else
      var c := calls[|calls| - 1];
      WrittenInit(StartedAfter(calls[..|calls| - 1]), c.0, c.1, c.2).0
  }

  /** As written no sequence of calls ever starts the mailbox system. */
  lemma {:induction false} InitNeverSucceeds(calls: seq<(nat, nat, nat)>)
    ensures !StartedAfter(calls)
  {
    if calls == [] {
    } else {
      InitNeverSucceeds(calls[..|calls| - 1]);
    }
  }

  /** create as written: behind its allocation it tests the pointer that the list walk left, which is NULL exactly
      on an empty list. */
  function WrittenCreate(s: Store, uid: nat, id: nat): (Change, int) {
    if !s.started then (Keep, -ENOENT)
    else if !ValidId(id) then (Keep, -EFAULT)
    else if uid != 0 then (Keep, -EPERM)
    else if Locate(s.mail, id, 0) < |s.mail| then (Keep, -EEXIST)
    else if s.mail == [] then (Keep, -ENOMEM)
    else (Append(Box(id, 0, [], [], false)), 0)
  }

  function WrittenStep(s: Store, op: Op): (Store, int) {
    if op.Create? then var e := WrittenCreate(s, op.uid, op.id); (Apply(s, e.0), e.1)
    else Step(RecvAsWritten, s, op)
  }

  function WrittenAfter(run: seq<Op>): Store {
    if run == [] then Store(false, []) else WrittenStep(WrittenAfter(run[..|run| - 1]), run[|run| - 1]).0
  }

  /** As written create does what is meant with an allocation that succeeds exactly on a list that is not empty, and
      init what is meant for a prob that is none of 2, 4, 8 and 16. */
  lemma WrittenExactly(s: Store, uid: nat, id: nat, ptrs: nat, prob: nat)
    ensures WrittenCreate(s, uid, id) == Effect(RecvAsWritten, s, Create(uid, id, s.mail != []))
    ensures WrittenInit(s.started, uid, ptrs, prob)
         == (Step(RecvAsWritten, s, Init(uid, ptrs, 3)).0.started, Step(RecvAsWritten, s, Init(uid, ptrs, 3)).1)
  {
  }

  /** With create as written no run of calls ever has a mailbox, and every create fails, even with init and the
      test of the id as they are meant. */
  lemma {:induction false} NoMailboxEver(run: seq<Op>, uid: nat, id: nat)
    ensures WrittenAfter(run).mail == [] && WrittenCreate(WrittenAfter(run), uid, id).1 < 0
  {
    if run == [] {
    } else {
      NoMailboxEver(run[..|run| - 1], uid, id);
    }
  }

  /** As written create, send and recv reject every id below MAXID, so no 32-bit uid, which must equal the
      id in send and recv, can ever pass both tests. */
  lemma RangeTestExcludesUsers(uid: nat, id: nat)
    requires uid < 0x1_0000_0000 && uid == id
    ensures id == 0 || id < MAXID
    ensures id != 0 ==> ValidId(id)
  {
  }
}
