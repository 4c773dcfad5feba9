/** The mailbox system calls of project1/prototype/project1.c on a list of mailbox objects. */
module MailServer {
  import opened Errno
  import opened Mailbox

  class Mailbag {
    const id: nat
    var count: nat
    var messages: seq<Message>
    var acl: seq<int>
    var aclC: bool

    constructor (id: nat)
      ensures this.id == id && Value() == Box(id, 0, [], [], false)
    {
      this.id, count, messages, acl, aclC := id, 0, [], [], false;
    }

    ghost function Value(): Box
      reads this
    {
      Box(id, count, messages, acl, aclC)
    }

    method Deliver(message: Message, granted: bool) returns (code: int)
      modifies this
      ensures (Value(), code) == Delivered(old(Value()), message, granted)
    {
      count := count + 1;
      if !granted {
        return -ENOMEM;
      }
      messages := messages + [message];
      return 0;
    }

    /** The first message is taken unseen once the counter is positive. */
    method Take(reading: Reading) returns (code: int)
      requires count > 0 ==> messages != []
      modifies this
      ensures (Value(), code) == Taken(reading, old(Value()))
    {
      if count == 0 {
        return -ESRCH;
      }
      var length := messages[0].length;
      messages := messages[1..];
      if reading.Meant? {
        count := count - 1;
      }
      return length;
    }

    method Permit(pid: int, granted: bool) returns (code: int)
      modifies this
      ensures (Value(), code) == Permitted(old(Value()), pid, granted)
    {
      if pid in acl {
        return -EINVAL;
      }
      aclC := true;
      if !granted {
        return -ENOMEM;
      }
      acl := acl + [pid];
      return 0;
    }

    method Revoke(pid: int) returns (code: int)
      modifies this
      ensures (Value(), code) == Revoked(old(Value()), pid)
    {
      var p := 0;
      while p < |acl|
        invariant 0 <= p <= |acl| && pid !in acl[..p]
        invariant Value() == old(Value())
      {
        if acl[p] == pid {
          PosUnique(acl, pid, p);
          acl := acl[..p] + acl[p + 1..];
          return 0;
        }
        p := p + 1;
      }
      return -EINVAL;
    }
  }

  ghost function Values(mail: seq<Mailbag>): (boxes: seq<Box>)
    reads mail
    ensures |boxes| == |mail|
    ensures forall i :: 0 <= i < |mail| ==> boxes[i] == mail[i].Value()
  {
    seq(|mail|, i requires 0 <= i < |mail| reads mail => mail[i].Value())
  }

  lemma ValuesWithout(mail: seq<Mailbag>, k: nat)
    requires k < |mail|
    ensures Values(mail[..k] + mail[k + 1..]) == Values(mail)[..k] + Values(mail)[k + 1..]
  {
  }

  /** Only mailbox k differs from what was there. */
  lemma ValuesChanged(mail: seq<Mailbag>, was: seq<Box>, k: nat)
    requires k < |mail| == |was| && forall i :: 0 <= i < |mail| && i != k ==> mail[i].Value() == was[i]
    ensures Values(mail) == was[k := mail[k].Value()]
  {
  }

  lemma SendStep(reading: Reading, s: Store, id: nat, msg: seq<int>, len: nat, granted: bool)
    requires s.started && ValidId(id) && Locate(s.mail, id, 0) < |s.mail|
    ensures var k := Locate(s.mail, id, 0);
            var r := Delivered(s.mail[k], Message(msg, len), granted);
            Step(reading, s, Send(id, id, msg, len, granted)) == (s.(mail := s.mail[k := r.0]), r.1)
  {
  }

  lemma RecvStep(reading: Reading, s: Store, id: nat)
    requires s.started && ValidId(id) && Locate(s.mail, id, 0) < |s.mail|
    ensures var k := Locate(s.mail, id, 0);
            var r := Taken(reading, s.mail[k]);
            Step(reading, s, Recv(id, id)) == (s.(mail := s.mail[k := r.0]), r.1)
  {
  }

  lemma PermitStep(reading: Reading, s: Store, id: nat, pid: int, granted: bool)
    requires Locate(s.mail, id, 0) < |s.mail|
    ensures var k := Locate(s.mail, id, 0);
            var r := Permitted(s.mail[k], pid, granted);
            Step(reading, s, AclAdd(0, id, pid, granted)) == (s.(mail := s.mail[k := r.0]), r.1)
  {
  }

  lemma RevokeStep(reading: Reading, s: Store, id: nat, pid: int)
    requires Locate(s.mail, id, 0) < |s.mail|
    ensures var k := Locate(s.mail, id, 0);
            var r := Revoked(s.mail[k], pid);
            Step(reading, s, AclRemove(0, id, pid)) == (s.(mail := s.mail[k := r.0]), r.1)
  {
  }

  class Server {
    const reading: Reading
    /** MAILBOXC is not zero. */
    var started: bool
    var mail: seq<Mailbag>

    ghost predicate Valid()
      reads this
    {
      forall i, j :: 0 <= i < j < |mail| ==> mail[i] != mail[j]
    }

    ghost function State(): Store
      reads this, mail
    {
      Store(started, Values(mail))
    }

    constructor (reading: Reading)
      ensures Valid() && this.reading == reading && State() == Store(false, [])
    {
      this.reading, started, mail := reading, false, [];
    }

    method Init(uid: nat, ptrs: nat, prob: nat) returns (code: int)
      requires Valid()
      modifies this`started
      ensures Valid() && mail == old(mail)
      ensures (State(), code) == Step(reading, old(State()), Op.Init(uid, ptrs, prob))
    {
      if started {
        return -EEXIST;
      }
      if uid != 0 {
        return -EPERM;
      }
      if ptrs <= 0 {
        return -EINVAL;
      }
      if prob != 2 && prob != 4 && prob != 8 && prob != 16 {
        return -EINVAL;
      }
      started := true;
      return 0;
    }

    method Shutdown(uid: nat) returns (code: int)
      requires Valid()
      modifies this`started, this`mail
      ensures Valid() && forall i :: 0 <= i < |mail| ==> mail[i] in old(mail)
      ensures (State(), code) == Step(reading, old(State()), Op.Shutdown(uid))
    {
      if uid != 0 {
        return -EPERM;
      }
      mail := [];
      started := false;
      return 0;
    }

    /** The list walk of every call: the position of the mailbox, or the length of the list. */
    method Walk(id: nat) returns (k: nat)
      requires Valid()
      ensures k == Locate(State().mail, id, 0)
    {
      k := 0;
      while k < |mail|
        invariant 0 <= k <= |mail|
        invariant Locate(State().mail, id, 0) == Locate(State().mail, id, k)
      {
        if mail[k].id == id {
          return;
        }
        k := k + 1;
      }
    }

    method Create(uid: nat, id: nat, granted: bool) returns (code: int)
      requires Valid()
      modifies this`mail
      ensures Valid()
      ensures forall i :: 0 <= i < |mail| ==> mail[i] in old(mail) || fresh(mail[i])
      ensures (State(), code) == Step(reading, old(State()), Op.Create(uid, id, granted))
    {
      if !started {
        return -ENOENT;
      }
      if id == 0 || id > MAXID {
        return -EFAULT;
      }
      if uid != 0 {
        return -EPERM;
      }
      var k := Walk(id);
      if k < |mail| {
        return -EEXIST;
      }
      if !granted {
        return -ENOMEM;
      }
      var box := new Mailbag(id);
      mail := mail + [box];
      assert State().mail == old(State()).mail + [Box(id, 0, [], [], false)];
      return 0;
    }

    /** list_del of a mailbox. */
    method Unlink(k: nat)
      requires Valid() && k < |mail|
      modifies this`mail
      ensures Valid() && forall i :: 0 <= i < |mail| ==> mail[i] in old(mail)
      ensures State().mail == old(State()).mail[..k] + old(State()).mail[k + 1..]
    {
      ValuesWithout(mail, k);
      mail := mail[..k] + mail[k + 1..];
    }

    method Destroy(uid: nat, id: nat) returns (code: int)
      requires Valid()
      modifies this`mail
      ensures Valid() && forall i :: 0 <= i < |mail| ==> mail[i] in old(mail)
      ensures (State(), code) == Step(reading, old(State()), Op.Destroy(uid, id))
    {
      if !started {
        return -ENOENT;
      }
      if uid != 0 {
        return -EPERM;
      }
      var k := Walk(id);
      if k < |mail| {
        if mail[k].count > 0 {
          return -EINVAL;
        }
        Unlink(k);
        return 0;
      }
      return -ENOENT;
    }

    /** `granted` is whether both allocations succeed; the counter moves before they are tried. */
    method Send(uid: nat, id: nat, msg: seq<int>, len: int, granted: bool) returns (code: int)
      requires Valid()
      modifies mail
      ensures Valid()
      ensures (State(), code) == Step(reading, old(State()), Op.Send(uid, id, msg, len, granted))
      ensures old(started) && 1 <= id <= 4611690000000000000 ==> (code == -1 <==> uid != id)
    {
      if started && UsableId(id) { OwnerOnly(reading, State(), Op.Send(uid, id, msg, len, granted)); }
      if !started {
        return -ENOENT;
      }
      if id == 0 || id > MAXID {
        return -EFAULT;
      }
      if uid != id {
        return -EPERM;
      }
      if len < 0 {
        return -EINVAL;
      }
      var k := Walk(id);
      if k < |mail| {
        SendStep(reading, State(), id, msg, len, granted);
        code := mail[k].Deliver(Message(msg, len), granted);
        ValuesChanged(mail, old(State()).mail, k);
        return;
      }
      return -ENOENT;
    }

    /** A mailbox whose counter is positive must have a message: the code takes the first one unseen. */
    method Recv(uid: nat, id: nat) returns (code: int)
      requires Valid() && Defined(State(), Op.Recv(uid, id))
      modifies mail
      ensures Valid()
      ensures (State(), code) == Step(reading, old(State()), Op.Recv(uid, id))
      ensures old(started) && 1 <= id <= 4611690000000000000 ==> (code == -1 <==> uid != id)
    {
      if started && UsableId(id) { OwnerOnly(reading, State(), Op.Recv(uid, id)); }
      if !started {
        return -ENOENT;
      }
      if id == 0 || id > MAXID {
        return -EFAULT;
      }
      if uid != id {
        return -EPERM;
      }
      var k := Walk(id);
      if k < |mail| {
        assert mail[k].Value() == State().mail[k];
        RecvStep(reading, State(), id);
        code := mail[k].Take(reading);
        ValuesChanged(mail, old(State()).mail, k);
        return;
      }
      return -ENOENT;
    }

    method AclAdd(uid: nat, id: nat, pid: int, granted: bool) returns (code: int)
      requires Valid()
      modifies mail
      ensures Valid()
      ensures (State(), code) == Step(reading, old(State()), Op.AclAdd(uid, id, pid, granted))
    {
      if uid != 0 {
        return -EPERM;
      }
      var k := Walk(id);
      if k < |mail| {
        PermitStep(reading, State(), id, pid, granted);
        code := mail[k].Permit(pid, granted);
        ValuesChanged(mail, old(State()).mail, k);
        return;
      }
      return -EINVAL;
    }

    method AclRemove(uid: nat, id: nat, pid: int) returns (code: int)
      requires Valid()
      modifies mail
      ensures Valid()
      ensures (State(), code) == Step(reading, old(State()), Op.AclRemove(uid, id, pid))
    {
      if uid != 0 {
        return -EPERM;
      }
      var k := Walk(id);
      if k < |mail| {
        RevokeStep(reading, State(), id, pid);
        code := mail[k].Revoke(pid);
        ValuesChanged(mail, old(State()).mail, k);
        return;
      }
      return -EINVAL;
    }

    method Act(op: Op) returns (code: int)
      requires Valid() && Defined(State(), op)
      modifies this`started, this`mail, mail
      ensures Valid()
      ensures forall i :: 0 <= i < |mail| ==> mail[i] in old(mail) || fresh(mail[i])
      ensures (State(), code) == Step(reading, old(State()), op)
    {
      match op {
        case Init(uid, ptrs, prob) => code := Init(uid, ptrs, prob);
        case Shutdown(uid) => code := Shutdown(uid);
        case Create(uid, id, granted) => code := Create(uid, id, granted);
        case Destroy(uid, id) => code := Destroy(uid, id);
        case Send(uid, id, msg, len, granted) => code := Send(uid, id, msg, len, granted);
        case Recv(uid, id) => code := Recv(uid, id);
        case AclAdd(uid, id, pid, granted) => code := AclAdd(uid, id, pid, granted);
        case AclRemove(uid, id, pid) => code := AclRemove(uid, id, pid);
      }
    }

    method Perform(run: seq<Op>) returns (codes: seq<int>)
      requires Valid() && State() == Store(false, []) && AllDefined(reading, run)
      modifies this`started, this`mail
      ensures Valid() && State() == After(reading, run)
      ensures |codes| == |run| && forall k :: 0 <= k < |run| ==> codes[k] == CodeAt(reading, run, k)
    {
      codes := [];
      assert run[..0] == [];
      for k := 0 to |run|
        invariant Valid() && forall i :: 0 <= i < |mail| ==> fresh(mail[i])
        invariant State() == After(reading, run[..k])
        invariant |codes| == k && forall j :: 0 <= j < k ==> codes[j] == CodeAt(reading, run, j)
      {
        assert run[..k + 1][..k] == run[..k];
        assert Defined(After(reading, run[..k]), run[k]);
        ghost var before := codes;
        var code := Act(run[k]);
        assert code == CodeAt(reading, run, k);
        codes := codes + [code];
        assert forall j :: 0 <= j < k ==> codes[j] == before[j];
      }
      assert run[..|run|] == run;
    }

    /** Any defined run on a new server: the calls return what the history of the calls before them says, the ids
        are distinct, and every mailbox object holds what was sent to it and not yet received. */
    method Run(run: seq<Op>) returns (codes: seq<int>)
      requires Valid() && State() == Store(false, []) && AllDefined(reading, run)
      modifies this`started, this`mail
      ensures Valid() && State() == After(reading, run)
      ensures CodesRight(reading, run, codes)
      ensures forall i, j :: 0 <= i < j < |mail| ==> mail[i].id != mail[j].id
      ensures forall i :: 0 <= i < |mail| ==>
                var h := HistoryOf(reading, run, mail[i].id);
                h.sent == h.received + mail[i].messages && Lists(mail[i].acl, h.allowed)
    {
      codes := Perform(run);
      CodesAreRight(reading, run, codes);
      RunKeepsInv(reading, run);
      assert forall i :: 0 <= i < |mail| ==> State().mail[i] == mail[i].Value();
    }
  }

  lemma {:induction false} PosUnique(acl: seq<int>, pid: int, p: nat)
    requires p < |acl| && acl[p] == pid && pid !in acl[..p]
    ensures Pos(acl, pid) == p
  {
    if p == 0 {
    } else {
      assert acl[0] == acl[..p][0];
      assert acl[1..][..p - 1] == acl[..p][1..];
      PosUnique(acl[1..], pid, p - 1);
    }
  }
}
