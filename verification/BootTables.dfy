/** argv_init, envp_init and the parameter string of project 2/main.c as memory that is overwritten. */
module BootTables {
  import opened BootOptions
  import opened Memory

  // ---- repair_env_string ----

  /** The zero-terminated string s lies at position p. */
  ghost predicate StringAt(m: seq<char>, p: nat, s: string) {
    && p + |s| < |m| && m[p + |s|] == NUL
    && forall k :: p <= k < p + |s| ==> m[k] == s[k - p] && m[k] != NUL
  }

  method Strlen(m: array<char>, p: nat, ghost s: string) returns (n: nat)
    requires StringAt(m[..], p, s)
    ensures n == |s|
  {
    n := 0;
    while m[p + n] != NUL
      invariant n <= |s|
      decreases |s| - n
    {
      n := n + 1;
    }
  }

  /** memmove(val - 1, val, count). */
  method MoveDown(m: array<char>, val: nat, count: nat)
    requires 1 <= val && val + count <= m.Length
    modifies m
    ensures forall k :: val - 1 <= k < val - 1 + count ==> m[k] == old(m[k + 1])
    ensures forall k :: 0 <= k < m.Length && !(val - 1 <= k < val - 1 + count) ==> m[k] == old(m[k])
  {
    var i := 0;
    while i < count
      invariant 0 <= i <= count
      invariant forall k :: val - 1 <= k < val - 1 + i ==> m[k] == old(m[k + 1])
      invariant forall k :: 0 <= k < m.Length && !(val - 1 <= k < val - 1 + i) ==> m[k] == old(m[k])
    {
      m[val - 1 + i] := m[val + i];
      i := i + 1;
    }
  }

  lemma JoinedPlain(b: seq<char>, param: nat, name: string, value: string)
    requires StringAt(b, param, name) && StringAt(b, param + |name| + 1, value)
    ensures StringAt(b[param + |name| := '='], param, name + "=" + value)
  {
  }

  lemma JoinedQuoted(b: seq<char>, t: seq<char>, param: nat, name: string, value: string)
    requires StringAt(b, param, name) && StringAt(b, param + |name| + 2, value) && |t| == |b|
    requires t[param + |name|] == '=' && forall k :: 0 <= k < param + |name| ==> t[k] == b[k]
    requires forall k :: param + |name| + 1 <= k < param + |name| + 2 + |value| ==> t[k] == b[k + 1]
    ensures StringAt(t, param, name + "=" + value)
  {
  }

  /** Puts "=" back in place of the NUL behind the name; a quoted value starts one place further on and is
      moved back by one, closing NUL included. Any other position of val is a kernel BUG. */
  method RepairEnvString(m: array<char>, param: nat, val: nat, ghost name: string, ghost value: string)
    requires StringAt(m[..], param, name) && StringAt(m[..], val, value)
    requires val == param + |name| + 1 || val == param + |name| + 2
    modifies m
    ensures StringAt(m[..], param, name + "=" + value)
    ensures forall k :: 0 <= k < m.Length && !(param <= k < val + |value|) ==> m[k] == old(m[k])
  {
    ghost var before := m[..];
    var length := Strlen(m, param, name);
    if val == param + length + 1 {
      m[val - 1] := '=';
      JoinedPlain(before, param, name, value);
      assert m[..] == before[param + |name| := '='];
    } else {
      m[val - 2] := '=';
      var count := Strlen(m, val, value);
      MoveDown(m, val, count + 1);
      JoinedQuoted(before, m[..], param, name, value);
    }
  }

  // ---- The tables ----

  class InitTables {
    const limit: nat
    const argvInit: array<Slot>
    const envpInit: array<Slot>
    var panicLater: bool

    ghost predicate Valid()
      reads this, argvInit, envpInit
    {
      argvInit != envpInit && Terminated(limit, State())
    }

    ghost function State(): Boot
      reads this, argvInit, envpInit
    {
      Boot(argvInit[..], envpInit[..], panicLater)
    }

    constructor (limit: nat)
      requires limit >= 1
      ensures Valid() && fresh(argvInit) && fresh(envpInit)
      ensures this.limit == limit && State() == Initial(limit)
    {
      this.limit, panicLater := limit, false;
      argvInit := new Slot[limit + 2](i => if i == 0 then Text("init") else Null);
      envpInit := new Slot[limit + 2](i => if i == 0 then Text("HOME=/") else if i == 1 then Text("TERM=linux") else Null);
      new;
      assert argvInit[..] == Initial(limit).args;
      assert envpInit[..] == Initial(limit).envs;
    }

    method SetInitArg(name: string, value: Value)
      requires Valid()
      modifies this`panicLater, argvInit
      ensures Valid() && State() == Step(limit, old(State()), InitArg(name, value))
    {
      StepTerminated(limit, State(), InitArg(name, value));
      if panicLater {
        return;
      }
      assert argvInit[..][limit + 1] == argvInit[limit + 1] == Null;
      var i := 0;
      while argvInit[i] != Null
        invariant 0 <= i <= limit && argvInit[..] == old(argvInit[..])
        invariant FirstNull(argvInit[..], 0) == FirstNull(argvInit[..], i) && !panicLater
        decreases limit + 1 - i
      {
        if i == limit {
          panicLater := true;
          return;
        }
        i := i + 1;
      }
      argvInit[i] := Text(Repaired(name, value));
    }

    /** The environment branch of unknown_bootoption. */
    method AddEnvironment(text: string, n: nat)
      requires Valid() && !panicLater
      modifies this`panicLater, envpInit
      ensures State() == AddEnv(limit, old(State()), text, n) && Text(text) in envpInit[..]
    {
      assert envpInit[..][limit + 1] == envpInit[limit + 1] == Null;
      var i := 0;
      while envpInit[i] != Null
        invariant 0 <= i <= limit + 1 && envpInit[..] == old(envpInit[..])
        invariant FirstFor(envpInit[..], text, n, 0) == FirstFor(envpInit[..], text, n, i)
        invariant panicLater <==> i > limit
        decreases limit + 1 - i
      {
        if i == limit {
          panicLater := true;
        }
        if SamePrefix(text, envpInit[i].text, n) {
          break;
        }
        i := i + 1;
      }
      envpInit[i] := Text(text);
      assert envpInit[..][i] == Text(text);
    }

    /** The command line branch of unknown_bootoption. */
    method AddArgument(text: string)
      requires Valid() && !panicLater
      modifies this`panicLater, argvInit
      ensures State() == AddArg(limit, old(State()), text) && Text(text) in argvInit[..]
    {
      assert argvInit[..][limit + 1] == argvInit[limit + 1] == Null;
      var i := 0;
      while argvInit[i] != Null
        invariant 0 <= i <= limit + 1 && argvInit[..] == old(argvInit[..])
        invariant FirstNull(argvInit[..], 0) == FirstNull(argvInit[..], i)
        invariant panicLater <==> i > limit
        decreases limit + 1 - i
      {
        if i == limit {
          panicLater := true;
        }
        i := i + 1;
      }
      argvInit[i] := Text(text);
      assert argvInit[..][i] == Text(text);
    }

    method UnknownBootoption(name: string, value: Value, consumed: bool)
      requires Valid()
      modifies this`panicLater, argvInit, envpInit
      ensures Valid() && State() == Step(limit, old(State()), Unknown(name, value, consumed))
      ensures consumed || '.' in name ==> State() == old(State())
      ensures !consumed && !old(panicLater) && '.' !in name && (value.Quoted? && value.text != "" ==> value.text[0] != '.') ==>
                if value.NoValue? then Text(name) in argvInit[..] else Text(name + "=" + value.text) in envpInit[..]
    {
      StepTerminated(limit, State(), Unknown(name, value, consumed));
      ModuleParameterExactly(name, value);
      if consumed {
        return;
      }
      if ModuleParameter(name, value) {
        return;
      }
      if panicLater {
        return;
      }
      if !value.NoValue? {
        AddEnvironment(Repaired(name, value), ValueOffset(name, value));
      } else {
        AddArgument(Repaired(name, value));
      }
    }

    /** init_setup and rdinit_setup: forget the arguments seen so far, except in the slot at the limit. */
    method InitSetup()
      requires Valid()
      modifies argvInit
      ensures Valid() && State() == Step(limit, old(State()), Setup)
    {
      StepTerminated(limit, State(), Setup);
      var i := 1;
      while i < limit
        invariant 1 <= i && (i <= limit || i == 1)
        invariant forall k :: 0 <= k < argvInit.Length ==>
                    argvInit[k] == if 1 <= k < i && k < limit then Null else old(argvInit[k])
      {
        argvInit[i] := Null;
        i := i + 1;
      }
      assert argvInit[..] == Step(limit, old(State()), Setup).args;
    }

    method Act(o: Option)
      requires Valid()
      modifies this`panicLater, argvInit, envpInit
      ensures Valid() && State() == Step(limit, old(State()), o)
    {
      match o {
        case InitArg(name, value) => SetInitArg(name, value);
        case Unknown(name, value, consumed) => UnknownBootoption(name, value, consumed);
        case Setup => InitSetup();
      }
    }

    /** A whole command line on the initial tables. If nothing overflows, init's arguments are those given since
        the last init=, and the environment holds every name once with its latest value, provided no init= came
        after too many arguments and no quoted value starts unlike the latest of its name. */
    method Run(run: seq<Option>)
      requires limit >= 1 && Valid() && State() == Initial(limit)
      modifies this`panicLater, argvInit, envpInit
      ensures Valid() && State() == After(limit, run)
      ensures !panicLater ==> argvInit[limit + 1] == Null && envpInit[limit + 1] == Null
      ensures !panicLater && (forall k :: 0 <= k < |run| ==> ForgetsAt(limit, run, k)) ==>
                HoldsArguments(argvInit[..], Arguments(run))
      ensures !panicLater && (forall k :: 0 <= k < |run| ==> WellNamed(run[k]) && AlikeAt(run, k)) ==>
                exists n :: 0 <= n <= limit + 1 && Distinct(envpInit[..], n) && Shows(envpInit[..], n, Latest(run))
    {
      assert run[..0] == [];
      for k := 0 to |run|
        invariant Valid() && State() == After(limit, run[..k])
      {
        PrefixAfter(limit, run, k);
        Act(run[k]);
      }
      assert run[..|run|] == run;
      assert argvInit[..][limit + 1] == argvInit[limit + 1] && envpInit[..][limit + 1] == envpInit[limit + 1];
      if !panicLater {
        CommandLine(limit, run);
      }
    }
  }
}
